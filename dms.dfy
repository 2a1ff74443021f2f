/**
 * `dms_to_dec`: a latitude or longitude logged as degrees, minutes and seconds
 * ("52:30:15N", "52 30 15 N", "52:30.25N") turned into signed decimal degrees.
 * The arithmetic is over reals.
 */
module Dms {
  import opened Options
  import opened Text

  /**
   * The separator normalisation, in the source's order: ':' becomes a space, and
   * a space is put before every 'E', 'N', 'W' and 'S'.
   */
  function Normalise(dms: string): (r: string)
    ensures ':' !in r
  {
    var s1 := Replace(dms, ':', " ");
    var s2 := Replace(s1, 'E', " E");
    var s3 := Replace(s2, 'N', " N");
    var s4 := Replace(s3, 'W', " W");
    ReplaceRemoves(dms, ':', " ");
    ReplaceMembership(s1, 'E', " E", ':');
    ReplaceMembership(s2, 'N', " N", ':');
    ReplaceMembership(s3, 'W', " W", ':');
    ReplaceMembership(s4, 'S', " S", ':');
    Replace(s4, 'S', " S")
  }

  /** What `dms_to_dec` gives back: its input untouched, a number, or the ValueError `float()` raises. */
  datatype Conversion = Unchanged | Degrees(value: real) | Raised(error: Error)

  /**
   * deg + min / 60 + sec / 3600 from the tokens: the first two are degrees and
   * minutes; the third is seconds only when there are exactly four tokens,
   * otherwise seconds is 0. `None` when a token used is not a number.
   */
  function Magnitude(tokens: seq<string>): (m: Option<real>)
    requires |tokens| >= 3
    ensures m.None? <==>
      ParseFloat(tokens[0]).None? || ParseFloat(tokens[1]).None?
      || (|tokens| == 4 && ParseFloat(tokens[2]).None?)
    ensures m.Some? && |tokens| != 4 ==>
      m.value == ParseFloat(tokens[0]).value + ParseFloat(tokens[1]).value / 60.0
  {
    var deg := ParseFloat(tokens[0]);
    var min := ParseFloat(tokens[1]);
    var sec := if |tokens| == 4 then ParseFloat(tokens[2]) else Some(0.0);
    if deg.None? || min.None? || sec.None? then None
    else Some(deg.value + min.value / 60.0 + sec.value / 3600.0)
  }

  /**
   * `dms_to_dec(dms)`: fewer than three whitespace tokens after normalising and
   * the input comes back unchanged; otherwise the magnitude, negated when the
   * normalised string holds an 'S' or a 'W'.
   */
  function DmsToDec(dms: string): (r: Conversion)
    ensures r.Unchanged? <==> |Words(Normalise(dms))| < 3
    ensures r == Raised(ValueError) <==> |Words(Normalise(dms))| >= 3 && Magnitude(Words(Normalise(dms))).None?
  {
    var n := Normalise(dms);
    var tokens := Words(n);
    if |tokens| < 3 then Unchanged
    else
      match Magnitude(tokens)
      case None => Raised(ValueError)
      case Some(m) =>
        if Occurs("S", n) then Degrees(m * -1.0)
        else if Occurs("W", n) then Degrees(m * -1.0)
        else Degrees(m)
  }

  // ------------------------------------------------------------ normalising

  lemma NormaliseAppend(a: string, b: string)
    ensures Normalise(a + b) == Normalise(a) + Normalise(b)
  {
    var a1, b1 := Replace(a, ':', " "), Replace(b, ':', " ");
    ReplaceAppend(a, b, ':', " ");
    var a2, b2 := Replace(a1, 'E', " E"), Replace(b1, 'E', " E");
    ReplaceAppend(a1, b1, 'E', " E");
    var a3, b3 := Replace(a2, 'N', " N"), Replace(b2, 'N', " N");
    ReplaceAppend(a2, b2, 'N', " N");
    var a4, b4 := Replace(a3, 'W', " W"), Replace(b3, 'W', " W");
    ReplaceAppend(a3, b3, 'W', " W");
    ReplaceAppend(a4, b4, 'S', " S");
  }

  /** Digits pass through untouched. */
  lemma NormaliseDigits(s: string)
    requires AllDigits(s)
    ensures Normalise(s) == s
  {
    forall c | c in s ensures IsDigit(c) {
      var k :| 0 <= k < |s| && s[k] == c;
    }
    ReplaceAbsent(s, ':', " ");
    ReplaceAbsent(s, 'E', " E");
    ReplaceAbsent(s, 'N', " N");
    ReplaceAbsent(s, 'W', " W");
    ReplaceAbsent(s, 'S', " S");
  }

  lemma NormaliseColon()
    ensures Normalise(":") == " "
  {
    assert Replace(":", ':', " ") == " ";
    ReplaceAbsent(" ", 'E', " E");
    ReplaceAbsent(" ", 'N', " N");
    ReplaceAbsent(" ", 'W', " W");
    ReplaceAbsent(" ", 'S', " S");
  }

  /** A hemisphere letter gets a space put before it. */
  lemma NormaliseHemisphere(h: char)
    requires h in "NESW"
    ensures Normalise([h]) == [' ', h]
  {
    assert [' ', h] == [' '] + [h];
    ReplaceSingle(h, ':', " ");
    ReplaceSingle(h, 'E', " E");
    ReplaceSingle(h, 'N', " N");
    ReplaceSingle(h, 'W', " W");
    ReplaceSingle(h, 'S', " S");
    ReplaceSingle(' ', 'N', " N");
    ReplaceSingle(' ', 'W', " W");
    ReplaceSingle(' ', 'S', " S");
    ReplaceAppend([' '], [h], 'N', " N");
    ReplaceAppend([' '], [h], 'W', " W");
    ReplaceAppend([' '], [h], 'S', " S");
  }

  /** The replacement keeps its own letter: `c` is in the result iff it was in `s`. */
  lemma {:induction false} ReplaceKeepsLetter(s: string, c: char)
    ensures c in Replace(s, c, [' ', c]) <==> c in s
  {
    if s != [] {
      ReplaceKeepsLetter(s[1..], c);
      assert s == [s[0]] + s[1..];
    }
  }

  /** Normalising neither adds nor removes an 'S' or a 'W'. */
  lemma NormaliseKeepsSouthWest(s: string)
    ensures 'S' in Normalise(s) <==> 'S' in s
    ensures 'W' in Normalise(s) <==> 'W' in s
  {
    var s1 := Replace(s, ':', " ");
    var s2 := Replace(s1, 'E', " E");
    var s3 := Replace(s2, 'N', " N");
    var s4 := Replace(s3, 'W', " W");
    ReplaceMembership(s, ':', " ", 'S');
    ReplaceMembership(s1, 'E', " E", 'S');
    ReplaceMembership(s2, 'N', " N", 'S');
    ReplaceMembership(s3, 'W', " W", 'S');
    ReplaceKeepsLetter(s4, 'S');
    ReplaceMembership(s, ':', " ", 'W');
    ReplaceMembership(s1, 'E', " E", 'W');
    ReplaceMembership(s2, 'N', " N", 'W');
    ReplaceKeepsLetter(s3, 'W');
    ReplaceMembership(s4, 'S', " S", 'W');
  }

  // ------------------------------------------------------------ properties

  /** The sign of a decimal coordinate: south and west are negative. */
  function Signed(southOrWest: bool, magnitude: real): real
  {
    if southOrWest then -magnitude else magnitude
  }

  /**
   * The hemisphere rule, stated on the input: when the conversion succeeds, the
   * result is the magnitude negated exactly when the input holds an 'S' or a 'W'.
   */
  lemma SouthWestNegates(dms: string)
    requires |Words(Normalise(dms))| >= 3 && Magnitude(Words(Normalise(dms))).Some?
    ensures DmsToDec(dms)
         == Degrees(Signed('S' in dms || 'W' in dms, Magnitude(Words(Normalise(dms))).value))
  {
    var n := Normalise(dms);
    NormaliseKeepsSouthWest(dms);
    OccursChar('S', n);
    OccursChar('W', n);
  }

  /** A positive magnitude comes out negative iff the input names the south or the west. */
  lemma NegativeIffSouthWest(dms: string)
    requires |Words(Normalise(dms))| >= 3 && Magnitude(Words(Normalise(dms))).Some?
    requires Magnitude(Words(Normalise(dms))).value > 0.0
    ensures DmsToDec(dms).Degrees?
    ensures DmsToDec(dms).value < 0.0 <==> ('S' in dms || 'W' in dms)
  {
    SouthWestNegates(dms);
  }

  /** A hemisphere letter is neither a digit nor whitespace. */
  lemma HemisphereWord(h: char)
    requires h in "NESW"
    ensures IsWord([h])
  {
  }

  /** Whitespace splitting of "D M S h" (four fields). */
  lemma FourFields(d: string, m: string, s: string, h: char)
    requires IsWord(d) && IsWord(m) && IsWord(s) && IsWord([h])
    ensures Words(d + " " + (m + " " + (s + " " + [h]))) == [d, m, s, [h]]
  {
    var t3 := s + " " + [h];
    var t2 := m + " " + t3;
    WordsSingle([h]);
    WordsCons(s, [h]);
    WordsCons(m, t3);
    WordsCons(d, t2);
  }

  lemma DigitsAreWord(n: nat)
    ensures IsWord(NatToString(n))
    ensures 'S' !in NatToString(n) && 'W' !in NatToString(n)
  {
    var s := NatToString(n);
    forall k | 0 <= k < |s| ensures !IsSpace(s[k]) && s[k] != 'S' && s[k] != 'W' {
      assert IsDigit(s[k]);
    }
  }

  /** Normalising "D:M:Sh" gives "D M S h". */
  lemma NormaliseFourFields(ds: string, ms: string, ss: string, h: char)
    requires AllDigits(ds) && AllDigits(ms) && AllDigits(ss) && h in "NESW"
    ensures Normalise(ds + ":" + ms + ":" + ss + [h]) == ds + " " + (ms + " " + (ss + " " + [h]))
  {
    var p1 := ds + ":";
    NormaliseDigitsColon(ds);
    var p2 := p1 + ms;
    NormaliseAppendDigits(p1, ms);
    var p3 := p2 + ":";
    NormaliseAppendColon(p2);
    var p4 := p3 + ss;
    NormaliseAppendDigits(p3, ss);
    NormaliseAppendHemisphere(p4, h);
    assert Normalise(p4 + [h]) == ds + " " + ms + " " + ss + " " + [h];
  }

  lemma NormaliseDigitsColon(ds: string)
    requires AllDigits(ds)
    ensures Normalise(ds + ":") == ds + " "
  {
    NormaliseAppend(ds, ":");
    NormaliseDigits(ds);
    NormaliseColon();
  }

  lemma NormaliseAppendDigits(p: string, ds: string)
    requires AllDigits(ds)
    ensures Normalise(p + ds) == Normalise(p) + ds
  {
    NormaliseAppend(p, ds);
    NormaliseDigits(ds);
  }

  lemma NormaliseAppendColon(p: string)
    ensures Normalise(p + ":") == Normalise(p) + " "
  {
    NormaliseAppend(p, ":");
    NormaliseColon();
  }

  lemma NormaliseAppendHemisphere(p: string, h: char)
    requires h in "NESW"
    ensures Normalise(p + [h]) == Normalise(p) + " " + [h]
  {
    NormaliseAppend(p, [h]);
    NormaliseHemisphere(h);
  }

  /**
   * Degrees, minutes and seconds written "D:M:Sh" (the SPN form) convert to
   * D + M/60 + S/3600, negative in the south and the west.
   */
  lemma DegreesMinutesSecondsConverts(d: nat, m: nat, s: nat, h: char)
    requires h in "NESW"
    ensures DmsToDec(NatToString(d) + ":" + NatToString(m) + ":" + NatToString(s) + [h])
         == Degrees(Signed(h == 'S' || h == 'W', d as real + m as real / 60.0 + s as real / 3600.0))
  {
    DigitsAreWord(d);
    DigitsAreWord(m);
    DigitsAreWord(s);
    ParseFloatNat(d);
    ParseFloatNat(m);
    ParseFloatNat(s);
    FourFieldsConvert(NatToString(d), NatToString(m), NatToString(s), h, d as real, m as real, s as real);
  }

  /** "D:M:Sh" for digit fields that read as the numbers `dv`, `mv` and `sv`. */
  lemma FourFieldsConvert(ds: string, ms: string, ss: string, h: char, dv: real, mv: real, sv: real)
    requires h in "NESW"
    requires AllDigits(ds) && AllDigits(ms) && AllDigits(ss)
    requires IsWord(ds) && IsWord(ms) && IsWord(ss)
    requires ParseFloat(ds) == Some(dv) && ParseFloat(ms) == Some(mv) && ParseFloat(ss) == Some(sv)
    ensures DmsToDec(ds + ":" + ms + ":" + ss + [h])
         == Degrees(Signed(h == 'S' || h == 'W', dv + mv / 60.0 + sv / 3600.0))
  {
    var dms := ds + ":" + ms + ":" + ss + [h];
    NormaliseFourFields(ds, ms, ss, h);
    HemisphereWord(h);
    FourFields(ds, ms, ss, h);
    assert 'S' !in ds && 'S' !in ms && 'S' !in ss && 'W' !in ds && 'W' !in ms && 'W' !in ss by {
      NoLetterInDigits(ds);
      NoLetterInDigits(ms);
      NoLetterInDigits(ss);
    }
    assert 'S' in dms <==> h == 'S';
    assert 'W' in dms <==> h == 'W';
    ConvertsTo(dms, [ds, ms, ss, [h]], dv + mv / 60.0 + sv / 3600.0, h == 'S' || h == 'W');
  }

  lemma NoLetterInDigits(s: string)
    requires AllDigits(s)
    ensures 'S' !in s && 'W' !in s
  {
    forall k | 0 <= k < |s| ensures s[k] != 'S' && s[k] != 'W' {
      assert IsDigit(s[k]);
    }
  }

  /** The conversion of a string whose tokens and hemisphere are known. */
  lemma ConvertsTo(dms: string, tokens: seq<string>, magnitude: real, southOrWest: bool)
    requires Words(Normalise(dms)) == tokens && |tokens| >= 3
    requires Magnitude(tokens) == Some(magnitude)
    requires southOrWest == ('S' in dms || 'W' in dms)
    ensures DmsToDec(dms) == Degrees(Signed(southOrWest, magnitude))
  {
    SouthWestNegates(dms);
  }

  /** Whitespace splitting of "D M h" (three fields). */
  lemma ThreeFields(d: string, m: string, h: char)
    requires IsWord(d) && IsWord(m) && IsWord([h])
    ensures Words(d + " " + (m + " " + [h])) == [d, m, [h]]
  {
    var t2 := m + " " + [h];
    WordsSingle([h]);
    WordsCons(m, [h]);
    WordsCons(d, t2);
  }

  /** Degrees and minutes alone, "D:Mh", give three tokens and a seconds part of 0. */
  lemma DegreesMinutesConverts(d: nat, m: nat, h: char)
    requires h in "NESW"
    ensures DmsToDec(NatToString(d) + ":" + NatToString(m) + [h])
         == Degrees(Signed(h == 'S' || h == 'W', d as real + m as real / 60.0))
  {
    DigitsAreWord(d);
    DigitsAreWord(m);
    ParseFloatNat(d);
    ParseFloatNat(m);
    ThreeFieldsConvert(NatToString(d), NatToString(m), h, d as real, m as real);
  }

  /** "D:Mh" for digit fields that read as the numbers `dv` and `mv`. */
  lemma ThreeFieldsConvert(ds: string, ms: string, h: char, dv: real, mv: real)
    requires h in "NESW"
    requires AllDigits(ds) && AllDigits(ms) && IsWord(ds) && IsWord(ms)
    requires ParseFloat(ds) == Some(dv) && ParseFloat(ms) == Some(mv)
    ensures DmsToDec(ds + ":" + ms + [h]) == Degrees(Signed(h == 'S' || h == 'W', dv + mv / 60.0))
  {
    var dms := ds + ":" + ms + [h];
    NormaliseDigitsColon(ds);
    NormaliseAppendDigits(ds + ":", ms);
    NormaliseAppendHemisphere(ds + ":" + ms, h);
    assert Normalise(dms) == ds + " " + (ms + " " + [h]);
    HemisphereWord(h);
    ThreeFields(ds, ms, h);
    NoLetterInDigits(ds);
    NoLetterInDigits(ms);
    assert 'S' in dms <==> h == 'S';
    assert 'W' in dms <==> h == 'W';
    ConvertsTo(dms, [ds, ms, [h]], dv + mv / 60.0 + 0.0 / 3600.0, h == 'S' || h == 'W');
  }

  /** Normalising "D:M:S" without a hemisphere letter gives "D M S". */
  lemma NormaliseThreeNumbers(ds: string, ms: string, ss: string)
    requires AllDigits(ds) && AllDigits(ms) && AllDigits(ss)
    ensures Normalise(ds + ":" + ms + ":" + ss) == ds + " " + (ms + " " + ss)
  {
    var p1 := ds + ":";
    NormaliseDigitsColon(ds);
    var p2 := p1 + ms;
    NormaliseAppendDigits(p1, ms);
    var p3 := p2 + ":";
    NormaliseAppendColon(p2);
    NormaliseAppendDigits(p3, ss);
    assert Normalise(p3 + ss) == ds + " " + ms + " " + ss;
  }

  /** Whitespace splitting of "D M S" (three fields, no hemisphere). */
  lemma ThreeNumberFields(d: string, m: string, s: string)
    requires IsWord(d) && IsWord(m) && IsWord(s)
    ensures Words(d + " " + (m + " " + s)) == [d, m, s]
  {
    WordsSingle(s);
    WordsCons(m, s);
    WordsCons(d, m + " " + s);
  }

  /** "D:M:S" for digit fields that read as the numbers `dv`, `mv` and `sv`. */
  lemma ThreeNumbersConvert(ds: string, ms: string, ss: string, dv: real, mv: real, sv: real)
    requires AllDigits(ds) && AllDigits(ms) && AllDigits(ss)
    requires IsWord(ds) && IsWord(ms) && IsWord(ss)
    requires ParseFloat(ds) == Some(dv) && ParseFloat(ms) == Some(mv) && ParseFloat(ss) == Some(sv)
    ensures DmsToDec(ds + ":" + ms + ":" + ss) == Degrees(dv + mv / 60.0)
  {
    var dms := ds + ":" + ms + ":" + ss;
    NormaliseThreeNumbers(ds, ms, ss);
    ThreeNumberFields(ds, ms, ss);
    assert !('S' in dms || 'W' in dms) by {
      NoLetterInDigits(ds);
      NoLetterInDigits(ms);
      NoLetterInDigits(ss);
    }
    ConvertsTo(dms, [ds, ms, ss], dv + mv / 60.0 + 0.0 / 3600.0, false);
  }

  /**
   * Without a hemisphere letter "D:M:S" splits into three tokens, and with three
   * tokens the third is not read: the seconds are silently dropped.
   */
  lemma DegreesMinutesSecondsWithoutHemisphere(d: nat, m: nat, s: nat)
    ensures DmsToDec(NatToString(d) + ":" + NatToString(m) + ":" + NatToString(s))
         == Degrees(d as real + m as real / 60.0)
  {
    DigitsAreWord(d);
    DigitsAreWord(m);
    DigitsAreWord(s);
    ParseFloatNat(d);
    ParseFloatNat(m);
    ParseFloatNat(s);
    ThreeNumbersConvert(NatToString(d), NatToString(m), NatToString(s), d as real, m as real, s as real);
  }

  /**
   * With five or more tokens the seconds token is ignored: the value is that of
   * the first three tokens alone, seconds 0.
   */
  lemma ExtraTokensDropSeconds(tokens: seq<string>)
    requires |tokens| >= 5
    ensures Magnitude(tokens) == Magnitude(tokens[..3])
  {
  }

  /** A plain number with no separator or hemisphere letter is one token and comes back unchanged. */
  lemma PlainNumberUnchanged(n: nat)
    ensures DmsToDec(NatToString(n)) == Unchanged
  {
    var s := NatToString(n);
    NormaliseDigits(s);
    DigitsAreWord(n);
    WordsSingle(s);
  }
}
