/**
 * A matcher for the two regular expressions `ISBN(String)` tests its input against,
 * with `Pattern.matches` semantics: the whole string must match.
 */
module Regex {
  import opened JavaLang

  /** One element of those regular expressions. */
  datatype Atom =
    | Digit              // \d
    | Optional(c: char)  // c?
    | Digits(max: nat)   // \d{0,max}
    | OptionalDigitOrX   // [\dX]?

  /** True when the whole of `s` matches the atoms in sequence; alternatives are
      tried both ways, as a backtracking regex engine does. */
  function Matches(p: seq<Atom>, s: string): bool
    decreases |s|, |p|
  {
    if p == [] then s == []
    else match p[0]
      case Digit =>
        |s| > 0 && IsDigit(s[0]) && Matches(p[1..], s[1..])
      case Optional(c) =>
        Matches(p[1..], s) || (|s| > 0 && s[0] == c && Matches(p[1..], s[1..]))
      case Digits(max) =>
        Matches(p[1..], s)
        || (max > 0 && |s| > 0 && IsDigit(s[0]) && Matches([Digits(max - 1)] + p[1..], s[1..]))
      case OptionalDigitOrX =>
        Matches(p[1..], s) || (|s| > 0 && (IsDigit(s[0]) || s[0] == 'X') && Matches(p[1..], s[1..]))
  }

  // The dashed pattern `\d-?\d{0,6}-?\d{0,2}-?[\dX]?`, built up from its last atom.
  const DashedFrom6: seq<Atom> := [OptionalDigitOrX]
  const DashedFrom5: seq<Atom> := [Optional('-')] + DashedFrom6
  const DashedFrom4: seq<Atom> := [Digits(2)] + DashedFrom5
  const DashedFrom3: seq<Atom> := [Optional('-')] + DashedFrom4
  const DashedFrom2: seq<Atom> := [Digits(6)] + DashedFrom3
  const DashedFrom1: seq<Atom> := [Optional('-')] + DashedFrom2

  /** `\d-?\d{0,6}-?\d{0,2}-?[\dX]?` */
  const DashedIsbn: seq<Atom> := [Digit] + DashedFrom1

  /** `\d{0,10}` */
  const PlainIsbn: seq<Atom> := [Digits(10)]

  /** The longest text `p` can match. */
  function MaxLength(p: seq<Atom>): nat {
    if p == [] then 0
    else (match p[0] case Digits(max) => max case _ => 1) + MaxLength(p[1..])
  }

  /** How many atoms of `p` are an optional dash. */
  function OptionalDashes(p: seq<Atom>): nat {
    if p == [] then 0 else (if p[0] == Optional('-') then 1 else 0) + OptionalDashes(p[1..])
  }

  /** The trailing element: nothing, a digit or `X`. */
  predicate IsCheckPart(c: string) {
    c == [] || (|c| == 1 && (IsDigit(c[0]) || c[0] == 'X'))
  }

  /** The parts `g`, `a`, `b`, `c` joined by dashes. */
  function Dashed(g: char, a: string, b: string, c: string): string {
    [g] + "-" + a + "-" + b + "-" + c
  }

  /** One digit, at most six digits, at most two digits, and nothing, a digit or `X`. */
  predicate DashedPartsFit(g: char, a: string, b: string, c: string) {
    IsDigit(g) && AllDigits(a) && |a| <= 6 && AllDigits(b) && |b| <= 2 && IsCheckPart(c)
  }

  // ---------------------------------------------------------------- lemmas

  /** A match consumes the whole text, so no text longer than the pattern allows matches;
      the dashed pattern matches at most 13 characters and `\d{0,10}` at most 10. */
  lemma {:induction false} MatchLength(p: seq<Atom>, s: string)
    requires Matches(p, s)
    ensures |s| <= MaxLength(p)
    decreases |s|, |p|
  {
    if p != [] {
      match p[0]
      case Digit =>
        MatchLength(p[1..], s[1..]);
      case Optional(c) =>
        if Matches(p[1..], s) { MatchLength(p[1..], s); } else { MatchLength(p[1..], s[1..]); }
      case Digits(max) =>
        if Matches(p[1..], s) {
          MatchLength(p[1..], s);
        } else {
          MatchLength([Digits(max - 1)] + p[1..], s[1..]);
          assert ([Digits(max - 1)] + p[1..])[1..] == p[1..];
        }
      case OptionalDigitOrX =>
        if Matches(p[1..], s) { MatchLength(p[1..], s); } else { MatchLength(p[1..], s[1..]); }
    }
  }

  lemma PatternLengths()
    ensures MaxLength(DashedIsbn) == 13 && MaxLength(PlainIsbn) == 10
  {
    assert MaxLength(DashedFrom6) == 1 by { assert DashedFrom6[1..] == []; }
    assert MaxLength(DashedFrom5) == 2 by { assert DashedFrom5[1..] == DashedFrom6; }
    assert MaxLength(DashedFrom4) == 4 by { assert DashedFrom4[1..] == DashedFrom5; }
    assert MaxLength(DashedFrom3) == 5 by { assert DashedFrom3[1..] == DashedFrom4; }
    assert MaxLength(DashedFrom2) == 11 by { assert DashedFrom2[1..] == DashedFrom3; }
    assert MaxLength(DashedFrom1) == 12 by { assert DashedFrom1[1..] == DashedFrom2; }
    assert DashedIsbn[1..] == DashedFrom1;
    assert PlainIsbn[1..] == [];
  }

  /** `\d` then `rest` matches a digit followed by what `rest` matches. */
  lemma DigitStep(rest: seq<Atom>, s: string)
    requires |s| > 0 && IsDigit(s[0]) && Matches(rest, s[1..])
    ensures Matches([Digit] + rest, s)
  {
    assert ([Digit] + rest)[1..] == rest;
  }

  /** An optional atom may match nothing. */
  lemma OptionalSkip(c: char, rest: seq<Atom>, s: string)
    requires Matches(rest, s)
    ensures Matches([Optional(c)] + rest, s)
  {
    assert ([Optional(c)] + rest)[1..] == rest;
  }

  /** An optional atom may match its character. */
  lemma OptionalTake(c: char, rest: seq<Atom>, s: string)
    requires |s| > 0 && s[0] == c && Matches(rest, s[1..])
    ensures Matches([Optional(c)] + rest, s)
  {
    assert ([Optional(c)] + rest)[1..] == rest;
  }

  /** A run of at most `max` digits is absorbed by `\d{0,max}`. */
  lemma {:induction false} DigitsAbsorb(max: nat, rest: seq<Atom>, d: string, t: string)
    requires AllDigits(d) && |d| <= max
    requires Matches(rest, t)
    ensures Matches([Digits(max)] + rest, d + t)
    decreases |d|
  {
    var p := [Digits(max)] + rest;
    assert p[0] == Digits(max) && p[1..] == rest;
    if d == [] {
      assert d + t == t;
    } else {
      var s := d + t;
      assert s[0] == d[0] && IsDigit(s[0]);
      assert s[1..] == d[1..] + t;
      DigitsAbsorb(max - 1, rest, d[1..], t);
      assert Matches([Digits(max - 1)] + p[1..], s[1..]);
    }
  }

  /** What `\d{0,max}` followed by `rest` matched: a run of at most `max` digits, then `rest`. */
  lemma {:induction false} DigitsSplit(max: nat, rest: seq<Atom>, t: string) returns (k: nat)
    requires Matches([Digits(max)] + rest, t)
    ensures k <= max && k <= |t|
    ensures AllDigits(t[..k]) && Matches(rest, t[k..])
    decreases |t|
  {
    var p := [Digits(max)] + rest;
    assert p[0] == Digits(max) && p[1..] == rest;
    if Matches(rest, t) {
      k := 0;
    } else {
      var k' := DigitsSplit(max - 1, rest, t[1..]);
      k := k' + 1;
      assert t[..k] == [t[0]] + t[1..][..k'];
      assert t[k..] == t[1..][k'..];
    }
  }

  /** A string matching `p` holds no more dashes than `p` has optional dashes. */
  lemma {:induction false} DashBound(p: seq<Atom>, s: string)
    requires Matches(p, s)
    ensures Count(s, '-') <= OptionalDashes(p)
    decreases |s|, |p|
  {
    if p != [] {
      match p[0]
      case Digit =>
        DashBound(p[1..], s[1..]);
      case Optional(c) =>
        if Matches(p[1..], s) {
          DashBound(p[1..], s);
        } else {
          DashBound(p[1..], s[1..]);
        }
      case Digits(max) =>
        if Matches(p[1..], s) {
          DashBound(p[1..], s);
        } else {
          var q := [Digits(max - 1)] + p[1..];
          assert q[0] == Digits(max - 1) && q[1..] == p[1..];
          DashBound(q, s[1..]);
        }
      case OptionalDigitOrX =>
        if Matches(p[1..], s) {
          DashBound(p[1..], s);
        } else {
          DashBound(p[1..], s[1..]);
        }
    }
  }

  lemma DashCounts()
    ensures OptionalDashes(DashedFrom6) == 0
    ensures OptionalDashes(DashedFrom4) == 1
    ensures OptionalDashes(DashedFrom2) == 2
  {
    assert DashedFrom6[1..] == [];
    assert DashedFrom5[1..] == DashedFrom6;
    assert DashedFrom4[1..] == DashedFrom5;
    assert DashedFrom3[1..] == DashedFrom4;
    assert DashedFrom2[1..] == DashedFrom3;
  }

  /** `\d{0,10}` matches exactly the strings of at most ten digits. */
  lemma PlainIsbnMatches(s: string)
    ensures Matches(PlainIsbn, s) <==> AllDigits(s) && |s| <= 10
  {
    assert PlainIsbn == [Digits(10)] + [];
    if AllDigits(s) && |s| <= 10 {
      assert s + [] == s;
      DigitsAbsorb(10, [], s, []);
    }
    if Matches(PlainIsbn, s) {
      var k := DigitsSplit(10, [], s);
      assert s[..k] == s;
    }
  }

  lemma CheckPartMatches(c: string)
    ensures Matches(DashedFrom6, c) <==> IsCheckPart(c)
  {
    assert DashedFrom6[0] == OptionalDigitOrX && DashedFrom6[1..] == [];
    if c != [] { assert Matches([], c[1..]) <==> |c| == 1; }
  }

  lemma CountNoDashes(d: string)
    requires AllDigits(d) || IsCheckPart(d)
    ensures Count(d, '-') == 0
  {
    assert '-' !in d;
  }

  lemma {:induction false} CountConcat(a: string, b: string)
    ensures Count(a + b, '-') == Count(a, '-') + Count(b, '-')
  {
    if a != [] {
      assert (a + b)[0] == a[0];
      assert (a + b)[1..] == a[1..] + b;
      CountConcat(a[1..], b);
    } else {
      assert a + b == b;
    }
  }

  lemma CountDashed(g: char, a: string, b: string, c: string)
    requires DashedPartsFit(g, a, b, c)
    ensures Count(Dashed(g, a, b, c), '-') == 3
  {
    CountNoDashes(a); CountNoDashes(b); CountNoDashes(c); CountNoDashes([g]);
    assert Count("-", '-') == 1;
    CountConcat([g], "-");
    CountConcat([g] + "-", a);
    CountConcat([g] + "-" + a, "-");
    CountConcat([g] + "-" + a + "-", b);
    CountConcat([g] + "-" + a + "-" + b, "-");
    CountConcat([g] + "-" + a + "-" + b + "-", c);
  }

  /** Dashed parts that fit match the dashed pattern. */
  lemma DashedMatches(g: char, a: string, b: string, c: string)
    requires DashedPartsFit(g, a, b, c)
    ensures Matches(DashedIsbn, Dashed(g, a, b, c))
  {
    CheckPartMatches(c);
    var t5 := "-" + c;
    OptionalTake('-', DashedFrom6, t5);
    var t4 := b + t5;
    DigitsAbsorb(2, DashedFrom5, b, t5);
    var t3 := "-" + t4;
    OptionalTake('-', DashedFrom4, t3);
    var t2 := a + t3;
    DigitsAbsorb(6, DashedFrom3, a, t3);
    var t1 := "-" + t2;
    OptionalTake('-', DashedFrom2, t1);
    var s := [g] + t1;
    DigitStep(DashedFrom1, s);
    assert s == Dashed(g, a, b, c);
  }


  /** Every string of one to ten digits matches the dashed pattern too, with no dash. */
  lemma DigitsMatchDashed(s: string)
    requires AllDigits(s) && 1 <= |s| <= 10
    ensures Matches(DashedIsbn, s)
  {
    DigitsSlice(s, 1, |s|);
    assert s[1..|s|] == s[1..];
    UndashedAfterGroup(s[1..]);
    OptionalSkip('-', DashedFrom2, s[1..]);
    DigitStep(DashedFrom1, s);
  }

  /** Up to nine digits match the dashed pattern after its group digit, with no dash. */
  lemma UndashedAfterGroup(t: string)
    requires AllDigits(t) && |t| <= 9
    ensures Matches(DashedFrom2, t)
  {
    var i := if |t| < 6 then |t| else 6;
    var j := i + (if |t| - i < 2 then |t| - i else 2);
    var a, b, c := t[..i], t[i..j], t[j..];
    DigitsSlice(t, 0, i);
    assert t[0..i] == a;
    DigitsSlice(t, i, j);
    assert IsCheckPart(c) by { if c != [] { assert c[0] == t[j]; } }
    UndashedTail(b, c);
    DigitsAbsorb(6, DashedFrom3, a, b + c);
    assert t == a + (b + c);
  }



  lemma DigitsSlice(s: string, i: nat, j: nat)
    requires AllDigits(s) && i <= j <= |s|
    ensures AllDigits(s[i..j])
  {
    forall k | 0 <= k < j - i ensures IsDigit(s[i..j][k]) {
      assert s[i..j][k] == s[i + k];
    }
  }

  /** The part of the dashed pattern after the author part matches a book part and a
      check part with no dash between them. */
  lemma UndashedTail(b: string, c: string)
    requires AllDigits(b) && |b| <= 2 && IsCheckPart(c)
    ensures Matches(DashedFrom3, b + c)
  {
    CheckPartMatches(c);
    OptionalSkip('-', DashedFrom6, c);
    DigitsAbsorb(2, DashedFrom5, b, c);
    OptionalSkip('-', DashedFrom4, b + c);
  }



  /** An optional dash that a string needs for its dashes to fit is taken. */
  lemma DashTaken(rest: seq<Atom>, t: string)
    requires Matches([Optional('-')] + rest, t)
    requires Count(t, '-') > OptionalDashes(rest)
    ensures |t| > 0 && t[0] == '-' && Matches(rest, t[1..])
    ensures Count(t[1..], '-') == Count(t, '-') - 1
  {
    var p := [Optional('-')] + rest;
    assert p[0] == Optional('-') && p[1..] == rest;
    if Matches(rest, t) {
      DashBound(rest, t);
    }
  }

  /** `\d{0,max}` then `rest` matched a digit run `d` then `u`, with every dash in `u`. */
  lemma DigitRun(max: nat, rest: seq<Atom>, t: string) returns (d: string, u: string)
    requires Matches([Digits(max)] + rest, t)
    ensures t == d + u && AllDigits(d) && |d| <= max && Matches(rest, u)
    ensures Count(u, '-') == Count(t, '-')
  {
    var k := DigitsSplit(max, rest, t);
    d, u := t[..k], t[k..];
    assert t == d + u;
    CountConcat(d, u);
    CountNoDashes(d);
  }

  /** The group digit leads a string that matches the dashed pattern. */
  lemma GroupTaken(s: string)
    requires Matches(DashedIsbn, s)
    ensures |s| > 0 && IsDigit(s[0]) && Matches(DashedFrom1, s[1..])
    ensures Count(s[1..], '-') == Count(s, '-')
  {
    assert DashedIsbn[0] == Digit && DashedIsbn[1..] == DashedFrom1;
  }

  /** After the group digit: a dash, then the author part. */
  lemma AuthorTaken(t1: string) returns (a: string, t3: string)
    requires Matches(DashedFrom1, t1) && Count(t1, '-') >= 3
    ensures t1 == "-" + a + t3 && AllDigits(a) && |a| <= 6 && Matches(DashedFrom3, t3)
    ensures Count(t3, '-') == Count(t1, '-') - 1
  {
    DashCounts();
    DashTaken(DashedFrom2, t1);
    var t2 := t1[1..];
    assert t1 == "-" + t2;
    a, t3 := DigitRun(6, DashedFrom3, t2);
  }

  /** After the author part: a dash, the book part, a dash and the check part. */
  lemma BookTaken(t3: string) returns (b: string, c: string)
    requires Matches(DashedFrom3, t3) && Count(t3, '-') >= 2
    ensures t3 == "-" + b + "-" + c && AllDigits(b) && |b| <= 2 && IsCheckPart(c)
  {
    DashCounts();
    DashTaken(DashedFrom4, t3);
    var t4 := t3[1..];
    assert t3 == "-" + t4;
    var t5;
    b, t5 := DigitRun(2, DashedFrom5, t4);
    DashTaken(DashedFrom6, t5);
    c := t5[1..];
    assert t5 == "-" + c;
    CheckPartMatches(c);
    assert t3 == "-" + b + "-" + c;
  }

  /** Reads a string with three dashes that matches the dashed pattern back into its parts. */
  lemma DashedParts(s: string) returns (g: char, a: string, b: string, c: string)
    requires Matches(DashedIsbn, s) && Count(s, '-') >= 3
    ensures s == Dashed(g, a, b, c) && DashedPartsFit(g, a, b, c)
  {
    GroupTaken(s);
    g := s[0];
    var t1 := s[1..];
    var t3;
    a, t3 := AuthorTaken(t1);
    b, c := BookTaken(t3);
    Reassemble(s, g, t1, a, t3, b, c);
  }

  lemma Reassemble(s: string, g: char, t1: string, a: string, t3: string, b: string, c: string)
    requires |s| > 0 && s[0] == g && t1 == s[1..] && t1 == "-" + a + t3 && t3 == "-" + b + "-" + c
    ensures s == Dashed(g, a, b, c)
  {
    assert s == [g] + t1;
  }
  /** A string matches the dashed pattern with all three dashes present exactly when it
      is dashed parts that fit. */
  lemma DashedShape(s: string)
    ensures (Matches(DashedIsbn, s) && Count(s, '-') >= 3)
        <==> exists g, a, b, c :: s == Dashed(g, a, b, c) && DashedPartsFit(g, a, b, c)
  {
    if Matches(DashedIsbn, s) && Count(s, '-') >= 3 {
      var g, a, b, c := DashedParts(s);
    }
    if exists g, a, b, c :: s == Dashed(g, a, b, c) && DashedPartsFit(g, a, b, c) {
      var g, a, b, c :| s == Dashed(g, a, b, c) && DashedPartsFit(g, a, b, c);
      DashedMatches(g, a, b, c);
      CountDashed(g, a, b, c);
    }
  }

  /** The dashed pattern with its last dash and check part left out still matches. */
  lemma TwoDashesMatch(g: char, a: string, b: string)
    requires IsDigit(g) && AllDigits(a) && |a| <= 6 && AllDigits(b) && |b| <= 2
    ensures Matches(DashedIsbn, [g] + "-" + a + "-" + b)
  {
    CheckPartMatches([]);
    OptionalSkip('-', DashedFrom6, []);
    DigitsAbsorb(2, DashedFrom5, b, []);
    assert b + [] == b;
    var t3 := "-" + b;
    OptionalTake('-', DashedFrom4, t3);
    var t2 := a + t3;
    DigitsAbsorb(6, DashedFrom3, a, t3);
    var t1 := "-" + t2;
    OptionalTake('-', DashedFrom2, t1);
    var s := [g] + t1;
    DigitStep(DashedFrom1, s);
    ThreeReassemble(s, g, t1, t2, a, t3, b);
  }


  lemma ThreeReassemble(s: string, g: char, t1: string, t2: string, a: string, t3: string, b: string)
    requires s == [g] + t1 && t1 == "-" + t2 && t2 == a + t3 && t3 == "-" + b
    ensures s == [g] + "-" + a + "-" + b
  {
  }
}
