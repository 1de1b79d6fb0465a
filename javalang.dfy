/**
 * The small part of the Java platform that the domain classes lean on: 32-bit `int`
 * arithmetic, `String.isBlank`, `String.length`, `String.format("%d")` and `"%0Nd"`,
 * `Integer.parseInt` and `String.split` with a one-character separator.
 */
module JavaLang {
  import opened Wrappers

  /** A Java `int`. */
  newtype int32 = x: int | -0x8000_0000 <= x < 0x8000_0000

  const INT_MIN: int := -0x8000_0000
  const INT_MAX: int := 0x7FFF_FFFF

  /** Two's-complement wrap-around of a mathematical integer into an `int`. */
  function Wrap32(x: int): (r: int32)
    ensures INT_MIN <= x <= INT_MAX ==> r as int == x
    ensures (r as int - x) % 0x1_0000_0000 == 0
  {
    ((x - INT_MIN) % 0x1_0000_0000 + INT_MIN) as int32
  }

  /** Java's `%`: it truncates, so a negative dividend gives a remainder that is not positive. */
  function Rem(x: int, m: int): (r: int)
    requires m > 0
    ensures x >= 0 ==> 0 <= r < m
    ensures x < 0 ==> -m < r <= 0
    ensures r % m == x % m
  {
    if x >= 0 then x % m
    else
      var q, rr := (-x) / m, (-x) % m;
      if rr == 0 then
        ModOf(x, m, -q, 0);
        -rr
      else
        assert x == m * (-q - 1) + (m - rr);
        ModOf(x, m, -q - 1, m - rr);
        ModOf(-rr, m, -1, m - rr);
        -rr
  }

  /** The remainder of `m * k + r` is `r` when `0 <= r < m`. */
  lemma ModOf(z: int, m: int, k: int, r: int)
    requires m > 0 && z == m * k + r && 0 <= r < m
    ensures z % m == r
  {
    var q := z / m;
    assert z == m * q + z % m;
    assert m * (q - k) == m * q - m * k;
    MulBounds(m, q - k);
  }

  /** A non-zero multiple of `m` is at least `m` away from zero. */
  lemma {:induction false} MulBounds(m: int, d: int)
    requires m > 0
    ensures d >= 1 ==> m * d >= m
    ensures d <= -1 ==> m * d <= -m
    decreases if d > 0 then d else -d
  {
    if d > 1 {
      MulBounds(m, d - 1);
      assert m * d == m * (d - 1) + m;
    } else if d < -1 {
      MulBounds(m, d + 1);
      assert m * d == m * (d + 1) - m;
    }
  }

  function Pow10(k: nat): (p: nat)
    ensures p >= 1
  {
    if k == 0 then 1 else 10 * Pow10(k - 1)
  }

  /** `(int) (Math.random() * bound)`, where `random` is the value `Math.random()` drew
      from [0, 1). */
  function RandomBelow(random: real, bound: nat): (r: int)
    requires 0.0 <= random < 1.0 && bound > 0
    ensures 0 <= r < bound
  {
    assert random * bound as real < bound as real by {
      assert (1.0 - random) * bound as real > 0.0;
    }
    (random * bound as real).Floor
  }

  // ---------------------------------------------------------------- characters

  /** `\d` in a Java regular expression (ASCII digits only, by default). */
  predicate IsDigit(c: char) {
    '0' <= c <= '9'
  }

  predicate AllDigits(s: string) {
    forall i :: 0 <= i < |s| ==> IsDigit(s[i])
  }

  function DigitChar(d: nat): (c: char)
    requires d < 10
    ensures IsDigit(c)
  {
    ('0' as int + d) as char
  }

  function DigitValue(c: char): (d: nat)
    requires IsDigit(c)
    ensures d < 10 && DigitChar(d) == c
  {
    c as int - '0' as int
  }

  /** `Character.isWhitespace`: the Unicode space separators except the three no-break
      spaces, the line and paragraph separators, and the controls U+0009..U+000D, U+001C..U+001F. */
  predicate IsWhitespace(c: char) {
    var n := c as int;
    (0x09 <= n <= 0x0D) || (0x1C <= n <= 0x20) || n == 0x1680
    || (0x2000 <= n <= 0x2006) || (0x2008 <= n <= 0x200A)
    || n == 0x2028 || n == 0x2029 || n == 0x205F || n == 0x3000
  }

  /** `String.isBlank`: empty or whitespace only. */
  predicate IsBlank(s: string)
    ensures s == [] ==> IsBlank(s)
    ensures !IsBlank(s) ==> |s| >= 1 && exists i :: 0 <= i < |s| && !IsWhitespace(s[i])
  {
    forall i :: 0 <= i < |s| ==> IsWhitespace(s[i])
  }

  /** `s == null || s.isBlank()`. */
  predicate IsNullOrBlank(s: Option<string>) {
    s.None? || IsBlank(s.value)
  }

  /** `String.length`: the number of UTF-16 code units, so a character outside the
      Basic Multilingual Plane counts twice. */
  function Utf16Length(s: string): (n: nat)
    ensures |s| <= n <= 2 * |s|
  {
    if s == [] then 0 else (if s[0] as int >= 0x1_0000 then 2 else 1) + Utf16Length(s[1..])
  }

  // ---------------------------------------------------------------- formatting

  /** The decimal digits of `n`, most significant first, without leading zeros. */
  function DecimalDigits(n: nat): (s: string)
    ensures |s| >= 1 && AllDigits(s)
  {
    if n < 10 then [DigitChar(n)] else DecimalDigits(n / 10) + [DigitChar(n % 10)]
  }

  /** `String.format("%d", n)`. */
  function FormatInt(n: int): (s: string)
    ensures |s| >= 1
    ensures n >= 0 ==> AllDigits(s)
    ensures n < 0 ==> |s| >= 2 && s[0] == '-' && AllDigits(s[1..])
  {
    if n < 0 then "-" + DecimalDigits(-n) else DecimalDigits(n)
  }

  function Zeros(k: int): (s: string)
    ensures |s| == if k > 0 then k else 0
    ensures forall i :: 0 <= i < |s| ==> s[i] == '0'
  {
    if k <= 0 then [] else Zeros(k - 1) + "0"
  }

  /** `String.format("%0<width>d", n)`: zeros pad the number to `width` characters and
      stand between the sign and the digits. */
  function FormatZeroPadded(n: int, width: nat): (s: string)
    ensures |s| >= width && |s| >= |FormatInt(n)|
    ensures |FormatInt(n)| >= width ==> s == FormatInt(n)
  {
    if n < 0 then "-" + Zeros(width - 1 - |DecimalDigits(-n)|) + DecimalDigits(-n)
    else Zeros(width - |DecimalDigits(n)|) + DecimalDigits(n)
  }

  // ---------------------------------------------------------------- parsing

  /** The number a string of decimal digits denotes. */
  function DigitsValue(s: string): (v: nat)
    requires AllDigits(s)
  {
    if s == [] then 0 else 10 * DigitsValue(s[..|s| - 1]) + DigitValue(s[|s| - 1])
  }

  /** `Integer.parseInt(s)`: an optional sign, then at least one digit, and a value that
      fits in an `int`; `None` stands for the `NumberFormatException`. */
  function ParseInt(s: string): (r: Option<int32>)
    ensures r.Some? ==> |s| >= 1
    ensures s == "-" || s == "+" ==> r.None?
    ensures r.Some? && s[0] != '-' ==> r.value >= 0
    ensures r.Some? && s[0] == '-' ==> r.value <= 0
  {
    if |s| == 0 then None
    else
      var body := if s[0] == '-' || s[0] == '+' then s[1..] else s;
      if |body| == 0 || !AllDigits(body) then None
      else
        var v: int := if s[0] == '-' then -(DigitsValue(body) as int) else DigitsValue(body);
        if INT_MIN <= v <= INT_MAX then Some(v as int32) else None
  }

  // ---------------------------------------------------------------- splitting

  function Count(s: string, c: char): (n: nat)
    ensures n <= |s|
    ensures c !in s <==> n == 0
  {
    if s == [] then 0 else (if s[0] == c then 1 else 0) + Count(s[1..], c)
  }

  /** The pieces of `s` between occurrences of `sep`, empty pieces included. */
  function Pieces(s: string, sep: char): (r: seq<string>)
    ensures |r| == Count(s, sep) + 1
    ensures forall i :: 0 <= i < |r| ==> sep !in r[i]
  {
    if s == [] then [[]]
    else
      var rest := Pieces(s[1..], sep);
      if s[0] == sep then [[]] + rest else [[s[0]] + rest[0]] + rest[1..]
  }

  /** Joins pieces back together with `sep` between them (`String.join`). */
  function Join(ps: seq<string>, sep: char): string
    requires |ps| >= 1
  {
    if |ps| == 1 then ps[0] else ps[0] + [sep] + Join(ps[1..], sep)
  }

  function DropTrailingEmpty(ps: seq<string>): (r: seq<string>)
    ensures |r| <= |ps| && r == ps[..|r|]
    ensures |r| > 0 ==> r[|r| - 1] != []
    ensures forall i :: |r| <= i < |ps| ==> ps[i] == []
  {
    if |ps| > 0 && ps[|ps| - 1] == [] then DropTrailingEmpty(ps[..|ps| - 1]) else ps
  }

  /** `s.split(sep)` for a separator that is one literal character: the pieces between
      separators with trailing empty pieces removed, or `[s]` when `sep` does not occur. */
  function Split(s: string, sep: char): (r: seq<string>)
    ensures |r| <= |Pieces(s, sep)|
    ensures sep !in s ==> r == [s]
  {
    if sep !in s then [s] else DropTrailingEmpty(Pieces(s, sep))
  }

  /** What `split` keeps of the pieces: a prefix of them, none containing the separator,
      ending in a non-empty one; only empty pieces are dropped. */
  lemma SplitPrefix(s: string, sep: char)
    requires sep in s
    ensures var r := Split(s, sep);
            r == Pieces(s, sep)[..|r|]
            && (forall i :: 0 <= i < |r| ==> sep !in r[i])
            && (|r| > 0 ==> r[|r| - 1] != [])
            && (forall i :: |r| <= i < |Pieces(s, sep)| ==> Pieces(s, sep)[i] == [])
  {
  }

  // ---------------------------------------------------------------- lemmas

  /** Splitting loses nothing: the pieces joined by the separator give back the string. */
  lemma {:induction false} JoinPieces(s: string, sep: char)
    ensures Join(Pieces(s, sep), sep) == s
  {
    if s != [] {
      JoinPieces(s[1..], sep);
      var rest := Pieces(s[1..], sep);
      if s[0] != sep {
        if |rest| == 1 {
          assert Pieces(s, sep) == [[s[0]] + rest[0]];
        } else {
          assert Pieces(s, sep)[1..] == rest[1..];
          assert Join(rest, sep) == rest[0] + [sep] + Join(rest[1..], sep);
        }
      } else {
        assert Pieces(s, sep)[1..] == rest;
      }
    }
  }

  lemma {:induction false} PiecesNoSeparator(a: string, sep: char)
    requires sep !in a
    ensures Pieces(a, sep) == [a]
  {
    if a != [] {
      assert sep !in a[1..] by {
        forall i | 0 <= i < |a[1..]| ensures a[1..][i] != sep { assert a[1..][i] == a[i + 1]; }
      }
      PiecesNoSeparator(a[1..], sep);
      assert [a[0]] + a[1..] == a;
    }
  }

  lemma {:induction false} PiecesAfterPiece(a: string, sep: char, b: string)
    requires sep !in a
    ensures Pieces(a + [sep] + b, sep) == [a] + Pieces(b, sep)
  {
    if a == [] {
      assert a + [sep] + b == [sep] + b;
      assert ([sep] + b)[1..] == b;
    } else {
      var s := a + [sep] + b;
      assert s[0] == a[0];
      assert s[1..] == a[1..] + [sep] + b;
      assert sep !in a[1..] by {
        forall i | 0 <= i < |a[1..]| ensures a[1..][i] != sep { assert a[1..][i] == a[i + 1]; }
      }
      assert s[0] != sep;
      PiecesAfterPiece(a[1..], sep, b);
      var rest := Pieces(s[1..], sep);
      assert rest == [a[1..]] + Pieces(b, sep);
      assert Pieces(s, sep) == [[a[0]] + rest[0]] + rest[1..];
      assert rest[1..] == Pieces(b, sep);
      assert [a[0]] + a[1..] == a;
    }
  }

  /** The pieces between separators of a string with no trailing empty piece are its split. */
  lemma SplitOfPieces(s: string, sep: char)
    requires sep in s
    requires Pieces(s, sep)[|Pieces(s, sep)| - 1] != []
    ensures Split(s, sep) == Pieces(s, sep)
  {
  }

  lemma {:induction false} DecimalDigitsValue(n: nat)
    ensures DigitsValue(DecimalDigits(n)) == n
  {
    if n >= 10 {
      DecimalDigitsValue(n / 10);
      var d := DecimalDigits(n);
      assert d[..|d| - 1] == DecimalDigits(n / 10);
    }
  }

  lemma {:induction false} ZerosValue(k: int)
    ensures DigitsValue(Zeros(k)) == 0
    decreases k
  {
    if k > 0 {
      ZerosValue(k - 1);
      var z := Zeros(k);
      assert z[..|z| - 1] == Zeros(k - 1);
    }
  }

  /** Leading zeros do not change the value of a digit string. */
  lemma {:induction false} ZerosPrefixValue(k: int, s: string)
    requires AllDigits(s)
    ensures AllDigits(Zeros(k) + s)
    ensures DigitsValue(Zeros(k) + s) == DigitsValue(s)
    decreases |s|
  {
    var t := Zeros(k) + s;
    assert AllDigits(t) by {
      forall i | 0 <= i < |t| ensures IsDigit(t[i]) {
        if i >= |Zeros(k)| { assert t[i] == s[i - |Zeros(k)|]; }
      }
    }
    if s == [] {
      assert t == Zeros(k);
      ZerosValue(k);
    } else {
      var s' := s[..|s| - 1];
      assert t[..|t| - 1] == Zeros(k) + s';
      ZerosPrefixValue(k, s');
    }
  }

  lemma {:induction false} Pow10Grows(k: nat)
    requires k >= 1
    ensures Pow10(k) >= 10
  {
    if k > 1 { Pow10Grows(k - 1); }
  }

  /** `n` has at most `k` decimal digits exactly when it is below 10^k. */
  lemma {:induction false} DecimalDigitsLength(n: nat, k: nat)
    requires k >= 1
    ensures |DecimalDigits(n)| <= k <==> n < Pow10(k)
    decreases n
  {
    Pow10Grows(k);
    if n >= 10 {
      if k == 1 {
        assert Pow10(1) == 10;
      } else {
        DecimalDigitsLength(n / 10, k - 1);
        assert n / 10 < Pow10(k - 1) <==> n < 10 * Pow10(k - 1);
      }
    }
  }

  /** A string of `k` digits denotes a number below 10^k. */
  lemma {:induction false} DigitsValueBound(s: string)
    requires AllDigits(s)
    ensures DigitsValue(s) < Pow10(|s|)
  {
    if s != [] {
      DigitsValueBound(s[..|s| - 1]);
    }
  }

  /** `Integer.parseInt` reads back what `%0Nd` writes, for every non-negative `int`. */
  lemma ParseZeroPadded(n: int, width: nat)
    requires 0 <= n <= INT_MAX
    ensures ParseInt(FormatZeroPadded(n, width)) == Some(n as int32)
  {
    var d := DecimalDigits(n);
    var s := Zeros(width - |d|) + d;
    assert FormatZeroPadded(n, width) == s;
    ZerosPrefixValue(width - |d|, d);
    DecimalDigitsValue(n);
    ParseDigits(s);
  }

  /** `Integer.parseInt` reads back what `%d` writes, for every `int`. */
  lemma ParseFormatted(n: int32)
    ensures ParseInt(FormatInt(n as int)) == Some(n)
  {
    if n < 0 {
      var d := DecimalDigits(-(n as int));
      assert FormatInt(n as int) == "-" + d;
      DecimalDigitsValue(-(n as int));
      ParseNegative(d);
    } else {
      DecimalDigitsValue(n as int);
      ParseDigits(DecimalDigits(n as int));
    }
  }

  /** `Integer.parseInt` of a minus sign and digits is the negated value, when that fits. */
  lemma ParseNegative(d: string)
    requires AllDigits(d) && |d| >= 1
    ensures ParseInt("-" + d)
            == if -(DigitsValue(d) as int) >= INT_MIN then Some((-(DigitsValue(d) as int)) as int32) else None
  {
    var s := "-" + d;
    assert s[0] == '-' && s[1..] == d;
  }

  /** `Integer.parseInt` of a digit string is its value, when that fits in an `int`. */
  lemma ParseDigits(s: string)
    requires AllDigits(s) && |s| >= 1
    ensures ParseInt(s) == if DigitsValue(s) <= INT_MAX then Some(DigitsValue(s) as int32) else None
  {
    assert IsDigit(s[0]);
  }

  lemma {:induction false} Pow10Monotone(j: nat, k: nat)
    requires j <= k
    ensures Pow10(j) <= Pow10(k)
  {
    if j < k { Pow10Monotone(j, k - 1); }
  }
}
