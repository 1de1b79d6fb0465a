/**
 * The book identifier `G-AAAAAA-BB-C`: a linguistic group, an author id, a book id and a
 * checksum that is the plain (unweighted) sum of the three numbers modulo 11, written `X`
 * when it is 10. Construction from numbers checks the ranges; construction from text runs
 * a regular-expression test, `split("-")` and `Integer.parseInt`, and checks only the
 * checksum.
 */
module IsbnCodec {
  import opened Wrappers
  import opened JavaLang
  import opened Regex
  import opened Exceptions

  /** The four `final int` fields of an ISBN object. Equality is structural. */
  datatype Isbn = Isbn(linguisticGroup: int32, idAuthor: int32, idBook: int32, checkSum: int32)

  predicate GroupInRange(g: int) { 0 <= g <= 9 }
  predicate AuthorIdInRange(a: int) { 0 <= a <= 999999 }
  predicate BookIdInRange(b: int) { 0 <= b <= 99 }

  /** `computeCheckSum`: `(g + a + b) % 11` in Java `int` arithmetic, so the sum wraps around
      and a negative sum leaves a negative remainder. */
  function ComputeCheckSum(g: int32, a: int32, b: int32): (r: int32)
    ensures -10 <= r <= 10
    ensures r as int % 11 == IntSum(g, a, b) as int % 11
    ensures IntSum(g, a, b) >= 0 ==> r >= 0
    ensures IntSum(g, a, b) < 0 ==> r <= 0
    ensures 0 <= g && 0 <= a && 0 <= b && g as int + a as int + b as int <= INT_MAX
            ==> 0 <= r && r as int == (g as int + a as int + b as int) % 11
  {
    Rem(IntSum(g, a, b) as int, 11) as int32
  }

  /** `g + a + b` as Java evaluates it: left to right, each addition wrapping around. */
  function IntSum(g: int32, a: int32, b: int32): (s: int32)
    ensures INT_MIN <= g as int + a as int + b as int <= INT_MAX
            && INT_MIN <= g as int + a as int <= INT_MAX
            ==> s as int == g as int + a as int + b as int
  {
    Wrap32(Wrap32(g as int + a as int) as int + b as int)
  }

  /** `getCheckSum`: the checksum recomputed from the stored numbers. */
  function CheckSumOf(i: Isbn): (c: int32)
    ensures -10 <= c <= 10
    ensures GroupInRange(i.linguisticGroup as int) && AuthorIdInRange(i.idAuthor as int)
            && BookIdInRange(i.idBook as int)
            ==> 0 <= c && c as int == (i.linguisticGroup as int + i.idAuthor as int + i.idBook as int) % 11
  {
    ComputeCheckSum(i.linguisticGroup, i.idAuthor, i.idBook)
  }

  /** What every ISBN built from numbers satisfies: each number in range, and the stored
      checksum is the computed one. */
  predicate Valid(i: Isbn) {
    GroupInRange(i.linguisticGroup as int) && AuthorIdInRange(i.idAuthor as int)
    && BookIdInRange(i.idBook as int) && i.checkSum == CheckSumOf(i)
  }

  /** `ISBN(int, int, int, int)`. */
  function NewChecked(g: int32, a: int32, b: int32, c: int32): (r: Result<Isbn, Exception>)
    ensures r.Ok? <==> GroupInRange(g as int) && AuthorIdInRange(a as int) && BookIdInRange(b as int)
                       && c == ComputeCheckSum(g, a, b)
    ensures r.Ok? ==> r.value == Isbn(g, a, b, c) && Valid(r.value)
  {
    if g < 0 || g > 9 then Err(IllegalIsbnLinguisticIdException)
    else if a < 0 || a > 999999 then Err(IllegalIsbnFormatException)
    else if b < 0 || b > 99 then Err(IllegalIsbnBookIdException)
    else
      var computed := ComputeCheckSum(g, a, b);
      if c < 0 || c > 10 || c != computed then Err(IllegalIsbnChecksumException(c as int, computed as int))
      else Ok(Isbn(g, a, b, c))
  }

  /** `ISBN(int, int, int)`: the checksum is computed, so only the ranges can fail. */
  function NewComputed(g: int32, a: int32, b: int32): (r: Result<Isbn, Exception>)
    ensures r.Ok? <==> GroupInRange(g as int) && AuthorIdInRange(a as int) && BookIdInRange(b as int)
    ensures r.Ok? ==> r.value.linguisticGroup == g && r.value.idAuthor == a && r.value.idBook == b
                      && Valid(r.value)
    ensures r.Err? ==> !r.error.IllegalIsbnChecksumException?
  {
    NewChecked(g, a, b, ComputeCheckSum(g, a, b))
  }

  /** `getRandomIdBook`: a book number from 0 to 99; `random` is what `Math.random()` drew. */
  function RandomIdBook(random: real): (id: int32)
    requires 0.0 <= random < 1.0
    ensures BookIdInRange(id as int)
  {
    RandomBelow(random, 100) as int32
  }

  /** `createNewISBN(g, a)`: a fresh book number and the checksum computed from it. */
  function CreateNew(g: int32, a: int32, random: real): (r: Result<Isbn, Exception>)
    requires 0.0 <= random < 1.0
    ensures r.Ok? <==> GroupInRange(g as int) && AuthorIdInRange(a as int)
    ensures r.Ok? ==> r.value.linguisticGroup == g && r.value.idAuthor == a
                      && BookIdInRange(r.value.idBook as int) && Valid(r.value)
    ensures r.Err? ==> r.error == if GroupInRange(g as int) then IllegalIsbnFormatException
                                  else IllegalIsbnLinguisticIdException
  {
    NewComputed(g, a, RandomIdBook(random))
  }

  /** `toString`: `String.format("%d-%06d-%02d-%s", ...)`, the checksum 10 written `X`.
      For a valid ISBN that is one digit, six digits, two digits and the check character,
      joined by dashes. */
  function ToString(i: Isbn): (s: string)
    ensures Valid(i) ==> s == Canonical(i, CheckChar(i.checkSum as int)) && |s| == 13
  {
    var s := FormatInt(i.linguisticGroup as int) + "-" + FormatZeroPadded(i.idAuthor as int, 6) + "-"
             + FormatZeroPadded(i.idBook as int, 2) + "-"
             + (if i.checkSum == 10 then "X" else FormatInt(i.checkSum as int));
    if Valid(i) then
      assert Pow10(6) == 1000000 && Pow10(2) == 100;
      ZeroPaddedDigits(i.idAuthor as int, 6);
      ZeroPaddedDigits(i.idBook as int, 2);
      FormatDigit(i.linguisticGroup as int);
      if i.checkSum != 10 then FormatDigit(i.checkSum as int); s else s
    else s
  }

  /** The character that stands for a checksum. */
  function CheckChar(c: int): (ch: char)
    requires 0 <= c <= 10
    ensures IsDigit(ch) || ch == 'X'
    ensures ch == 'X' <==> c == 10
  {
    if c == 10 then 'X' else DigitChar(c)
  }

  /** The checksum a trailing character stands for. */
  function CheckValue(ch: char): (c: int)
    requires IsDigit(ch) || ch == 'X'
    ensures 0 <= c <= 10 && CheckChar(c) == ch
  {
    if ch == 'X' then 10 else DigitValue(ch)
  }

  // ---------------------------------------------------------------- parsing

  /** `values[k]`, or the exception an index past the end throws. */
  function At(values: seq<string>, k: nat): (r: Result<string, Exception>)
    ensures r.Ok? <==> k < |values|
    ensures r.Ok? ==> r.value == values[k]
  {
    if k < |values| then Ok(values[k]) else Err(ArrayIndexOutOfBoundsException)
  }

  /** `Integer.parseInt`, throwing `NumberFormatException`. */
  function ParseIntOrThrow(s: string): (r: Result<int32, Exception>)
    ensures r.Ok? <==> ParseInt(s).Some?
    ensures r.Ok? ==> r.value == ParseInt(s).value
    ensures r.Err? ==> r.error == NumberFormatException
  {
    match ParseInt(s)
    case Some(v) => Ok(v)
    case None => Err(NumberFormatException)
  }

  /** The array of parts the constructor reads: `split("-")` when the dashed pattern
      matches, else four substrings when `\d{0,10}` matches, else a format error. Every
      non-empty text the second pattern matches has matched the first, so the parts always
      come from `split`, and the second branch only ever sees the empty text. */
  function Values(s: string): (r: Result<seq<string>, Exception>)
    ensures r.Ok? <==> Matches(DashedIsbn, s)
    ensures r.Ok? ==> r.value == Split(s, '-')
    ensures r.Err? ==> r.error == if s == [] then StringIndexOutOfBoundsException
                                  else IllegalIsbnFormatException
  {
    if Matches(DashedIsbn, s) then Ok(Split(s, '-'))
    else if Matches(PlainIsbn, s) then
      if |s| < 10 then
        PlainOnlyEmpty(s);
        Err(StringIndexOutOfBoundsException)
      else
        var parts := [s[0..1], s[1..7], s[7..9], s[9..10]];
        PlainOnlyEmpty(s);
        assert false;
        Ok(parts)
    else
      assert Matches(PlainIsbn, []);
      Err(IllegalIsbnFormatException)
  }

  /** Only the empty text matches `\d{0,10}` without matching the dashed pattern. */
  lemma PlainOnlyEmpty(s: string)
    requires Matches(PlainIsbn, s) && !Matches(DashedIsbn, s)
    ensures s == []
  {
    PlainIsbnMatches(s);
    if |s| >= 1 {
      DigitsMatchDashed(s);
      assert false;
    }
  }

  /** `ISBN(String)`: pick the parts, then read them. */
  function Parse(s: string): (r: Result<Isbn, Exception>)
    ensures r.Ok? ==> Matches(DashedIsbn, s)
    ensures r.Ok? ==> r.value.checkSum == CheckSumOf(r.value)
    ensures r.Err? && r.error.IllegalIsbnChecksumException? ==> r.error.given != r.error.computed
  {
    var values :- Values(s);
    FromParts(values)
  }

  /** The four parts read in source order (index, then `parseInt`, part by part); only the
      checksum is checked. */
  function FromParts(values: seq<string>): (r: Result<Isbn, Exception>)
    ensures r.Ok? ==> r.value.checkSum == CheckSumOf(r.value)
    ensures r.Err? && r.error.IllegalIsbnChecksumException? ==> r.error.given != r.error.computed
  {
    var v0 :- At(values, 0);
    var g :- ParseIntOrThrow(v0);
    var v1 :- At(values, 1);
    var a :- ParseIntOrThrow(v1);
    var v2 :- At(values, 2);
    var b :- ParseIntOrThrow(v2);
    var v3 :- At(values, 3);
    var check :- if v3 == "X" then Ok(10) else ParseIntOrThrow(v3);
    var computed := ComputeCheckSum(g, a, b);
    if check != computed then Err(IllegalIsbnChecksumException(check as int, computed as int))
    else Ok(Isbn(g, a, b, check))
  }

  // ---------------------------------------------------------------- lemmas

  /** The test vector: 2 + 123456 + 1 = 123459 = 11 * 11223 + 6. */
  lemma CheckSumExample()
    ensures ComputeCheckSum(2, 123456, 1) == 6
  {
  }

  /** The test vector of the text form: the author id padded to six digits, the book id
      to two. */
  lemma ToStringExample()
    ensures ToString(Isbn(2, 123456, 1, 6)) == "2-123456-01-6"
  {
    var i := Isbn(2, 123456, 1, 6);
    CheckSumExample();
    assert Valid(i);
    AuthorTextExample();
    assert FormatZeroPadded(1, 2) == "01" by { assert Zeros(1) == "0"; }
    assert Canonical(i, CheckChar(6)) == ['2'] + "-" + "123456" + "-" + "01" + "-" + ['6'];
  }

  lemma AuthorTextExample()
    ensures FormatZeroPadded(123456, 6) == "123456"
  {
    assert DecimalDigits(12) == "12";
    assert DecimalDigits(123) == "123";
    assert DecimalDigits(1234) == "1234";
    assert DecimalDigits(12345) == "12345";
    assert DecimalDigits(123456) == "123456";
  }

  /** Java's `%` keeps the sign of the sum: a negative part or a sum that wraps around can
      give a negative checksum, though a negative part can also give a positive one. */
  lemma NegativeCheckSum()
    ensures ComputeCheckSum(-1, 0, 0) == -1
    ensures ComputeCheckSum(0x7FFF_FFFF, 1, 0) == -2
    ensures ComputeCheckSum(-1, 5, 0) == 4
  {
  }

  /** The four-number constructor reports the first check that fails, in source order. */
  lemma NewErrorOrder(g: int32, a: int32, b: int32, c: int32)
    ensures !GroupInRange(g as int) ==> NewChecked(g, a, b, c) == Err(IllegalIsbnLinguisticIdException)
    ensures GroupInRange(g as int) && !AuthorIdInRange(a as int)
            ==> NewChecked(g, a, b, c) == Err(IllegalIsbnFormatException)
    ensures GroupInRange(g as int) && AuthorIdInRange(a as int) && !BookIdInRange(b as int)
            ==> NewChecked(g, a, b, c) == Err(IllegalIsbnBookIdException)
    ensures GroupInRange(g as int) && AuthorIdInRange(a as int) && BookIdInRange(b as int)
            && c != ComputeCheckSum(g, a, b)
            ==> NewChecked(g, a, b, c) == Err(IllegalIsbnChecksumException(c as int, ComputeCheckSum(g, a, b) as int))
  {
  }

  lemma FormatDigit(d: int)
    requires 0 <= d <= 9
    ensures FormatInt(d) == [DigitChar(d)]
  {
  }

  /** `%0wd` of a number below 10^w is exactly `w` digits. */
  lemma ZeroPaddedDigits(n: int, w: nat)
    requires 1 <= w && 0 <= n < Pow10(w)
    ensures |FormatZeroPadded(n, w)| == w && AllDigits(FormatZeroPadded(n, w))
  {
    DecimalDigitsLength(n, w);
    var z := Zeros(w - |DecimalDigits(n)|);
    var s := FormatZeroPadded(n, w);
    assert s == z + DecimalDigits(n);
    forall i | 0 <= i < |s| ensures IsDigit(s[i]) {
      if i >= |z| { assert s[i] == DecimalDigits(n)[i - |z|]; }
    }
  }

  /** The text of a valid ISBN, part by part. */
  function Canonical(i: Isbn, ch: char): string {
    Dashed(DigitChar(if GroupInRange(i.linguisticGroup as int) then i.linguisticGroup as int else 0),
           FormatZeroPadded(i.idAuthor as int, 6), FormatZeroPadded(i.idBook as int, 2), [ch])
  }

  /** `toString` of a valid ISBN is `G-AAAAAA-BB-C`: 13 characters, the author id padded
      to six digits, the book id to two, and the checksum a digit or `X` for 10. */
  lemma ToStringShape(i: Isbn)
    requires Valid(i)
    ensures ToString(i) == Canonical(i, CheckChar(i.checkSum as int))
    ensures |ToString(i)| == 13 && ToString(i)[12] == CheckChar(i.checkSum as int)
    ensures ToString(i)[1] == '-'
    ensures DashedPartsFit(ToString(i)[0], ToString(i)[2..8], ToString(i)[9..11], ToString(i)[12..])
  {
    assert Pow10(6) == 1000000 && Pow10(2) == 100;
    ZeroPaddedDigits(i.idAuthor as int, 6);
    ZeroPaddedDigits(i.idBook as int, 2);
    DashedSlices(DigitChar(i.linguisticGroup as int), FormatZeroPadded(i.idAuthor as int, 6),
                 FormatZeroPadded(i.idBook as int, 2), CheckChar(i.checkSum as int));
  }

  /** Where the parts of a dashed text with six- and two-character middle parts sit. */
  lemma DashedSlices(g: char, a: string, b: string, ch: char)
    requires |a| == 6 && |b| == 2
    ensures |Dashed(g, a, b, [ch])| == 13
    ensures Dashed(g, a, b, [ch])[0] == g && Dashed(g, a, b, [ch])[1] == '-'
    ensures Dashed(g, a, b, [ch])[2..8] == a && Dashed(g, a, b, [ch])[9..11] == b
    ensures Dashed(g, a, b, [ch])[12..] == [ch]
  {
    var s := Dashed(g, a, b, [ch]);
    assert s == [g] + "-" + a + "-" + b + "-" + [ch];
    assert s[2..8] == a;
    assert s[9..11] == b;
  }

  /** The text of a valid ISBN is never blank: its second character is a dash. */
  lemma CanonicalNotBlank(i: Isbn)
    requires Valid(i)
    ensures !IsBlank(ToString(i))
  {
    ToStringShape(i);
    assert !IsWhitespace(ToString(i)[1]);
  }

  lemma PiecesOfDashed(g: char, a: string, b: string, c: string)
    requires DashedPartsFit(g, a, b, c)
    ensures Pieces(Dashed(g, a, b, c), '-') == [[g], a, b, c]
  {
    CountNoDashes(a); CountNoDashes(b); CountNoDashes(c); CountNoDashes([g]);
    PiecesOfFour([g], a, b, c);
  }

  lemma PiecesOfFour(p0: string, p1: string, p2: string, p3: string)
    requires '-' !in p0 && '-' !in p1 && '-' !in p2 && '-' !in p3
    ensures Pieces(p0 + "-" + p1 + "-" + p2 + "-" + p3, '-') == [p0, p1, p2, p3]
  {
    var t := p2 + "-" + p3;
    PiecesNoSeparator(p3, '-');
    PiecesAfterPiece(p2, '-', p3);
    assert Pieces(t, '-') == [p2, p3];
    var u := p1 + "-" + t;
    PiecesAfterPiece(p1, '-', t);
    assert Pieces(u, '-') == [p1, p2, p3];
    var w := p0 + "-" + u;
    PiecesAfterPiece(p0, '-', u);
    assert Pieces(w, '-') == [p0, p1, p2, p3];
    Associate(p0, p1, p2, p3);
  }

  lemma Associate(p0: string, p1: string, p2: string, p3: string)
    ensures p0 + "-" + (p1 + "-" + (p2 + "-" + p3)) == p0 + "-" + p1 + "-" + p2 + "-" + p3
  {
  }

  /** Dashed parts that fit are read back part by part. */
  lemma ValuesOfDashed(g: char, a: string, b: string, c: string)
    requires DashedPartsFit(g, a, b, c) && c != []
    ensures Values(Dashed(g, a, b, c)) == Ok([[g], a, b, c])
  {
    DashedMatches(g, a, b, c);
    PiecesOfDashed(g, a, b, c);
    CountDashed(g, a, b, c);
    SplitOfPieces(Dashed(g, a, b, c), '-');
  }

  /** Four parts whose first three parse and whose last is one digit or `X`. */
  lemma FromFourParts(values: seq<string>, x: int32, y: int32, z: int32, ch: char)
    requires |values| == 4 && values[3] == [ch] && (IsDigit(ch) || ch == 'X')
    requires ParseInt(values[0]) == Some(x) && ParseInt(values[1]) == Some(y)
    requires ParseInt(values[2]) == Some(z)
    ensures FromParts(values)
            == if CheckValue(ch) == ComputeCheckSum(x, y, z) as int then Ok(Isbn(x, y, z, CheckValue(ch) as int32))
               else Err(IllegalIsbnChecksumException(CheckValue(ch), ComputeCheckSum(x, y, z) as int))
  {
    if ch != 'X' {
      assert [ch] != "X";
      ParseDigits([ch]);
      assert DigitsValue([ch]) == DigitValue(ch) by { assert [ch][..0] == []; }
    }
  }

  /** The text of a valid ISBN with any trailing character: accepted exactly when that
      character stands for the checksum, else a checksum error naming both values. */
  lemma ParseWithCheckChar(i: Isbn, ch: char)
    requires Valid(i) && (IsDigit(ch) || ch == 'X')
    ensures Parse(Canonical(i, ch))
            == if CheckValue(ch) == i.checkSum as int then Ok(i)
               else Err(IllegalIsbnChecksumException(CheckValue(ch), i.checkSum as int))
  {
    assert Pow10(6) == 1000000 && Pow10(2) == 100;
    var g := DigitChar(i.linguisticGroup as int);
    var a := FormatZeroPadded(i.idAuthor as int, 6);
    var b := FormatZeroPadded(i.idBook as int, 2);
    ZeroPaddedDigits(i.idAuthor as int, 6);
    ZeroPaddedDigits(i.idBook as int, 2);
    ValuesOfDashed(g, a, b, [ch]);
    FormatDigit(i.linguisticGroup as int);
    ParseFormatted(i.linguisticGroup);
    ParseZeroPadded(i.idAuthor as int, 6);
    ParseZeroPadded(i.idBook as int, 2);
    FromFourParts([[g], a, b, [ch]], i.linguisticGroup, i.idAuthor, i.idBook, ch);
  }

  /** Round trip: the text of a valid ISBN parses back to the same four numbers. */
  lemma RoundTrip(i: Isbn)
    requires Valid(i)
    ensures Parse(ToString(i)) == Ok(i)
  {
    ToStringShape(i);
    ParseWithCheckChar(i, CheckChar(i.checkSum as int));
  }

  /** Flipping the check character of a valid ISBN's text always gives a checksum error. */
  lemma FlippedCheckCharFails(i: Isbn, ch: char)
    requires Valid(i) && (IsDigit(ch) || ch == 'X') && ch != CheckChar(i.checkSum as int)
    ensures Parse(ToString(i)[..12] + [ch])
            == Err(IllegalIsbnChecksumException(CheckValue(ch), i.checkSum as int))
  {
    ToStringShape(i);
    var s := ToString(i);
    assert s[..12] + [ch] == Canonical(i, ch);
    ParseWithCheckChar(i, ch);
  }

  /** `toString` is injective on valid ISBNs, so comparing texts compares ISBNs. */
  lemma ToStringInjective(i: Isbn, j: Isbn)
    requires Valid(i) && Valid(j)
    ensures ToString(i) == ToString(j) <==> i == j
  {
    RoundTrip(i);
    RoundTrip(j);
  }

  /** The parser checks no range, but whatever it accepts is a valid ISBN: the dashed
      pattern with all four parts present bounds each part's length. */
  lemma ParsedIsValid(s: string)
    requires Parse(s).Ok?
    ensures Valid(Parse(s).value)
  {
    var values := Values(s).value;
    ParseOfValues(s, values);
    FromPartsFields(values);
    assert '-' in s && values == DropTrailingEmpty(Pieces(s, '-'));
    var g, a, b, c := DashedParts(s);
    PiecesOfDashed(g, a, b, c);
    assert values == [[g], a, b, c];
    ParseDigits([g]);
    assert DigitsValue([g]) == DigitValue(g) by { assert [g][..0] == []; }
    DigitsBelow(a, 6);
    DigitsBelow(b, 2);
  }

  /** A successful read of the parts took its first three numbers from the first three
      parts. */
  lemma FromPartsFields(values: seq<string>)
    requires FromParts(values).Ok?
    ensures |values| >= 4
    ensures ParseInt(values[0]).Some? && FromParts(values).value.linguisticGroup == ParseInt(values[0]).value
    ensures ParseInt(values[1]).Some? && FromParts(values).value.idAuthor == ParseInt(values[1]).value
    ensures ParseInt(values[2]).Some? && FromParts(values).value.idBook == ParseInt(values[2]).value
  {
  }


  /** A digit string of at most `k` characters parses, when it parses, below 10^k. */
  lemma DigitsBelow(d: string, k: nat)
    requires AllDigits(d) && |d| <= k <= 6
    ensures ParseInt(d).Some? ==> 0 <= ParseInt(d).value as int < Pow10(k)
  {
    if |d| >= 1 {
      ParseDigits(d);
      DigitsValueBound(d);
      Pow10Monotone(|d|, k);
    }
  }

  /** The unpunctuated form never parses: every string of one to ten digits takes the
      dashed branch, is split into one part, and fails on a missing part (or, above the
      `int` range, already on `parseInt`). */
  lemma DigitsOnlyFail(s: string)
    requires AllDigits(s) && 1 <= |s| <= 10
    ensures Parse(s).Err?
    ensures Parse(s).error == if DigitsValue(s) <= INT_MAX then ArrayIndexOutOfBoundsException
                              else NumberFormatException
  {
    DigitsMatchDashed(s);
    assert '-' !in s by { forall k | 0 <= k < |s| ensures s[k] != '-' { assert IsDigit(s[k]); } }
    assert Values(s) == Ok([s]);
    ParseDigits(s);
  }

  /** The empty string matches only `\d{0,10}` and fails on the first `substring`. */
  lemma EmptyFails()
    ensures Parse("") == Err(StringIndexOutOfBoundsException)
  {
    assert !Matches(DashedIsbn, "");
    PlainIsbnMatches("");
  }

  lemma ParseOfValues(s: string, values: seq<string>)
    requires Values(s) == Ok(values)
    ensures Parse(s) == FromParts(values)
  {
  }

  /** Parts shorter than the canonical widths are accepted as long as the checksum
      fits, so the accepted text need not be the ISBN's `toString`. */
  lemma ShortPartsAccepted(g: char, a: string, b: string, ch: char)
    requires DashedPartsFit(g, a, b, [ch]) && a != [] && b != []
    ensures DigitsValue(a) <= 999999 && DigitsValue(b) <= 99
    ensures var i := Isbn(DigitValue(g) as int32, DigitsValue(a) as int32, DigitsValue(b) as int32,
                          CheckValue(ch) as int32);
            Parse(Dashed(g, a, b, [ch]))
            == if i.checkSum == CheckSumOf(i) then Ok(i)
               else Err(IllegalIsbnChecksumException(CheckValue(ch), CheckSumOf(i) as int))
    ensures Parse(Dashed(g, a, b, [ch])).Ok? && |a| < 6 ==> ToString(Parse(Dashed(g, a, b, [ch])).value) != Dashed(g, a, b, [ch])
  {
    ValuesOfDashed(g, a, b, [ch]);
    ParseOfValues(Dashed(g, a, b, [ch]), [[g], a, b, [ch]]);
    ParseDigits([g]);
    assert DigitsValue([g]) == DigitValue(g) by { assert [g][..0] == []; }
    DigitsValueBound(a);
    DigitsValueBound(b);
    Pow10Monotone(|a|, 6);
    Pow10Monotone(|b|, 6);
    assert Pow10(6) == 1000000;
    ParseDigits(a);
    ParseDigits(b);
    FromFourParts([[g], a, b, [ch]], DigitValue(g) as int32, DigitsValue(a) as int32, DigitsValue(b) as int32, ch);
    var r := Parse(Dashed(g, a, b, [ch]));
    if r.Ok? && |a| < 6 {
      ParsedIsValid(Dashed(g, a, b, [ch]));
      assert |ToString(r.value)| == 13 > |Dashed(g, a, b, [ch])|;
    }
  }

  /** A trailing dash with nothing after it leaves three parts: index error. */
  lemma EmptyCheckPartFails(g: char, a: string, b: string)
    requires DashedPartsFit(g, a, b, []) && a != [] && b != []
    ensures Parse(Dashed(g, a, b, [])) == Err(ArrayIndexOutOfBoundsException)
  {
    var s := Dashed(g, a, b, []);
    DashedMatches(g, a, b, []);
    PiecesOfDashed(g, a, b, []);
    CountDashed(g, a, b, []);
    var ps := [[g], a, b, []];
    assert DropTrailingEmpty(ps) == [[g], a, b] by {
      assert ps[..3] == [[g], a, b];
    }
    assert Values(s) == Ok([[g], a, b]);
    ParseOfValues(s, [[g], a, b]);
    ParseDigits([g]);
    ParseDigits(a);
    ParseDigits(b);
    DigitsValueBound(a);
    DigitsValueBound(b);
    Pow10Monotone(|a|, 6);
    Pow10Monotone(|b|, 6);
    assert Pow10(6) == 1000000;
    FromThreeParts([[g], a, b]);
  }

  /** An empty author part with a book or check part after it: `split` keeps the empty
      piece, and `parseInt("")` throws before any index runs out. */
  lemma EmptyAuthorPartFails(g: char, b: string, c: string)
    requires DashedPartsFit(g, [], b, c) && (b != [] || c != [])
    ensures Parse(Dashed(g, [], b, c)) == Err(NumberFormatException)
  {
    var s := Dashed(g, [], b, c);
    DashedMatches(g, [], b, c);
    PiecesOfDashed(g, [], b, c);
    CountDashed(g, [], b, c);
    var ps := [[g], [], b, c];
    var values := if c != [] then ps else [[g], [], b];
    assert DropTrailingEmpty(ps) == values by {
      if c == [] { assert ps[..3] == [[g], [], b]; }
    }
    assert Values(s) == Ok(values);
    ParseDigits([g]);
    assert ParseInt(values[1]).None?;
  }

  /** `2--01-6`: the empty author part fails in `parseInt`. */
  lemma EmptyAuthorExample()
    ensures Parse("2--01-6") == Err(NumberFormatException)
  {
    assert "2--01-6" == Dashed('2', [], "01", "6");
    EmptyAuthorPartFails('2', "01", "6");
  }

  /** Three parts that all parse: the fourth is missing. */
  lemma FromThreeParts(values: seq<string>)
    requires |values| == 3
    requires ParseInt(values[0]).Some? && ParseInt(values[1]).Some? && ParseInt(values[2]).Some?
    ensures FromParts(values) == Err(ArrayIndexOutOfBoundsException)
  {
  }

  /** Two dashes, the check part left off: index error. */
  lemma MissingPartFails(g: char, a: string, b: string)
    requires IsDigit(g) && AllDigits(a) && 1 <= |a| <= 6 && AllDigits(b) && 1 <= |b| <= 2
    ensures Parse([g] + "-" + a + "-" + b) == Err(ArrayIndexOutOfBoundsException)
  {
    var s := [g] + "-" + a + "-" + b;
    TwoDashesMatch(g, a, b);
    CountNoDashes(a); CountNoDashes(b); CountNoDashes([g]);
    PiecesOfThree([g], a, b);
    assert '-' in s by { assert s[1] == '-'; }
    assert Values(s) == Ok([[g], a, b]);
    ParseOfValues(s, [[g], a, b]);
    ParseDigits([g]);
    ParseDigits(a);
    ParseDigits(b);
    DigitsValueBound(a);
    DigitsValueBound(b);
    Pow10Monotone(|a|, 6);
    Pow10Monotone(|b|, 6);
    assert Pow10(6) == 1000000;
    FromThreeParts([[g], a, b]);
  }

  lemma PiecesOfThree(p0: string, p1: string, p2: string)
    requires '-' !in p0 && '-' !in p1 && '-' !in p2
    ensures Pieces(p0 + "-" + p1 + "-" + p2, '-') == [p0, p1, p2]
  {
    var t := p1 + "-" + p2;
    PiecesNoSeparator(p2, '-');
    PiecesAfterPiece(p1, '-', p2);
    assert Pieces(t, '-') == [p1, p2];
    PiecesAfterPiece(p0, '-', t);
    assert Pieces(p0 + "-" + t, '-') == [p0, p1, p2];
    AssociateThree(p0, p1, p2);
  }

  lemma AssociateThree(p0: string, p1: string, p2: string)
    ensures p0 + "-" + (p1 + "-" + p2) == p0 + "-" + p1 + "-" + p2
  {
  }


  lemma MissingPartExample()
    ensures Parse("2-123456-01") == Err(ArrayIndexOutOfBoundsException)
  {
    assert "2-123456-01" == ['2'] + "-" + "123456" + "-" + "01";
    MissingPartFails('2', "123456", "01");
  }
}
