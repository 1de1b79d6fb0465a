/**
 * An author of gamebooks: a name, a first name and a six-digit matricule. An `Author`
 * never changes once built, so it is a value here; its two constructors are functions
 * that either build one or report the exception the Java constructor throws.
 */
module Authors {
  import opened Wrappers
  import opened JavaLang
  import opened Exceptions

  const MATRICULE_LENGTH: nat := 6

  datatype Author = Author(name: string, firstName: string, matricule: int32)

  /** `checkValidity`: both names present and not blank. */
  predicate NamesValid(name: Option<string>, firstName: Option<string>)
    ensures NamesValid(name, firstName)
            ==> name.Some? && firstName.Some? && |name.value| >= 1 && |firstName.value| >= 1
  {
    !IsNullOrBlank(name) && !IsNullOrBlank(firstName)
  }

  /** `computeMatricule`: `(int) (Math.random() * 1000000)`; `random` is what
      `Math.random()` drew. */
  function ComputeMatricule(random: real): (m: int32)
    requires 0.0 <= random < 1.0
    ensures 0 <= m as int <= 999999
  {
    RandomBelow(random, 1000000) as int32
  }

  /** `Author(name, firstName)`: the names are checked and the matricule is drawn. */
  function NewAuthor(name: Option<string>, firstName: Option<string>, random: real): (r: Result<Author, Exception>)
    requires 0.0 <= random < 1.0
    ensures r.Ok? <==> NamesValid(name, firstName)
    ensures r.Err? ==> r.error == IllegalAuthorNameException
    ensures r.Ok? ==> r.value.name == name.value && r.value.firstName == firstName.value
                      && 0 <= r.value.matricule as int <= 999999
  {
    if !NamesValid(name, firstName) then Err(IllegalAuthorNameException)
    else Ok(Author(name.value, firstName.value, ComputeMatricule(random)))
  }

  /** The matricule check of the three-argument constructor: `%d` writes six characters. */
  predicate MatriculeFormatValid(m: int32) {
    |FormatInt(m as int)| == MATRICULE_LENGTH
  }

  /** `Author(name, firstName, matricule)`: the names are checked first, then the
      matricule. */
  function NewAuthorWithMatricule(name: Option<string>, firstName: Option<string>, m: int32)
    : (r: Result<Author, Exception>)
    ensures r.Ok? <==> NamesValid(name, firstName) && MatriculeFormatValid(m)
    ensures !NamesValid(name, firstName) ==> r == Err(IllegalAuthorNameException)
    ensures NamesValid(name, firstName) && !MatriculeFormatValid(m) ==> r == Err(IllegalArgumentException)
    ensures r.Ok? ==> r.value == Author(name.value, firstName.value, m)
  {
    if !NamesValid(name, firstName) then Err(IllegalAuthorNameException)
    else if |FormatInt(m as int)| != MATRICULE_LENGTH then Err(IllegalArgumentException)
    else Ok(Author(name.value, firstName.value, m))
  }

  /** `getFullName`. */
  function FullName(a: Author): (s: string)
    ensures |s| == |a.firstName| + 1 + |a.name|
  {
    a.firstName + " " + a.name
  }

  /** `equals`: two authors are the same when their names and first names are; the
      matricule plays no part. */
  predicate SameAuthor(a: Author, b: Author)
    ensures SameAuthor(a, b) ==> FullName(a) == FullName(b)
  {
    a.name == b.name && a.firstName == b.firstName
  }

  // ---------------------------------------------------------------- lemmas

  /** The matricule check accepts exactly the six-digit positive numbers and the
      five-digit negative ones: the minus sign counts as one of the six characters. */
  lemma MatriculeFormatRange(m: int32)
    ensures MatriculeFormatValid(m)
            <==> (100000 <= m as int <= 999999 || -99999 <= m as int <= -10000)
  {
    assert Pow10(5) == 100000;
    assert Pow10(6) == 1000000;
    assert Pow10(4) == 10000;
    if m >= 0 {
      DecimalDigitsLength(m as int, 6);
      DecimalDigitsLength(m as int, 5);
    } else {
      DecimalDigitsLength(-(m as int), 5);
      DecimalDigitsLength(-(m as int), 4);
    }
  }

  /** A matricule that `computeMatricule` draws can be too short for the three-argument
      constructor: the two constructors do not agree on what a matricule is. */
  lemma DrawnMatriculeMayBeShort()
    ensures ComputeMatricule(0.0) == 0 && !MatriculeFormatValid(ComputeMatricule(0.0))
  {
    MatriculeFormatRange(0);
  }

  /** A name made of spaces only is refused, as is a missing one. */
  lemma BlankNameRefused(firstName: Option<string>, m: int32)
    ensures NewAuthorWithMatricule(Some("  "), firstName, m) == Err(IllegalAuthorNameException)
    ensures NewAuthorWithMatricule(None, firstName, m) == Err(IllegalAuthorNameException)
  {
    assert IsWhitespace("  "[0]) && IsWhitespace("  "[1]);
  }

  /** When no first name contains a space, the full name tells who the author is. */
  lemma FullNameIdentifies(a: Author, b: Author)
    requires ' ' !in a.firstName && ' ' !in b.firstName
    ensures FullName(a) == FullName(b) <==> SameAuthor(a, b)
  {
    if FullName(a) == FullName(b) {
      var s := FullName(a);
      FirstSpace(a);
      FirstSpace(b);
      assert |a.firstName| == |b.firstName|;
      assert a.firstName == s[..|a.firstName|] == b.firstName;
      assert a.name == s[|a.firstName| + 1..] == b.name;
    }
  }

  /** In a full name whose first name has no space, the first space ends the first name. */
  lemma FirstSpace(a: Author)
    requires ' ' !in a.firstName
    ensures FullName(a)[|a.firstName|] == ' '
    ensures forall i :: 0 <= i < |a.firstName| ==> FullName(a)[i] != ' '
  {
  }

  /** `equals` is an equivalence, and two authors it identifies differ at most in their
      matricules. */
  lemma SameAuthorEquivalence(a: Author, b: Author, c: Author)
    ensures SameAuthor(a, a)
    ensures SameAuthor(a, b) ==> SameAuthor(b, a)
    ensures SameAuthor(a, b) && SameAuthor(b, c) ==> SameAuthor(a, c)
    ensures SameAuthor(a, b) <==> a.(matricule := b.matricule) == b
  {
  }
}
