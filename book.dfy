/**
 * A gamebook: a title and a summary that can be changed, and an author, an ISBN and an
 * image path fixed at construction. Unlike the metadata, a book checks only the length of
 * its title and summary, so a blank one is accepted.
 */
module Books {
  import opened Wrappers
  import opened JavaLang
  import opened Exceptions
  import opened Authors
  import IsbnCodec
  import Metadata

  const MAX_SUMMARY: nat := 500
  const MAX_TITLE: nat := 150

  /** `checkTitle`: 1 to 150 UTF-16 units. */
  predicate TitleLengthValid(t: string)
    ensures TitleLengthValid(t) ==> 1 <= |t| <= MAX_TITLE
    ensures Metadata.TitleValid(Some(t)) ==> TitleLengthValid(t)
  {
    !(Utf16Length(t) > MAX_TITLE || Utf16Length(t) < 1)
  }

  /** `checkSummary`: 1 to 500 UTF-16 units. */
  predicate SummaryLengthValid(s: string)
    ensures SummaryLengthValid(s) ==> 1 <= |s| <= MAX_SUMMARY
    ensures Metadata.SummaryValid(Some(s)) ==> SummaryLengthValid(s)
  {
    !(Utf16Length(s) > MAX_SUMMARY || Utf16Length(s) < 1)
  }

  datatype BookState = BookState(title: string, author: Author, isbn: IsbnCodec.Isbn, summary: string,
                                 imagePath: Option<string>)

  /** What holds of a book from construction on. */
  predicate Invariant(b: BookState) {
    TitleLengthValid(b.title) && SummaryLengthValid(b.summary) && IsbnCodec.Valid(b.isbn)
  }

  /** The five-argument constructor: the title, then the summary, then the ISBN, which is a
      fresh one in group 2 for the author when the text is blank and the parsed text
      otherwise. */
  function Construct(title: string, author: Author, summary: string, isbnText: string,
                     imagePath: Option<string>, random: real): (r: Result<BookState, Exception>)
    requires 0.0 <= random < 1.0
    ensures r.Ok? ==> Invariant(r.value)
  {
    if !TitleLengthValid(title) then Err(IllegalBookTitleException)
    else if !SummaryLengthValid(summary) then Err(IllegalBookSummaryException)
    else
      var isbn :- Metadata.IsbnFor(Some(isbnText), author, random);
      Ok(BookState(title, author, isbn, summary, imagePath))
  }

  /** `equals`: two books are equal when their ISBN texts are. */
  predicate SameBook(a: BookState, b: BookState) {
    IsbnCodec.ToString(a.isbn) == IsbnCodec.ToString(b.isbn)
  }

  // ---------------------------------------------------------------- lemmas

  /** Construction fails exactly when a check does, title first, then summary, then ISBN;
      a successful one keeps what it was given. */
  lemma ConstructErrors(title: string, author: Author, summary: string, isbnText: string,
                        imagePath: Option<string>, random: real)
    requires 0.0 <= random < 1.0
    ensures var r := Construct(title, author, summary, isbnText, imagePath, random);
            (r.Ok? <==> TitleLengthValid(title) && SummaryLengthValid(summary)
                        && Metadata.IsbnFor(Some(isbnText), author, random).Ok?)
            && (!TitleLengthValid(title) ==> r == Err(IllegalBookTitleException))
            && (TitleLengthValid(title) && !SummaryLengthValid(summary) ==> r == Err(IllegalBookSummaryException))
            && (TitleLengthValid(title) && SummaryLengthValid(summary)
                && Metadata.IsbnFor(Some(isbnText), author, random).Err?
                ==> r == Err(Metadata.IsbnFor(Some(isbnText), author, random).error))
            && (r.Ok? ==> r.value.title == title && r.value.summary == summary && r.value.author == author
                          && r.value.imagePath == imagePath)
  {
  }

  /** A title of spaces passes the book's check, though the metadata refuses it. */
  lemma BlankTitleAccepted()
    ensures TitleLengthValid(" ") && !Metadata.TitleValid(Some(" "))
  {
    assert IsWhitespace(" "[0]);
  }

  /** The three-argument constructor always takes the generated route: group 2, the
      author's matricule as author number, and the empty image path. */
  lemma ThreeArgumentIsbn(title: string, author: Author, summary: string, random: real)
    requires 0.0 <= random < 1.0 && TitleLengthValid(title) && SummaryLengthValid(summary)
    ensures var r := Construct(title, author, summary, "", Some(""), random);
            (r.Ok? <==> 0 <= author.matricule as int <= 999999)
            && (r.Ok? ==> r.value.isbn.linguisticGroup == 2 && r.value.isbn.idAuthor == author.matricule
                          && r.value.imagePath == Some(""))
  {
  }

  /** An ISBN text that is the text of a valid ISBN gives a book with exactly that ISBN. */
  lemma CanonicalIsbnKept(title: string, author: Author, summary: string, i: IsbnCodec.Isbn,
                          imagePath: Option<string>, random: real)
    requires 0.0 <= random < 1.0 && TitleLengthValid(title) && SummaryLengthValid(summary)
    requires IsbnCodec.Valid(i)
    ensures Construct(title, author, summary, IsbnCodec.ToString(i), imagePath, random)
            == Ok(BookState(title, author, i, summary, imagePath))
  {
    IsbnCodec.ToStringShape(i);
    assert !IsWhitespace(IsbnCodec.ToString(i)[1]);
    IsbnCodec.RoundTrip(i);
  }

  /** Comparing ISBN texts is comparing ISBNs, whatever the titles, summaries and authors. */
  lemma SameBookIsSameIsbn(a: BookState, b: BookState)
    requires Invariant(a) && Invariant(b)
    ensures SameBook(a, b) <==> a.isbn == b.isbn
  {
    IsbnCodec.ToStringInjective(a.isbn, b.isbn);
  }

  // ---------------------------------------------------------------- the class

  class Book {
    var title: string
    const author: Author
    const isbn: IsbnCodec.Isbn
    var summary: string
    const imagePath: Option<string>

    function State(): BookState
      reads this
    {
      BookState(title, author, isbn, summary, imagePath)
    }

    ghost predicate Valid()
      reads this
    {
      Invariant(State())
    }

    constructor Init(s: BookState)
      requires Invariant(s)
      ensures State() == s
    {
      title := s.title;
      author := s.author;
      isbn := s.isbn;
      summary := s.summary;
      imagePath := s.imagePath;
    }

    /** `Book(title, author, summary, isbn, imagePath)`. */
    static method CreateWithImage(title: string, author: Author, summary: string, isbnText: string,
                                  imagePath: Option<string>, random: real)
      returns (r: Result<Book, Exception>)
      requires 0.0 <= random < 1.0
      ensures r.Ok? ==> fresh(r.value) && r.value.Valid()
      ensures Construct(title, author, summary, isbnText, imagePath, random)
              == if r.Ok? then Ok(r.value.State()) else Err(r.error)
    {
      if !TitleLengthValid(title) {
        return Err(IllegalBookTitleException);
      }
      if !SummaryLengthValid(summary) {
        return Err(IllegalBookSummaryException);
      }
      var isbn := Metadata.IsbnFor(Some(isbnText), author, random);
      if isbn.Err? {
        return Err(isbn.error);
      }
      var b := new Book.Init(BookState(title, author, isbn.value, summary, imagePath));
      return Ok(b);
    }

    /** `Book(title, author, summary, isbn)`: no image. */
    static method CreateWithIsbn(title: string, author: Author, summary: string, isbnText: string,
                                 random: real)
      returns (r: Result<Book, Exception>)
      requires 0.0 <= random < 1.0
      ensures r.Ok? ==> fresh(r.value) && r.value.Valid()
      ensures Construct(title, author, summary, isbnText, Some(""), random)
              == if r.Ok? then Ok(r.value.State()) else Err(r.error)
    {
      r := CreateWithImage(title, author, summary, isbnText, Some(""), random);
    }

    /** `Book(title, author, summary)`: a generated ISBN and no image. */
    static method Create(title: string, author: Author, summary: string, random: real)
      returns (r: Result<Book, Exception>)
      requires 0.0 <= random < 1.0
      ensures r.Ok? ==> fresh(r.value) && r.value.Valid()
      ensures Construct(title, author, summary, "", Some(""), random)
              == if r.Ok? then Ok(r.value.State()) else Err(r.error)
    {
      r := CreateWithImage(title, author, summary, "", Some(""), random);
    }

    /** `setTitle`: only the title changes, and only when it passes the check. */
    method SetTitle(t: string) returns (r: Result<(), Exception>)
      modifies this
      ensures r.Ok? <==> TitleLengthValid(t)
      ensures r.Ok? ==> title == t && summary == old(summary)
      ensures r.Err? ==> r.error == IllegalBookTitleException && unchanged(this)
      ensures old(Valid()) ==> Valid()
    {
      if !TitleLengthValid(t) {
        return Err(IllegalBookTitleException);
      }
      title := t;
      return Ok(());
    }

    /** `setSummary`: only the summary changes, and only when it passes the check. */
    method SetSummary(s: string) returns (r: Result<(), Exception>)
      modifies this
      ensures r.Ok? <==> SummaryLengthValid(s)
      ensures r.Ok? ==> summary == s && title == old(title)
      ensures r.Err? ==> r.error == IllegalBookSummaryException && unchanged(this)
      ensures old(Valid()) ==> Valid()
    {
      if !SummaryLengthValid(s) {
        return Err(IllegalBookSummaryException);
      }
      summary := s;
      return Ok(());
    }

    /** `getIsbn`: the canonical text of the ISBN, which reads back as that ISBN. */
    function GetIsbn(): (s: string)
      reads this
      ensures Valid() ==> |s| == 13 && IsbnCodec.Parse(s) == Ok(isbn)
    {
      var s := IsbnCodec.ToString(isbn);
      if Invariant(State()) then IsbnCodec.ToStringShape(isbn); IsbnCodec.RoundTrip(isbn); s else s
    }

    /** `equals`: the same object, or one with the same ISBN text. */
    predicate Equals(other: Book)
      reads this, other
      ensures Equals(other) <==> SameBook(State(), other.State())
    {
      this == other || IsbnCodec.ToString(isbn) == IsbnCodec.ToString(other.isbn)
    }
  }
}
