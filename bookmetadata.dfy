/**
 * The metadata of a book being written: the author, the ISBN and a map from field names
 * to texts (title, author matricule, ISBN text, summary, image path).
 *
 * `MetadataState`, `Construct` and `SetFieldSpec` say, on values, what the constructor and
 * `setField` do; the class `BookMetadata` keeps the same state in fields it updates in
 * place, and its methods are proved against those functions.
 */
module Metadata {
  import opened Wrappers
  import opened JavaLang
  import opened BookDataFields
  import opened Exceptions
  import opened Authors
  import IsbnCodec

  const MAX_SUMMARY: nat := 500
  const MAX_TITLE: nat := 150
  const LINGUISTIC_GROUP: int32 := 2

  /** `checkTitle`: present, 1 to 150 UTF-16 units long and not blank. */
  predicate TitleValid(t: Option<string>)
    ensures TitleValid(t) ==> t.Some? && 1 <= |t.value| <= MAX_TITLE
  {
    t.Some? && !(Utf16Length(t.value) > MAX_TITLE || Utf16Length(t.value) < 1 || IsBlank(t.value))
  }

  /** `checkSummary`: present, 1 to 500 UTF-16 units long and not blank. */
  predicate SummaryValid(s: Option<string>)
    ensures SummaryValid(s) ==> s.Some? && 1 <= |s.value| <= MAX_SUMMARY
  {
    s.Some? && !(Utf16Length(s.value) > MAX_SUMMARY || Utf16Length(s.value) < 1 || IsBlank(s.value))
  }

  /** The text stored under `AUTHOR_MATRICULE`: `String.format("%06d", matricule)`. */
  function MatriculeText(a: Author): (s: string)
    ensures |s| >= 6
  {
    FormatZeroPadded(a.matricule as int, 6)
  }

  /** The text stored under `IMAGE_PATH`: a missing path is stored as the empty text. */
  function ImagePathText(v: Option<string>): string {
    if v.None? then "" else v.value
  }

  /** The ISBN `setIsbn` computes: a fresh one in group 2 for the author when the text is
      missing or blank, the parsed text otherwise. */
  function IsbnFor(value: Option<string>, a: Author, random: real): (r: Result<IsbnCodec.Isbn, Exception>)
    requires 0.0 <= random < 1.0
    ensures r.Ok? ==> IsbnCodec.Valid(r.value)
    ensures IsNullOrBlank(value) && r.Ok? ==> r.value.linguisticGroup == LINGUISTIC_GROUP
                                              && r.value.idAuthor == a.matricule
    ensures !IsNullOrBlank(value) ==> r == IsbnCodec.Parse(value.value)
  {
    if IsNullOrBlank(value) then IsbnCodec.CreateNew(LINGUISTIC_GROUP, a.matricule, random)
    else
      var r := IsbnCodec.Parse(value.value);
      if r.Ok? then IsbnCodec.ParsedIsValid(value.value); r else r
  }

  const AllFields: set<BookDataField> := {Title, Summary, ImagePath, BookIsbn, AuthorMatricule}

  datatype MetadataState = MetadataState(author: Author, isbn: IsbnCodec.Isbn, fields: map<BookDataField, string>)

  /** What holds of the metadata from construction on: every field is set, the title and
      summary pass their checks, the ISBN is valid and its text is the stored ISBN text,
      and the matricule text is the author's. */
  predicate Invariant(m: MetadataState) {
    m.fields.Keys == AllFields
    && TitleValid(Some(m.fields[Title])) && SummaryValid(Some(m.fields[Summary]))
    && IsbnCodec.Valid(m.isbn) && m.fields[BookIsbn] == IsbnCodec.ToString(m.isbn)
    && m.fields[AuthorMatricule] == MatriculeText(m.author)
  }

  /** The constructor: the title, then the author, then the ISBN, then the summary. */
  function Construct(title: Option<string>, author: Option<Author>, isbnText: Option<string>,
                     summary: Option<string>, imagePath: Option<string>, random: real)
    : (r: Result<MetadataState, Exception>)
    requires 0.0 <= random < 1.0
    ensures r.Ok? ==> Invariant(r.value)
  {
    if !TitleValid(title) then Err(IllegalBookTitleException)
    else if author.None? then Err(IllegalAuthorException)
    else
      var isbn :- IsbnFor(isbnText, author.value, random);
      if !SummaryValid(summary) then Err(IllegalBookSummaryException)
      else
        Ok(MetadataState(author.value, isbn,
                         map[Title := title.value, AuthorMatricule := MatriculeText(author.value),
                             BookIsbn := IsbnCodec.ToString(isbn), Summary := summary.value,
                             ImagePath := ImagePathText(imagePath)]))
  }

  /** `setField`: a title, summary or ISBN is checked as in the constructor, an image path
      is always taken, and the author matricule can never be set. */
  function SetFieldSpec(m: MetadataState, field: BookDataField, value: Option<string>, random: real)
    : (r: Result<MetadataState, Exception>)
    requires 0.0 <= random < 1.0
    ensures r.Ok? ==> r.value.author == m.author && field in r.value.fields
    ensures field == ImagePath ==> r.Ok?
    ensures field == AuthorMatricule ==> r == Err(FieldNotValidException(AuthorMatricule))
  {
    match field
    case Title =>
      if TitleValid(value) then Ok(m.(fields := m.fields[Title := value.value]))
      else Err(IllegalBookTitleException)
    case Summary =>
      if SummaryValid(value) then Ok(m.(fields := m.fields[Summary := value.value]))
      else Err(IllegalBookSummaryException)
    case BookIsbn =>
      var isbn :- IsbnFor(value, m.author, random);
      Ok(m.(isbn := isbn, fields := m.fields[BookIsbn := IsbnCodec.ToString(isbn)]))
    case ImagePath =>
      Ok(m.(fields := m.fields[ImagePath := ImagePathText(value)]))
    case AuthorMatricule =>
      Err(FieldNotValidException(AuthorMatricule))
  }

  /** `equals`: two metadata are equal when their ISBNs are. */
  predicate SameMetadata(a: MetadataState, b: MetadataState) {
    a.isbn == b.isbn
  }

  // ---------------------------------------------------------------- lemmas

  /** Construction fails exactly when one of the four checks does, and reports the first
      that fails in the order title, author, ISBN, summary. */
  lemma ConstructErrors(title: Option<string>, author: Option<Author>, isbnText: Option<string>,
                        summary: Option<string>, imagePath: Option<string>, random: real)
    requires 0.0 <= random < 1.0
    ensures Construct(title, author, isbnText, summary, imagePath, random).Ok?
            <==> TitleValid(title) && author.Some? && IsbnFor(isbnText, author.value, random).Ok?
                 && SummaryValid(summary)
    ensures !TitleValid(title)
            ==> Construct(title, author, isbnText, summary, imagePath, random) == Err(IllegalBookTitleException)
    ensures TitleValid(title) && author.None?
            ==> Construct(title, author, isbnText, summary, imagePath, random) == Err(IllegalAuthorException)
    ensures TitleValid(title) && author.Some? && IsbnFor(isbnText, author.value, random).Err?
            ==> Construct(title, author, isbnText, summary, imagePath, random)
                == Err(IsbnFor(isbnText, author.value, random).error)
    ensures TitleValid(title) && author.Some? && IsbnFor(isbnText, author.value, random).Ok?
            && !SummaryValid(summary)
            ==> Construct(title, author, isbnText, summary, imagePath, random) == Err(IllegalBookSummaryException)
  {
  }

  /** A built metadata holds the texts it was given, the matricule padded to six digits
      and a missing image path as the empty text. */
  lemma ConstructFields(title: Option<string>, author: Option<Author>, isbnText: Option<string>,
                        summary: Option<string>, imagePath: Option<string>, random: real)
    requires 0.0 <= random < 1.0
    requires Construct(title, author, isbnText, summary, imagePath, random).Ok?
    ensures var m := Construct(title, author, isbnText, summary, imagePath, random).value;
            m.author == author.value && m.fields[Title] == title.value && m.fields[Summary] == summary.value
            && m.fields[ImagePath] == ImagePathText(imagePath)
            && m.fields[AuthorMatricule] == FormatZeroPadded(author.value.matricule as int, 6)
            && m.isbn == IsbnFor(isbnText, author.value, random).value
  {
  }

  /** The author with matricule 1 is stored as `000001`. */
  lemma MatriculeOne(a: Author)
    requires a.matricule == 1
    ensures MatriculeText(a) == "000001"
  {
    assert DecimalDigits(1) == "1";
    assert Zeros(5) == "00000";
  }

  /** Without an ISBN text the metadata gets a fresh ISBN in group 2 for the author, as
      long as the matricule is an author number that an ISBN can hold. */
  lemma GeneratedIsbn(a: Author, value: Option<string>, random: real)
    requires 0.0 <= random < 1.0 && IsNullOrBlank(value)
    ensures IsbnFor(value, a, random).Ok? <==> 0 <= a.matricule as int <= 999999
    ensures IsbnFor(value, a, random).Ok? ==>
              var i := IsbnFor(value, a, random).value;
              i.linguisticGroup == 2 && i.idAuthor == a.matricule && 0 <= i.idBook as int <= 99
  {
  }

  /** The three-argument `Author` constructor accepts a five-digit negative matricule, but a
      book by such an author cannot be given a generated ISBN: the author number is out of
      range. */
  lemma NegativeMatriculeHasNoGeneratedIsbn(title: Option<string>, a: Author, summary: Option<string>,
                                            imagePath: Option<string>, random: real)
    requires 0.0 <= random < 1.0 && TitleValid(title)
    requires -99999 <= a.matricule as int <= -10000
    ensures MatriculeFormatValid(a.matricule)
    ensures Construct(title, Some(a), None, summary, imagePath, random) == Err(IllegalIsbnFormatException)
  {
    MatriculeFormatRange(a.matricule);
  }

  /** `setField` keeps the invariant. */
  lemma SetFieldKeepsInvariant(m: MetadataState, field: BookDataField, value: Option<string>, random: real)
    requires 0.0 <= random < 1.0 && Invariant(m)
    ensures SetFieldSpec(m, field, value, random).Ok? ==> Invariant(SetFieldSpec(m, field, value, random).value)
  {
    var r := SetFieldSpec(m, field, value, random);
    if r.Ok? {
      var n := r.value;
      assert n.author == m.author;
      assert n.fields.Keys == m.fields.Keys;
      match field
      case Title =>
        assert n.isbn == m.isbn && n.fields[Title] == value.value;
      case Summary =>
        assert n.isbn == m.isbn && n.fields[Summary] == value.value;
      case ImagePath =>
        assert n.isbn == m.isbn;
      case BookIsbn =>
        assert n.isbn == IsbnFor(value, m.author, random).value;
      case AuthorMatricule =>
    }
  }

  /** A successful `setField` changes only the field it names (and, for the ISBN text, the
      ISBN itself); a failed one reports the check that failed. */
  lemma SetFieldFrame(m: MetadataState, field: BookDataField, value: Option<string>, random: real)
    requires 0.0 <= random < 1.0
    ensures var r := SetFieldSpec(m, field, value, random);
            r.Ok? ==> r.value.author == m.author
                      && r.value.fields.Keys == m.fields.Keys + {field}
                      && (forall f :: f in m.fields && f != field ==> r.value.fields[f] == m.fields[f])
                      && (field != BookIsbn ==> r.value.isbn == m.isbn)
    ensures var r := SetFieldSpec(m, field, value, random);
            match field
            case Title => r.Ok? <==> TitleValid(value)
            case Summary => r.Ok? <==> SummaryValid(value)
            case BookIsbn => r.Ok? <==> IsbnFor(value, m.author, random).Ok?
            case ImagePath => r.Ok?
            case AuthorMatricule => r == Err(FieldNotValidException(AuthorMatricule))
  {
  }

  /** What `setField` stores: the title or summary as given, a missing image path as the
      empty text, and for an ISBN the canonical text of the ISBN it gets. */
  lemma SetFieldStores(m: MetadataState, field: BookDataField, value: Option<string>, random: real)
    requires 0.0 <= random < 1.0 && SetFieldSpec(m, field, value, random).Ok?
    ensures var n := SetFieldSpec(m, field, value, random).value;
            match field
            case Title => n.fields[Title] == value.value
            case Summary => n.fields[Summary] == value.value
            case ImagePath => n.fields[ImagePath] == ImagePathText(value)
            case BookIsbn => n.isbn == IsbnFor(value, m.author, random).value
                             && n.fields[BookIsbn] == IsbnCodec.ToString(n.isbn)
            case AuthorMatricule => false
  {
  }

  /** Setting the ISBN text to the text of a valid ISBN stores exactly that ISBN and that
      text. */
  lemma SetCanonicalIsbn(m: MetadataState, i: IsbnCodec.Isbn, random: real)
    requires 0.0 <= random < 1.0 && IsbnCodec.Valid(i)
    ensures SetFieldSpec(m, BookIsbn, Some(IsbnCodec.ToString(i)), random)
            == Ok(m.(isbn := i, fields := m.fields[BookIsbn := IsbnCodec.ToString(i)]))
  {
    var t := IsbnCodec.ToString(i);
    IsbnCodec.CanonicalNotBlank(i);
    IsbnCodec.RoundTrip(i);
    assert IsbnFor(Some(t), m.author, random) == Ok(i);
  }

  /** Equal stored ISBN texts mean equal metadata, and the other way round. */
  lemma SameIsbnText(a: MetadataState, b: MetadataState)
    requires Invariant(a) && Invariant(b)
    ensures a.fields[BookIsbn] == b.fields[BookIsbn] <==> SameMetadata(a, b)
  {
    IsbnCodec.ToStringInjective(a.isbn, b.isbn);
  }

  /** Equality ignores everything but the ISBN: setting any other field keeps the metadata
      equal to what it was. */
  lemma SetFieldKeepsEquality(m: MetadataState, field: BookDataField, value: Option<string>, random: real)
    requires 0.0 <= random < 1.0 && field != BookIsbn && SetFieldSpec(m, field, value, random).Ok?
    ensures SameMetadata(SetFieldSpec(m, field, value, random).value, m)
  {
  }

  // ---------------------------------------------------------------- the class

  class BookMetadata {
    const author: Author
    var isbn: IsbnCodec.Isbn
    var metadata: map<BookDataField, string>

    function State(): MetadataState
      reads this
    {
      MetadataState(author, isbn, metadata)
    }

    ghost predicate Valid()
      reads this
    {
      Invariant(State())
    }

    constructor Init(author: Author, isbn: IsbnCodec.Isbn, metadata: map<BookDataField, string>)
      requires Invariant(MetadataState(author, isbn, metadata))
      ensures State() == MetadataState(author, isbn, metadata)
    {
      this.author := author;
      this.isbn := isbn;
      this.metadata := metadata;
    }

    /** The constructor `BookMetadata(title, author, isbn, summary, imagePath)`. */
    static method Create(title: Option<string>, author: Option<Author>, isbnText: Option<string>,
                         summary: Option<string>, imagePath: Option<string>, random: real)
      returns (r: Result<BookMetadata, Exception>)
      requires 0.0 <= random < 1.0
      ensures r.Ok? ==> fresh(r.value) && r.value.Valid()
      ensures Construct(title, author, isbnText, summary, imagePath, random)
              == if r.Ok? then Ok(r.value.State()) else Err(r.error)
    {
      if !TitleValid(title) {
        return Err(IllegalBookTitleException);
      }
      var fields := map[Title := title.value];
      if author.None? {
        return Err(IllegalAuthorException);
      }
      fields := fields[AuthorMatricule := MatriculeText(author.value)];
      var isbn := IsbnFor(isbnText, author.value, random);
      if isbn.Err? {
        return Err(isbn.error);
      }
      fields := fields[BookIsbn := IsbnCodec.ToString(isbn.value)];
      if !SummaryValid(summary) {
        return Err(IllegalBookSummaryException);
      }
      fields := fields[Summary := summary.value];
      fields := fields[ImagePath := ImagePathText(imagePath)];
      ghost var c := Construct(title, author, isbnText, summary, imagePath, random);
      assert c == Ok(MetadataState(author.value, isbn.value, fields));
      var m := new BookMetadata.Init(author.value, isbn.value, fields);
      return Ok(m);
    }

    /** `getField`: the text stored under a field, `None` for one never set. */
    function GetField(field: BookDataField): (r: Option<string>)
      reads this
      ensures r.Some? <==> field in metadata
      ensures r.Some? ==> r.value == metadata[field]
      ensures Valid() ==> r.Some?
      ensures Valid() && field == BookIsbn ==> r == Some(IsbnCodec.ToString(isbn))
    {
      assert field.Title? || field.Summary? || field.ImagePath? || field.BookIsbn? || field.AuthorMatricule?;
      if field in metadata then Some(metadata[field]) else None
    }

    /** `setTitle`. */
    method SetTitle(value: Option<string>) returns (r: Result<(), Exception>)
      modifies this
      ensures r.Ok? <==> TitleValid(value)
      ensures r.Ok? ==> metadata == old(metadata)[Title := value.value] && isbn == old(isbn)
      ensures r.Err? ==> r.error == IllegalBookTitleException && unchanged(this)
    {
      if !TitleValid(value) {
        return Err(IllegalBookTitleException);
      }
      metadata := metadata[Title := value.value];
      return Ok(());
    }

    /** `setSummary`. */
    method SetSummary(value: Option<string>) returns (r: Result<(), Exception>)
      modifies this
      ensures r.Ok? <==> SummaryValid(value)
      ensures r.Ok? ==> metadata == old(metadata)[Summary := value.value] && isbn == old(isbn)
      ensures r.Err? ==> r.error == IllegalBookSummaryException && unchanged(this)
    {
      if !SummaryValid(value) {
        return Err(IllegalBookSummaryException);
      }
      metadata := metadata[Summary := value.value];
      return Ok(());
    }

    /** `setIsbn`: the ISBN field is assigned only once the new ISBN has been built. */
    method SetIsbn(value: Option<string>, random: real) returns (r: Result<(), Exception>)
      requires 0.0 <= random < 1.0
      modifies this
      ensures SetFieldSpec(old(State()), BookIsbn, value, random) == if r.Ok? then Ok(State()) else Err(r.error)
      ensures r.Err? ==> unchanged(this)
    {
      var next := IsbnFor(value, author, random);
      if next.Err? {
        return Err(next.error);
      }
      isbn := next.value;
      metadata := metadata[BookIsbn := IsbnCodec.ToString(isbn)];
      return Ok(());
    }

    /** `setField`: on failure nothing changes; on success the invariant still holds. */
    method SetField(field: BookDataField, value: Option<string>, random: real) returns (r: Result<(), Exception>)
      requires 0.0 <= random < 1.0
      modifies this
      ensures SetFieldSpec(old(State()), field, value, random) == if r.Ok? then Ok(State()) else Err(r.error)
      ensures r.Err? ==> unchanged(this)
      ensures old(Valid()) ==> Valid()
    {
      ghost var before := State();
      match field {
        case Title =>
          r := SetTitle(value);
        case Summary =>
          r := SetSummary(value);
        case BookIsbn =>
          r := SetIsbn(value, random);
        case ImagePath =>
          metadata := metadata[ImagePath := ImagePathText(value)];
          r := Ok(());
        case AuthorMatricule =>
          r := Err(FieldNotValidException(field));
      }
      if Invariant(before) {
        SetFieldKeepsInvariant(before, field, value, random);
      }
    }

    /** `equals`: the same object, or one with an equal ISBN. */
    predicate Equals(other: BookMetadata)
      reads this, other
      ensures Equals(other) <==> SameMetadata(State(), other.State())
    {
      this == other || isbn == other.isbn
    }
  }
}
