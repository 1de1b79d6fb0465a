# Gamebook editor domain model in Dafny

This project models the domain classes of a gamebook editor. A gamebook is a branching
story: pages joined by labelled choices, written by an author and named by an ISBN-like
identifier. The model covers five classes of the package `org.helmo.gbeditor.models`:

- `ISBN`: the identifier `G-AAAAAA-BB-C`. It has a linguistic group (0-9), an author
  number (0-999999), a book number (0-99) and a checksum, which is the sum of the three
  modulo 11, with 10 written `X`. It is built from numbers or parsed from text.
- `Author`: a name, a first name and a matricule, which is drawn at random or given.
- `BookMetadata`: a map from field names to texts, with validated setters and a
  generated or parsed ISBN.
- `Book`: a title and summary that can change, and an author, an ISBN and an image path
  that cannot.
- `Page`: a text and a map of choices that is changed in place.

## Modules

- **Wrappers**: `Option` and a `Result` whose failures can be propagated with `:-`.
- **JavaLang**: the parts of the Java platform these classes rely on:
  - 32-bit `int` with two's-complement wrap-around, and Java's truncating `%`;
  - `String.length` counted in UTF-16 units, and `isBlank` with `Character.isWhitespace`;
  - `String.format` for `%d` and `%0Nd`, and `Integer.parseInt`;
  - `String.split` on a one-character separator, trailing empty strings removed;
  - `(int) (Math.random() * n)`.
- **Regex**: a backtracking matcher for the two regular expressions the ISBN parser
  tests, `\d-?\d{0,6}-?\d{0,2}-?[\dX]?` and `\d{0,10}`, where the whole input must match.
- **BookDataFields** and **Exceptions**: the field enum, and one error variant per
  exception class.
- **IsbnCodec**: `ISBN` as an immutable value. Its constructors and parser return a
  `Result` that names the exception they would throw.
- **Authors**: `Author` as an immutable value.
- **Metadata**, **Books** and **Pages**: classes whose methods update their fields in
  place, as the Java objects do.
  - For `BookMetadata` and `Book`, a function on values (`Construct`, `SetFieldSpec`)
    states what the constructor and setters do. The lemmas are proved about that
    function, and each method is proved to agree with it.
  - Pages point at each other, so `Page` is a class with a `map<string, Page?>` field.

Where the Java code calls `Math.random()`, the model takes the drawn value, a real in
[0, 1), as a parameter.

### Behaviour of the code worth knowing

The model follows the code as written, including in these cases:

- **The ten-digit form never parses.** `ISBN.java:44-49` has a branch for ten digits
  without dashes: it cuts the text into a one-digit group, a six-digit author id, a
  two-digit book id and a check digit. That branch is unreachable with text of one or more
  digits.
  - Every dash in the dashed expression on line 40 is optional, so any text of one to ten
    digits matches it first (`Regex.DigitsMatchDashed`).
  - `split("-")` then returns one piece, and reading the second piece throws
    `ArrayIndexOutOfBoundsException`. If the value does not fit in an `int`, `parseInt`
    throws `NumberFormatException` first (`IsbnCodec.DigitsOnlyFail`).
  - So the parts always come from `split`, and the ten-digit branch only ever sees the
    empty text, which fails in `substring` (`IsbnCodec.Values`, `IsbnCodec.EmptyFails`).
- **The ISBN checksum is unweighted.** `utils/IsbnChecker.java:4-20` describes ISBN-10
  with weights 10 to 2 and `11 -` the remainder. `ISBN.java:71-73` instead takes the plain
  sum of the three numbers modulo 11, with Java's `int` addition and `%`. The model
  follows `ISBN.java`.
- **Page equality** compares contents only (`Page.java:76-82`); the choices play no part.
- **Author matricules.**
  - The three-argument `Author` constructor accepts exactly the numbers whose `%d` text
    has six characters: 100000 to 999999, and -99999 to -10000.
  - The random constructor draws from 0 to 999999, so a drawn matricule can be one the
    other constructor refuses (`Authors.DrawnMatriculeMayBeShort`).
  - A negative matricule is out of range for a generated ISBN
    (`Metadata.NegativeMatriculeHasNoGeneratedIsbn`).
- **`Book` checks only the length** of its title and summary. A blank title that
  `BookMetadata` refuses is accepted (`Books.BlankTitleAccepted`).
- **`BookMetadata` calls `author.getIdentifier()`**, which `Author` does not declare.
  The model uses the matricule (`getMatricule`).
- **The checksum error.** `IllegalIsbnChecksumException`'s constructor is declared
  with its parameters in the order (expected, actual). `ISBN` passes them as (given,
  computed), so the error variant carries the checksum found in the input first, then
  the computed one.

## Model

| member | source | states |
|---|---|---|
| JavaLang.Wrap32 | bouffiouxj/src/main/java/org/helmo/gbeditor/models/ISBN.java:72 | an `int` sum wraps around modulo 2^32 and is unchanged when it fits |
| JavaLang.Rem | bouffiouxj/src/main/java/org/helmo/gbeditor/models/ISBN.java:72 | Java's `%` is a remainder: it is congruent to x modulo m, and it keeps the sign of the dividend, lying in 0..m-1 for x >= 0 and in -(m-1)..0 for x < 0 |
| JavaLang.RandomBelow | bouffiouxj/src/main/java/org/helmo/gbeditor/models/ISBN.java:67-69 | `(int) (Math.random() * n)` lies in 0..n-1 for every draw in [0, 1) |
| JavaLang.Utf16Length | bouffiouxj/src/main/java/org/helmo/gbeditor/models/BookMetadata.java:101 | `String.length` counts each character once or twice, never less than the number of characters |
| JavaLang.FormatZeroPadded | bouffiouxj/src/main/java/org/helmo/gbeditor/models/BookMetadata.java:40 | `%0Nd` is at least N characters long, and equals `%d` when that is already N characters or more |
| JavaLang.DecimalDigitsLength | bouffiouxj/src/main/java/org/helmo/gbeditor/models/Author.java:49 | n has at most k decimal digits exactly when n < 10^k |
| JavaLang.ParseFormatted | bouffiouxj/src/main/java/org/helmo/gbeditor/models/ISBN.java:53 | `Integer.parseInt` reads back what `%d` writes, for every `int` |
| JavaLang.ParseZeroPadded | bouffiouxj/src/main/java/org/helmo/gbeditor/models/ISBN.java:93 | `Integer.parseInt` reads back what `%0Nd` writes, for every non-negative `int` |
| JavaLang.ParseDigits | bouffiouxj/src/main/java/org/helmo/gbeditor/models/ISBN.java:53-55 | `parseInt` of a string of digits is its value when that fits in an `int`, and fails otherwise |
| JavaLang.JoinPieces | bouffiouxj/src/main/java/org/helmo/gbeditor/models/ISBN.java:43 | the pieces between separators, before `split` drops the trailing empty ones, join back to the string |
| JavaLang.Split | bouffiouxj/src/main/java/org/helmo/gbeditor/models/ISBN.java:43 | `split` gives the text itself when the separator does not occur, and never more pieces than the separators allow |
| JavaLang.SplitPrefix | bouffiouxj/src/main/java/org/helmo/gbeditor/models/ISBN.java:43 | `split` keeps a prefix of the pieces, none containing the separator, ending in a non-empty piece; only empty pieces are dropped |
| JavaLang.FormatInt | bouffiouxj/src/main/java/org/helmo/gbeditor/models/ISBN.java:93 | `%d` of a non-negative number is all digits, and of a negative one a minus sign followed by digits |
| JavaLang.ParseInt | bouffiouxj/src/main/java/org/helmo/gbeditor/models/ISBN.java:53-56 | `parseInt` fails on the empty text and on a lone sign, and succeeds only with the sign the text shows |
| JavaLang.IsBlank | bouffiouxj/src/main/java/org/helmo/gbeditor/models/BookMetadata.java:101 | the empty text is blank, and a text that is not blank holds a character that is not whitespace |
| Regex.MatchLength | bouffiouxj/src/main/java/org/helmo/gbeditor/models/ISBN.java:42-44 | `Pattern.matches` matches the whole text, so no text longer than the pattern allows matches |
| Regex.PatternLengths | bouffiouxj/src/main/java/org/helmo/gbeditor/models/ISBN.java:40-41 | the dashed pattern matches at most 13 characters and `\d{0,10}` at most 10 |
| Regex.PlainIsbnMatches | bouffiouxj/src/main/java/org/helmo/gbeditor/models/ISBN.java:41 | `\d{0,10}` matches exactly the strings of at most ten ASCII digits |
| Regex.DashedMatches | bouffiouxj/src/main/java/org/helmo/gbeditor/models/ISBN.java:40 | `G-A-B-C` matches the dashed expression whenever each part has the allowed digits |
| Regex.DashedShape | bouffiouxj/src/main/java/org/helmo/gbeditor/models/ISBN.java:40 | a string with three dashes matches the dashed expression exactly when it has the form `G-A-B-C` with parts that fit |
| Regex.DigitsMatchDashed | bouffiouxj/src/main/java/org/helmo/gbeditor/models/ISBN.java:40-44 | every string of one to ten digits matches the dashed expression, so the second branch never sees one |
| Regex.TwoDashesMatch | bouffiouxj/src/main/java/org/helmo/gbeditor/models/ISBN.java:40 | `G-A-B`, with the last dash and check part left out, matches the dashed expression |
| IsbnCodec.IntSum | bouffiouxj/src/main/java/org/helmo/gbeditor/models/ISBN.java:72 | `g + a + b` in `int` arithmetic is the true sum whenever no addition overflows |
| IsbnCodec.ComputeCheckSum | bouffiouxj/src/main/java/org/helmo/gbeditor/models/ISBN.java:71-73 | for every input the checksum lies in -10..10, is congruent modulo 11 to the `int` sum, and has its sign; for non-negative parts whose sum fits in an `int` it is that sum modulo 11 |
| IsbnCodec.CheckSumOf | bouffiouxj/src/main/java/org/helmo/gbeditor/models/ISBN.java:75-77 | `getCheckSum` lies in -10..10, and is the sum of the parts modulo 11 when they are in range |
| IsbnCodec.CheckSumExample | bouffiouxj/src/main/java/org/helmo/gbeditor/models/ISBN.java:71-73 | the parts (2, 123456, 1) have checksum 6 |
| IsbnCodec.NegativeCheckSum | bouffiouxj/src/main/java/org/helmo/gbeditor/models/ISBN.java:71-73 | the parts (-1, 0, 0) give -1 and (2^31-1, 1, 0) give -2, because the sum wraps around; (-1, 5, 0) give 4 |
| IsbnCodec.NewChecked | bouffiouxj/src/main/java/org/helmo/gbeditor/models/ISBN.java:15-36 | the four-number constructor succeeds exactly when the three ranges hold and the checksum is the computed one, and then gives a valid ISBN with those numbers |
| IsbnCodec.NewErrorOrder | bouffiouxj/src/main/java/org/helmo/gbeditor/models/ISBN.java:17-34 | the checks fail in order: group, then author number, then book number, then checksum, which reports (given, computed) |
| IsbnCodec.NewComputed | bouffiouxj/src/main/java/org/helmo/gbeditor/models/ISBN.java:11-13 | the three-number constructor succeeds exactly when the ranges hold, and never fails on the checksum |
| IsbnCodec.RandomIdBook | bouffiouxj/src/main/java/org/helmo/gbeditor/models/ISBN.java:67-69 | a drawn book number lies in 0..99 |
| IsbnCodec.CreateNew | bouffiouxj/src/main/java/org/helmo/gbeditor/models/ISBN.java:63-65 | `createNewISBN` succeeds exactly when the group and author number are in range, and keeps them; otherwise it reports the group error before the author error |
| IsbnCodec.CheckChar | bouffiouxj/src/main/java/org/helmo/gbeditor/models/ISBN.java:93 | a checksum from 0 to 10 is written as a digit or `X`, and it is `X` exactly for 10 |
| IsbnCodec.CheckValue | bouffiouxj/src/main/java/org/helmo/gbeditor/models/ISBN.java:56 | the check character is read as 10 for `X`, or as its digit, and is the inverse of CheckChar |
| IsbnCodec.ToString | bouffiouxj/src/main/java/org/helmo/gbeditor/models/ISBN.java:92-94 | the text of a valid ISBN has 13 characters: the group digit, the author id padded to six digits, the book id padded to two, and the check character, joined by dashes |
| IsbnCodec.ToStringExample | bouffiouxj/src/main/java/org/helmo/gbeditor/models/ISBN.java:92-94 | the ISBN (2, 123456, 1, 6) is written `2-123456-01-6` |
| IsbnCodec.ToStringShape | bouffiouxj/src/main/java/org/helmo/gbeditor/models/ISBN.java:92-94 | the text of a valid ISBN is 13 characters: a group digit, a dash, six digits, a dash, two digits, a dash and the check character |
| IsbnCodec.CanonicalNotBlank | bouffiouxj/src/main/java/org/helmo/gbeditor/models/ISBN.java:92-94 | the text of a valid ISBN is never blank |
| IsbnCodec.At | bouffiouxj/src/main/java/org/helmo/gbeditor/models/ISBN.java:53-56 | `values[k]` fails with ArrayIndexOutOfBoundsException exactly when there is no k-th part |
| IsbnCodec.ParseIntOrThrow | bouffiouxj/src/main/java/org/helmo/gbeditor/models/ISBN.java:53-56 | `parseInt` fails with NumberFormatException exactly when the text is not an `int` |
| IsbnCodec.FromParts | bouffiouxj/src/main/java/org/helmo/gbeditor/models/ISBN.java:53-60 | a parsed ISBN's checksum is the one computed from its parts, and a checksum error names two different numbers |
| IsbnCodec.FromFourParts | bouffiouxj/src/main/java/org/helmo/gbeditor/models/ISBN.java:53-60 | four parts that parse give the ISBN when the check character matches the computed checksum, and the checksum error otherwise |
| IsbnCodec.FromPartsFields | bouffiouxj/src/main/java/org/helmo/gbeditor/models/ISBN.java:53-55 | a successful parse had at least four parts and took its group, author and book numbers from the first three |
| IsbnCodec.Values | bouffiouxj/src/main/java/org/helmo/gbeditor/models/ISBN.java:40-51 | the parts are found exactly when the dashed pattern matches, and then they are what `split("-")` gives; the empty text fails in `substring` and any other text with a format error |
| IsbnCodec.PlainOnlyEmpty | bouffiouxj/src/main/java/org/helmo/gbeditor/models/ISBN.java:44-49 | the only text that reaches the ten-digit branch is the empty one |
| IsbnCodec.Parse | bouffiouxj/src/main/java/org/helmo/gbeditor/models/ISBN.java:38-61 | only text matching the dashed pattern parses, and a parsed ISBN's checksum is the computed one |
| IsbnCodec.ValuesOfDashed | bouffiouxj/src/main/java/org/helmo/gbeditor/models/ISBN.java:42-43 | a dashed text with a check part splits into exactly its four parts |
| IsbnCodec.RoundTrip | bouffiouxj/src/main/java/org/helmo/gbeditor/models/ISBN.java:38-94 | parsing the text of a valid ISBN gives that ISBN back |
| IsbnCodec.ToStringInjective | bouffiouxj/src/main/java/org/helmo/gbeditor/models/ISBN.java:92-94 | two valid ISBNs have the same text exactly when they are equal |
| IsbnCodec.ParsedIsValid | bouffiouxj/src/main/java/org/helmo/gbeditor/models/ISBN.java:38-61 | whatever the string constructor accepts is in range with a correct checksum, although it never checks the ranges |
| IsbnCodec.ParseWithCheckChar | bouffiouxj/src/main/java/org/helmo/gbeditor/models/ISBN.java:56-59 | the canonical text with any check character parses when that character is the checksum, and gives the checksum error with both numbers otherwise |
| IsbnCodec.FlippedCheckCharFails | bouffiouxj/src/main/java/org/helmo/gbeditor/models/ISBN.java:56-59 | changing the check character of a valid ISBN's text gives the checksum error |
| IsbnCodec.DigitsOnlyFail | bouffiouxj/src/main/java/org/helmo/gbeditor/models/ISBN.java:40-55 | a text of one to ten digits with no dash never parses: index error when its value fits in an `int`, number error otherwise |
| IsbnCodec.EmptyFails | bouffiouxj/src/main/java/org/helmo/gbeditor/models/ISBN.java:44-46 | the empty text fails with StringIndexOutOfBoundsException |
| IsbnCodec.ShortPartsAccepted | bouffiouxj/src/main/java/org/helmo/gbeditor/models/ISBN.java:40-60 | author and book parts shorter than six and two digits are accepted and read as numbers; with a short author part the result prints differently from the input |
| IsbnCodec.EmptyCheckPartFails | bouffiouxj/src/main/java/org/helmo/gbeditor/models/ISBN.java:43-56 | a text ending in a dash, with non-empty digit author and book parts that fit the pattern, loses its empty last piece in `split` and fails with ArrayIndexOutOfBoundsException |
| IsbnCodec.MissingPartFails | bouffiouxj/src/main/java/org/helmo/gbeditor/models/ISBN.java:43-56 | a text with only two dashes, whose author part (1 to 6 digits) and book part (1 or 2 digits) are non-empty digits, fails with ArrayIndexOutOfBoundsException |
| IsbnCodec.EmptyAuthorPartFails | bouffiouxj/src/main/java/org/helmo/gbeditor/models/ISBN.java:43-54 | an empty author part followed by a book or check part is kept by `split`, and `parseInt("")` throws NumberFormatException before any index runs out |
| IsbnCodec.EmptyAuthorExample | bouffiouxj/src/main/java/org/helmo/gbeditor/models/ISBN.java:43-54 | `2--01-6` fails with NumberFormatException |
| IsbnCodec.MissingPartExample | bouffiouxj/src/main/java/org/helmo/gbeditor/models/ISBN.java:43-56 | `2-123456-01` fails with ArrayIndexOutOfBoundsException |
| Authors.NamesValid | bouffiouxj/src/main/java/org/helmo/gbeditor/models/Author.java:28-32 | names that pass the name test are present and not empty |
| Authors.SameAuthor | bouffiouxj/src/main/java/org/helmo/gbeditor/models/Author.java:64-74 | two authors that `equals` identifies have the same full name |
| Authors.ComputeMatricule | bouffiouxj/src/main/java/org/helmo/gbeditor/models/Author.java:34-36 | a drawn matricule lies in 0..999999 |
| Authors.NewAuthor | bouffiouxj/src/main/java/org/helmo/gbeditor/models/Author.java:21-26 | the two-argument constructor succeeds exactly when both names are present and not blank, keeps them and draws a matricule in range; otherwise it gives IllegalAuthorNameException |
| Authors.NewAuthorWithMatricule | bouffiouxj/src/main/java/org/helmo/gbeditor/models/Author.java:45-53 | the three-argument constructor succeeds exactly when the names are valid and the matricule's text has six characters; names are checked first, then the matricule |
| Authors.MatriculeFormatRange | bouffiouxj/src/main/java/org/helmo/gbeditor/models/Author.java:49-51 | the matricule check accepts exactly 100000..999999 and -99999..-10000 |
| Authors.DrawnMatriculeMayBeShort | bouffiouxj/src/main/java/org/helmo/gbeditor/models/Author.java:34-51 | the draw 0 gives matricule 0, which the three-argument constructor refuses |
| Authors.BlankNameRefused | bouffiouxj/src/main/java/org/helmo/gbeditor/models/Author.java:28-32 | a missing name, or one made of spaces, is refused with IllegalAuthorNameException |
| Authors.FullName | bouffiouxj/src/main/java/org/helmo/gbeditor/models/Author.java:60-62 | the full name is one character longer than the two names together |
| Authors.FirstSpace | bouffiouxj/src/main/java/org/helmo/gbeditor/models/Author.java:60-62 | when the first name has no space, the first space of the full name comes right after it |
| Authors.FullNameIdentifies | bouffiouxj/src/main/java/org/helmo/gbeditor/models/Author.java:60-74 | when first names have no space, two full names are equal exactly when `equals` holds |
| Authors.SameAuthorEquivalence | bouffiouxj/src/main/java/org/helmo/gbeditor/models/Author.java:64-74 | `equals` is reflexive, symmetric and transitive, and two equal authors differ at most in their matricule |
| Metadata.TitleValid | bouffiouxj/src/main/java/org/helmo/gbeditor/models/BookMetadata.java:100-104 | a title that passes the title test is present and has 1 to 150 characters |
| Metadata.SummaryValid | bouffiouxj/src/main/java/org/helmo/gbeditor/models/BookMetadata.java:106-110 | a summary that passes the summary test is present and has 1 to 500 characters |
| Metadata.MatriculeText | bouffiouxj/src/main/java/org/helmo/gbeditor/models/BookMetadata.java:40 | the stored matricule text has at least six characters |
| Metadata.MatriculeOne | bouffiouxj/src/main/java/org/helmo/gbeditor/models/BookMetadata.java:40 | matricule 1 is stored as `000001` |
| Metadata.IsbnFor | bouffiouxj/src/main/java/org/helmo/gbeditor/models/BookMetadata.java:85-88 | `setIsbn` gets a valid ISBN: for a missing or blank text, a generated one in group 2 with the author's matricule; otherwise it parses the text |
| Metadata.GeneratedIsbn | bouffiouxj/src/main/java/org/helmo/gbeditor/models/BookMetadata.java:85-88 | without ISBN text, an ISBN is generated exactly when the matricule is in 0..999999, with group 2, that author number and a book number in 0..99 |
| Metadata.NegativeMatriculeHasNoGeneratedIsbn | bouffiouxj/src/main/java/org/helmo/gbeditor/models/BookMetadata.java:86 | an author whose five-digit negative matricule the Author constructor accepts cannot get metadata without ISBN text: IllegalIsbnFormatException |
| Metadata.Construct | bouffiouxj/src/main/java/org/helmo/gbeditor/models/BookMetadata.java:36-44 | built metadata has every field set, a valid title and summary, a valid ISBN whose text is the stored one, and the author's padded matricule |
| Metadata.ConstructErrors | bouffiouxj/src/main/java/org/helmo/gbeditor/models/BookMetadata.java:36-44 | construction fails exactly when a check does, reporting the title first, then the author, then the ISBN, then the summary |
| Metadata.ConstructFields | bouffiouxj/src/main/java/org/helmo/gbeditor/models/BookMetadata.java:36-44 | built metadata keeps the given texts; a missing image path becomes the empty text and the matricule is padded to six digits |
| Metadata.SetFieldSpec | bouffiouxj/src/main/java/org/helmo/gbeditor/models/BookMetadata.java:66-83 | `setField` keeps the author and sets its field; an image path is always taken, and the author matricule always gives FieldNotValidException |
| Metadata.SetFieldKeepsInvariant | bouffiouxj/src/main/java/org/helmo/gbeditor/models/BookMetadata.java:66-98 | a successful `setField` keeps every field valid and the ISBN text equal to the ISBN's text |
| Metadata.SetFieldFrame | bouffiouxj/src/main/java/org/helmo/gbeditor/models/BookMetadata.java:66-83 | `setField` changes only its own field (and the ISBN for the ISBN text); it succeeds exactly when that field's check passes, and the matricule always gives FieldNotValidException |
| Metadata.SetFieldStores | bouffiouxj/src/main/java/org/helmo/gbeditor/models/BookMetadata.java:66-98 | `setField` stores the title or summary as given, a missing image path as the empty text, and the new ISBN's canonical text |
| Metadata.SetCanonicalIsbn | bouffiouxj/src/main/java/org/helmo/gbeditor/models/BookMetadata.java:85-88 | setting the text of a valid ISBN stores exactly that ISBN and that text |
| Metadata.SameIsbnText | bouffiouxj/src/main/java/org/helmo/gbeditor/models/BookMetadata.java:118-128 | two metadata are equal exactly when their stored ISBN texts are |
| Metadata.SetFieldKeepsEquality | bouffiouxj/src/main/java/org/helmo/gbeditor/models/BookMetadata.java:118-128 | setting a field other than the ISBN keeps the metadata equal to what it was |
| Metadata.BookMetadata.Create | bouffiouxj/src/main/java/org/helmo/gbeditor/models/BookMetadata.java:36-44 | the constructor, filling the map field by field, fails or builds a fresh object as Construct says, and the object satisfies the invariant |
| Metadata.BookMetadata.GetField | bouffiouxj/src/main/java/org/helmo/gbeditor/models/BookMetadata.java:52-54 | `getField` gives the stored text, or nothing for a field not set; a valid metadata has every field, and its ISBN field is the ISBN's `toString` |
| Metadata.BookMetadata.SetTitle | bouffiouxj/src/main/java/org/helmo/gbeditor/models/BookMetadata.java:95-104 | a valid title replaces the stored one and nothing else; an invalid one changes nothing and gives IllegalBookTitleException |
| Metadata.BookMetadata.SetSummary | bouffiouxj/src/main/java/org/helmo/gbeditor/models/BookMetadata.java:90-93 | a valid summary replaces the stored one and nothing else; an invalid one changes nothing and gives IllegalBookSummaryException |
| Metadata.BookMetadata.SetIsbn | bouffiouxj/src/main/java/org/helmo/gbeditor/models/BookMetadata.java:85-88 | the ISBN and its text change together as SetFieldSpec says; on failure nothing changes |
| Metadata.BookMetadata.SetField | bouffiouxj/src/main/java/org/helmo/gbeditor/models/BookMetadata.java:66-83 | the object changes as SetFieldSpec says, is untouched on failure, and keeps the invariant |
| Metadata.BookMetadata.Equals | bouffiouxj/src/main/java/org/helmo/gbeditor/models/BookMetadata.java:118-128 | `equals` holds exactly when the ISBNs are equal; the identity shortcut changes nothing |
| Books.TitleLengthValid | bouffiouxj/src/main/java/org/helmo/gbeditor/models/Book.java:70-74 | a title that passes the book's check has 1 to 150 characters, and every title the metadata accepts passes it |
| Books.SummaryLengthValid | bouffiouxj/src/main/java/org/helmo/gbeditor/models/Book.java:86-90 | a summary that passes the book's check has 1 to 500 characters, and every summary the metadata accepts passes it |
| Books.Construct | bouffiouxj/src/main/java/org/helmo/gbeditor/models/Book.java:50-58 | a built book has a title and summary of valid length and a valid ISBN |
| Books.ConstructErrors | bouffiouxj/src/main/java/org/helmo/gbeditor/models/Book.java:50-58 | construction fails exactly when a check does, reporting the title, then the summary, then the ISBN, and otherwise keeps what it was given |
| Books.BlankTitleAccepted | bouffiouxj/src/main/java/org/helmo/gbeditor/models/Book.java:70-74 | a title of spaces passes the book's check but not the metadata's |
| Books.ThreeArgumentIsbn | bouffiouxj/src/main/java/org/helmo/gbeditor/models/Book.java:25-27 | the three-argument constructor always generates the ISBN, in group 2 with the author's matricule and an empty image path |
| Books.CanonicalIsbnKept | bouffiouxj/src/main/java/org/helmo/gbeditor/models/Book.java:55 | given the text of a valid ISBN, the book has exactly that ISBN |
| Books.SameBookIsSameIsbn | bouffiouxj/src/main/java/org/helmo/gbeditor/models/Book.java:128-138 | comparing ISBN texts is comparing ISBNs, whatever the title, summary and author |
| Books.Book.CreateWithImage | bouffiouxj/src/main/java/org/helmo/gbeditor/models/Book.java:50-58 | the five-argument constructor fails or builds a fresh book as Construct says |
| Books.Book.CreateWithIsbn | bouffiouxj/src/main/java/org/helmo/gbeditor/models/Book.java:37-39 | the four-argument constructor is the five-argument one with an empty image path |
| Books.Book.Create | bouffiouxj/src/main/java/org/helmo/gbeditor/models/Book.java:25-27 | the three-argument constructor is the five-argument one with empty ISBN text and image path |
| Books.Book.SetTitle | bouffiouxj/src/main/java/org/helmo/gbeditor/models/Book.java:65-74 | a title of 1-150 UTF-16 units replaces the old one and nothing else; otherwise nothing changes and it gives IllegalBookTitleException |
| Books.Book.SetSummary | bouffiouxj/src/main/java/org/helmo/gbeditor/models/Book.java:81-90 | a summary of 1-500 UTF-16 units replaces the old one and nothing else; otherwise nothing changes and it gives IllegalBookSummaryException |
| Books.Book.GetIsbn | bouffiouxj/src/main/java/org/helmo/gbeditor/models/Book.java:115-117 | the ISBN text has 13 characters and parses back to the book's ISBN |
| Books.Book.Equals | bouffiouxj/src/main/java/org/helmo/gbeditor/models/Book.java:128-138 | `equals` holds exactly when the ISBN texts are equal |
| Pages.Page.constructor | bouffiouxj/src/main/java/org/helmo/gbeditor/models/Page.java:20-22 | a new page has the given content and no choices |
| Pages.Page.SetContent | bouffiouxj/src/main/java/org/helmo/gbeditor/models/Page.java:38-40 | the content is replaced and the choices are untouched |
| Pages.Page.AddChoice | bouffiouxj/src/main/java/org/helmo/gbeditor/models/Page.java:57-59 | the choice leads to the given page and every other choice keeps its target; the count grows by one only for a new choice |
| Pages.Page.RemoveChoice | bouffiouxj/src/main/java/org/helmo/gbeditor/models/Page.java:66-68 | the choice is gone and every other entry is unchanged; removing an absent choice changes nothing |
| Pages.Page.Equals | bouffiouxj/src/main/java/org/helmo/gbeditor/models/Page.java:76-82 | two pages are equal exactly when the other is not null and has the same content |
| Pages.ChoiceAdded | bouffiouxj/src/main/java/org/helmo/gbeditor/models/Page.java:57-59 | `put` adds its key, and grows the map by one only when the key is new |
| Pages.ChoiceRemoved | bouffiouxj/src/main/java/org/helmo/gbeditor/models/Page.java:66-68 | `remove` takes out its key, shrinking the map by one only when the key is there |
| Pages.RemoveUndoesAdd | bouffiouxj/src/main/java/org/helmo/gbeditor/models/Page.java:57-68 | removing a new choice right after adding it restores the map |
| Pages.EqualsReflexiveSymmetric | bouffiouxj/src/main/java/org/helmo/gbeditor/models/Page.java:76-82 | page equality is reflexive and symmetric |

The plain readers (`getContent`, `getChoices`, and the getters of `Author`, `Book` and
`BookMetadata`) are the fields themselves, or `Pages.Page.GetContent` and
`Pages.Page.GetChoices`. The matcher `Regex.Matches` is described by its lemmas:
`MatchLength`, `PlainIsbnMatches`, `DashedShape` and `DigitsMatchDashed`.

## Left out

- `null` is modelled (as `Option`, or `Page?` for a choice's target) where the code tests
  for it: `Author`'s names, and `BookMetadata`'s title, summary, ISBN text, image path
  and author. `Book`'s image path is stored as given, so it is an `Option` too. The other
  nulls the code accepts or trips over are not modelled:
  - `Book`'s author may be `null`: `Book.java:54` stores it unchecked, and line 55 reads
    its matricule only when the ISBN text is blank. `Books.BookState.author` always holds
    an author.
  - A `Page`'s content may be `null`: the constructor and `setContent`
    (`Page.java:20-22`, `38-40`) store it, and only `equals` (`Page.java:81`) dereferences it.
    `Pages.Page.content` is always a string.
  - `addChoice(null, page)` adds a `null` label to the `HashMap` (`Page.java:57-59`);
    the model's labels are strings.
  - A `null` title, summary or ISBN text given to `Book` throws `NullPointerException` at
    `length()` or `isBlank()` (`Book.java:55`, `71`, `87`); the model's arguments are
    strings.
  - A `null` field name given to `setField` throws `NullPointerException` at the
    `switch` (`BookMetadata.java:67`); the model's field names are a datatype.
  - `new ISBN(null)` throws `NullPointerException` in `Pattern.matches`
    (`ISBN.java:42`). `IsbnCodec.Parse` takes a string, so this case is not modelled.
- `Math.random()` is a parameter: a real number in [0, 1). The rounding of `double`
  multiplication is not modelled.
- `Pages.Page.GetChoices` returns the map as a value. In Java, `getChoices` hands out
  the page's own `HashMap`, so a caller can change a page's choices through it. That
  aliasing is not modelled.
- `toString` of `Page`, `Book` and `BookMetadata` is not modelled, because it depends
  on `HashMap` and `LinkedHashMap` iteration order. Neither are the `hashCode` methods,
  nor the insertion order of the `LinkedHashMap`.
- `ISBN` has no `equals` method in the code, so Java compares ISBNs by object identity.
  The model compares them as values.
- `Metadata.BookMetadata.Equals` and `Books.Book.Equals` take an object of their own
  class, and `Authors.SameAuthor` takes two authors. The `null` and other-class cases of
  Java's `equals(Object)` (`Author.java:66-71`, `BookMetadata.java`'s and `Book.java`'s
  `equals`) are not modelled.
- Exception messages are not modelled. Only the exception kind is kept, plus the two
  numbers a checksum error carries.
- `ISBN.computeCheckSum(String)` is used by other classes but is not defined in
  `ISBN.java`.
- Page-list management, publishing and page ids are not part of this model:
  `Book.java` and `Page.java` define none of them.
- `Integer.parseInt` is modelled for ASCII digits only. In `ISBN` it only ever sees text
  that has already matched `\d`, which is ASCII-only.
- JavaLang.FormatInt, JavaLang.FormatZeroPadded and IsbnCodec.ToString write ASCII
  digits. `String.format` (`ISBN.java:93`, `BookMetadata.java:40`) writes `%d` and
  `%0Nd` in the digits of the default formatting locale, so the model assumes a locale
  whose zero digit is `0`. Under a locale with other digits, `toString` gives text that
  fails `\d`, and `IsbnCodec.RoundTrip`, `Books.CanonicalIsbnKept` and the parse-back
  clause of `Books.Book.GetIsbn` would not hold. Lengths do not depend on the locale, so
  `Authors.MatriculeFormatValid` (`Author.java:49`) is unaffected.
