/** The keys of a book's metadata map. */
module BookDataFields {

  datatype BookDataField = Title | Summary | ImagePath | BookIsbn | AuthorMatricule
}

/** The exceptions the domain classes throw, one variant per exception class. */
module Exceptions {
  import opened BookDataFields

  datatype Exception =
    | IllegalIsbnLinguisticIdException
    | IllegalIsbnFormatException
    | IllegalIsbnBookIdException
      /** Carries the checksum found in the input and the one computed from the other parts. */
    | IllegalIsbnChecksumException(given: int, computed: int)
    | NumberFormatException
    | ArrayIndexOutOfBoundsException
    | StringIndexOutOfBoundsException
    | IllegalAuthorNameException
      /** Thrown by the Author constructor for a matricule that is not six characters long. */
    | IllegalArgumentException
    | IllegalAuthorException
    | IllegalBookTitleException
    | IllegalBookSummaryException
    | FieldNotValidException(field: BookDataField)
}
