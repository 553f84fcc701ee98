/** The errors the two services raise (BusinessException with an ErrorCode),
    plus the NullPointerException that createBook can run into. */
module Errors {

  /** The lookup key a not-found error reports. */
  datatype FieldValue = IdValue(id: int) | TextValue(text: string)

  datatype Error =
      /** RESOURCE_NOT_FOUND, with the resource name, the key's field name and the key */
    | ResourceNotFound(resource: string, field: string, value: FieldValue)
      /** ISBN_DUPLICATE, with the offending isbn */
    | IsbnDuplicate(isbn: string)
      /** PUBLISHER_NAME_DUPLICATE, with the offending name */
    | PublisherNameDuplicate(name: string)
      /** PUBLISHER_HAS_BOOKS, with the publisher's id and the number of books it owns */
    | PublisherHasBooks(publisherId: int, bookCount: nat)
      /** a null detail request dereferenced by createBook */
    | NullPointer
}
