/** The records the contact list works on, and the optional-value wrapper
    used for the source's `null` / `undefined`. */
module Types {

  /** A value that may be absent (`null` or `undefined` in the source). */
  datatype Option<+T> = None | Some(value: T)

  /** One contact as the data source delivers it: immutable once fetched. */
  datatype Contact = Contact(id: string, firstNameLastName: string, emailAddress: string, jobTitle: string)

  /** One answer of the data source: a page of contacts and the total number it knows of. */
  datatype ContactListResponse = ContactListResponse(contacts: seq<Contact>, total: int)
}
