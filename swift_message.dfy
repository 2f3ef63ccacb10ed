/**
  The parts of a Swift Mailer message that the Mailjet transport reads.
  Address maps are PHP arrays from address to display name (null when absent);
  the runtime class of a child part becomes a tag.
 */
module SwiftMessage {
  import opened Optional

  /** Address => display name, in insertion order. */
  type AddressMap = seq<(string, Option<string>)>

  /** `Swift_Attachment`, `Swift_Image`, `Swift_MimePart`, or any other class. */
  datatype Kind = Attachment | Image | MimePart | Other

  /** A child entity: its kind, content id, file name, content type and body. */
  datatype Child = Child(kind: Kind, id: string, filename: string, contentType: string, body: string)

  datatype Message = Message(
    from: AddressMap,
    to: AddressMap,
    cc: AddressMap,
    bcc: AddressMap,
    subject: string,
    body: string,
    children: seq<Child>)
}
