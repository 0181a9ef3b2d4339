/** The record shapes shared by the routes and the admin page
    (src/types/index.ts). Dates are abstract integer timestamps. */
module Types {
  import opened Wrappers

  /** A stored certificate. `id` is generated by the store; `createdAt` and
      `updatedAt` are stamped by it. */
  datatype Certificate = Certificate(
    id: nat,
    dni: string,
    fullName: string,
    course: string,
    company: string,
    issueDate: int,
    expiryDate: int,
    pdfUrl: Option<string>,
    isActive: bool,
    createdAt: int,
    updatedAt: int)

  /** The JSON body of a create request. A field the client left out of
      the body is `None`. */
  datatype CertificateForm = CertificateForm(
    dni: Option<string>,
    fullName: Option<string>,
    course: Option<string>,
    company: Option<string>,
    issueDate: Option<string>,
    expiryDate: Option<string>)

  /** A file picked in the browser: its declared MIME type and its size in bytes. */
  datatype File = File(name: string, mimeType: string, size: nat)
}
