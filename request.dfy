/** What a `POST /add-project` request carries into the handler. */
module Request {

  /** The text fields of the multipart form. A field the client left out is
      modelled as the empty string, which the button builders treat the same
      way (both are falsy in JavaScript). */
  datatype Form = Form(
    title: string,
    shortDesc: string,
    longDesc: string,
    htmlFile: string,
    github: string,
    itch: string)

  /** The uploaded image; the handler's logic uses only its original name. */
  datatype Upload = Upload(originalName: string)
}
