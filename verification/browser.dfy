/** Stand-ins for the browser objects the core only passes around: blobs and
    files are opaque tokens with a byte size, object URLs are fresh tokens, and
    a thrown value is either an `Error` (with its message) or anything else. */
module Browser {

  /** An opaque blob; `size` is its byte count (`Blob.size`). */
  datatype Blob = Blob(token: nat, size: nat)

  /** A `File`: a blob with a name and a declared media type (`File.type`). */
  datatype InputFile = InputFile(name: string, mime: string, content: Blob)
  {
    /** `File.size`. */
    function Size(): nat { content.size }
  }

  /** An object URL created by `URL.createObjectURL`, as an abstract token. */
  type Url = nat

  /** A value thrown or rejected with: an `Error` instance or something else. */
  datatype Thrown = JsError(message: string) | NonError
}
