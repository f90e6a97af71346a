/** The shared record and option types of the converter (lib/types.ts). */
module Types {
  import opened Wrappers
  import opened Browser

  /** Lifecycle of one entry in the batch list. */
  datatype Status = Queued | Processing | Done | Error

  /** The three output formats offered. */
  datatype OutputFormat = Jpg | Png | Webp

  /** The format's canonical extension, which is also its name in the options. */
  function FormatName(f: OutputFormat): (name: string)
    ensures |name| > 0 && '.' !in name && '/' !in name
  {
    match f
    case Jpg => "jpg"
    case Png => "png"
    case Webp => "webp"
  }

  /** User-facing options. `quality` is any number at the type level. */
  datatype ConversionOptions = ConversionOptions(
    format: OutputFormat,
    quality: real,
    maxW: Option<real>,
    maxH: Option<real>)

  /** The options the converter starts with: JPEG at quality 0.85, no bounds. */
  const DefaultOptions := ConversionOptions(Jpg, 0.85, None, None)

  /** One entry of the batch list. */
  datatype ConversionFile = ConversionFile(
    id: string,
    name: string,
    file: InputFile,
    status: Status,
    originalKB: int,
    convertedKB: Option<int>,
    outURL: Option<Url>,
    error: Option<string>,
    percent: Option<int>)

  /** The lifecycle invariant of an entry: the converted size and the output
      URL are present exactly when the entry is done, and an error message is
      present exactly when it failed. */
  predicate EntryOk(e: ConversionFile) {
    && (e.outURL.Some? <==> e.status == Done)
    && (e.convertedKB.Some? <==> e.status == Done)
    && (e.error.Some? <==> e.status == Error)
  }

  /** The fixed message shown for any failed conversion. */
  const ConversionFailed := "Conversion failed"
}
