/** What the wardrobe service and the image processing service exchange over
    HTTP, as the wardrobe service reads it. */
module Protocol {
  import opened Options

  /** The `data` object of a successful `POST /images/process` reply. */
  datatype ImageData = ImageData(originalUrl: string, processedUrl: string, fileName: string, fileSize: int)

  /** A `POST /images/process` reply: `success` true with its `data`, or
      anything else, with the `error` object's `code` and `message` when they
      are present. */
  datatype ProcessReply =
    | ProcessSucceeded(data: ImageData)
    | ProcessFailed(code: Option<string>, message: Option<string>)

  /** The outcome of one outbound `httpx` call: the reply, or an
      `httpx.RequestError` (connection refused, timeout, ...) with its text. */
  datatype Call<T> = Answered(reply: T) | RequestError(detail: string)

  /** An uploaded file: its client-supplied name, possibly absent or empty,
      and its bytes. */
  datatype Upload = Upload(filename: Option<string>, content: seq<bv8>)

  /** A request the wardrobe service sends to the image service. */
  datatype ImageRequest =
    | ProcessRequest(image: Upload)
    | DeleteRequest(filename: string, kind: string)
}
