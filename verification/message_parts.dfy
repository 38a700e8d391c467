/**
 * A Gmail message payload as the API returns it with `format='full'`: a tree
 * of MIME parts. Keys the source reads with a default are modelled with that
 * default standing for "absent": an empty `data`, `attachmentId` or
 * `filename`, and an empty `parts` list (the source treats a missing `parts`
 * exactly like an empty one).
 */
module MessageParts {

  datatype Header = Header(name: string, value: string)

  /** A part's `body`: inline base64url `data`, or the id of an attachment stored apart. */
  datatype Body = Body(data: string, attachmentId: string)

  datatype Part = Part(
    mimeType: string,
    filename: string,
    headers: seq<Header>,
    body: Body,
    parts: seq<Part>)
}
