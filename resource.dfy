/** The resource record the handlers build for their replies, and the outcome
    a handler reports in place of an HTTP status. */
module Resources {
  import opened Buckets

  newtype byte = b: int | 0 <= b < 256

  /** An opaque payload, stored and returned byte for byte. */
  type Bytes = seq<byte>

  /** The schema version every built resource carries. */
  const Version: string := "1"

  /** A resource as the handlers build it. `kind` is the record's `Type`
      field ("study", "trial" or "file"); `data` is `None` where the store had
      no payload; an empty `created` is the omitted field. */
  datatype Resource = Resource(
    version: string,
    kind: string,
    id: string,
    url: string,
    data: Option<Bytes>,
    created: string)

  /** What a handler reports: a value, an absent key, or a store error. */
  datatype Reply<+T> = Ok(value: T) | NotFound | StoreError

  /** A resource's URL: the scheme, the server's host, then the id. */
  function Url(host: string, id: string): string
  {
    "http://" + host + id
  }
}
