/** The parts of the `cloud_storage` crate the library relies on, as data.
    The crate's network calls are a `Backend` record of total functions, so
    every storage interaction in the model is a pure function of a backend
    state. */
module CloudStorage {
  import opened Wrappers
  import opened Octets

  /** Reasons a Google error response can carry; only `NotFound` is inspected. */
  datatype Reason = NotFound | OtherReason(name: string)

  /** `cloud_storage::Error`: a Google error response with its reasons, or
      any other failure (transport, decoding, ...). */
  datatype StorageError = Google(reasons: seq<Reason>) | OtherFailure(description: string)

  /** `errors_has_reason`: some error of a Google response carries `reason`. */
  predicate HasReason(e: StorageError, reason: Reason) {
    e.Google? && reason in e.reasons
  }

  /** The fields of `Object` the library reads. */
  datatype StoredObject = StoredObject(bucket: string, name: string)

  /** One page of a listing (`ObjectList`). */
  datatype ObjectList = ObjectList(items: seq<StoredObject>)

  /** `ListRequest`; every field is optional. */
  datatype ListRequest = ListRequest(
    delimiter: Option<string>,
    endOffset: Option<string>,
    includeTrailingDelimiter: Option<bool>,
    maxResults: Option<nat>,
    pageToken: Option<string>,
    prefix: Option<string>,
    projection: Option<string>,
    startOffset: Option<string>,
    versions: Option<bool>)

  /** The content type handed to `Object::create`, passed through untouched. */
  datatype MimeType = MimeType(essence: string)

  /** One state of the storage service, seen through the crate's calls:
      `Object::read`, `Object::list` (all pages collected, or the first
      error), `Object::download`, `Object::create` and `Object::delete`. */
  datatype Backend = Backend(
    read: (string, string) -> Result<StoredObject, StorageError>,
    list: (string, ListRequest) -> Result<seq<ObjectList>, StorageError>,
    download: (string, string) -> Result<Bytes, StorageError>,
    create: (string, Bytes, string, MimeType) -> Result<StoredObject, StorageError>,
    delete: (string, string) -> Result<(), StorageError>)
}
