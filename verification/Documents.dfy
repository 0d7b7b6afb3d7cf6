/** The entities of the document store. */
module Documents {
  import opened Collections

  /** Identifiers are random UUIDs: fresh tokens that are only ever compared. */
  datatype DocumentId = DocumentId(uuid: nat)

  datatype UploadId = UploadId(uuid: nat)

  datatype Format = Json | Yaml

  /** What a document's metadata records once and for all. */
  datatype Info = Info(
    id: DocumentId,
    name: string,
    version: string,
    title: string,
    filename: string,
    format: Format,
    size: nat,
    checksum: string,
    tags: seq<string>,
    organization: string,
    owner: string,
    description: string)

  /** A metadata record: version links are assigned later, by whoever holds a reference to it. */
  class DocumentMetadata {
    const info: Info
    var previousVersions: seq<DocumentId>
    var isLatest: bool

    constructor (info: Info)
      ensures this.info == info && previousVersions == [] && isLatest
    {
      this.info := info;
      previousVersions := [];
      isLatest := true;
    }
  }

  /** A parsed document: what the store reads from it, and the rest as text. */
  datatype Parsed = Parsed(isOpenApi: bool, title: string, apiVersion: string, body: string)

  datatype StoredDocument = StoredDocument(id: DocumentId, content: Parsed, metadata: DocumentMetadata)

  datatype Options = Options(
    filename: string,
    name: string,
    tags: Option<seq<string>>,
    owner: string,
    organization: string,
    description: string,
    contextBytes: nat)

  datatype StoreError = QuotaExceeded | ParseFailed | NotOpenApi | ContextTooLarge | NotFound

  datatype Upload = Upload(uploadId: UploadId, documentId: DocumentId, uploadedAt: int, filename: string, size: nat)

  datatype StoreResult = StoreResult(
    documentId: DocumentId,
    uploadId: UploadId,
    created: bool,
    uploadCount: nat,
    existingSince: Option<int>)
}
