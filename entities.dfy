/**
 * The records the document service reads and writes: the metadata row of a document,
 * the row of one chunk in the vector store, and the two results it hands back to callers.
 */
module Entities {
  import opened Wrappers

  /** One octet of an uploaded file. */
  newtype Byte = x: int | 0 <= x < 256

  type Bytes = seq<Byte>

  /** A `LocalDateTime`, taken from the clock by the caller; nothing here looks inside it. */
  datatype Timestamp = Timestamp(ticks: int)

  /** A `float[]` produced by the embedding model; its values are never computed on here. */
  type Embedding = seq<real>

  /** The metadata row of one ingested document. A Java `null` field is `None`. */
  datatype DocumentMetadata = DocumentMetadata(
    documentId: string,
    title: string,
    author: Option<string>,
    fileType: string,
    fileSize: nat,
    storagePath: string,
    summary: Option<string>,
    tags: seq<string>,
    uploadedAt: Timestamp,
    uploadedBy: string)

  /** One row of the vector store: a fragment of a document's text and its embedding. */
  datatype DocumentChunk = DocumentChunk(
    id: nat,
    documentId: string,
    content: string,
    embedding: Embedding,
    chunkIndex: nat,
    chunkSize: nat)

  /** One answer of the search tool: chunk text joined with its document's metadata. */
  datatype DocumentSearchResult = DocumentSearchResult(
    title: string,
    author: Option<string>,
    content: string,
    tags: seq<string>,
    uploadedAt: Timestamp)

  /** The answer of the upload tool. */
  datatype DocumentUploadResponse = DocumentUploadResponse(documentId: string, message: string)
}
