/**
 * The document service: the upload tool, which stores a file, its metadata row and one
 * vector-store row per text fragment, and the search tool, which joins the rows the
 * vector store ranks for a query with their documents' metadata.
 *
 * The three stores are fields of the service object: the object store bucket as a map
 * from object path to bytes, the metadata table as a map from documentId to row (the
 * column is unique), and the chunk table as a sequence of rows in insertion order with
 * an auto-increment id. The embedding model and the extractors are fixed functions;
 * what the environment decides (the fresh UUID, the clock, the principal, the granted
 * scopes, the decoded bytes, which store calls fail, the database's ranking) arrives as
 * parameters.
 */
module DocumentService {
  import opened Wrappers
  import opened Entities
  import opened JavaText
  import opened DocumentText
  import opened Extraction

  /** Authority the upload tool demands. */
  const WriteScope := "SCOPE_mcp:write"
  /** Authority the search tool demands. */
  const ReadScope := "SCOPE_mcp:read"
  /** Bucket that receives uploaded files. */
  const Bucket := "documents"
  /** Number of results when the caller gives no limit. */
  const DefaultLimit := 5
  /** Message of a successful upload. */
  const UploadedMessage := "Uploaded successfully"

  /** Why a tool call was aborted; every kind surfaces to the caller as an exception. */
  datatype ToolError =
    | AccessDenied
    | InvalidBase64
    | ObjectStoreFailed
    | MetadataSaveFailed
    | ChunkEmbeddingFailed(chunkIndex: nat)
    | ChunkInsertFailed(chunkIndex: nat)
    | QueryEmbeddingFailed
    | NegativeLimit
    | MetadataNotFound(documentId: string)

  /** Which store calls of one upload throw: the object put, the metadata save, the insert of chunk k. */
  datatype StoreFaults = StoreFaults(putFails: bool, saveFails: bool, insertFails: nat -> bool)

  /** The principal's name, or "system" when the security context holds no authentication. */
  function CurrentUser(principal: Option<string>): (user: string)
    ensures principal.Some? ==> user == principal.value
    ensures principal.None? ==> user == "system"
  {
    principal.GetOr("system")
  }

  /** Object key of an upload inside the bucket. */
  function ObjectPath(documentId: string, filename: string): string {
    documentId + "/" + filename
  }

  /** The metadata row a successful upload saves. */
  function NewMetadata(documentId: string, filename: string, content: Bytes, tags: Option<string>,
                       now: Timestamp, principal: Option<string>): (m: DocumentMetadata)
    ensures m.documentId == documentId && m.title == filename && m.fileSize == |content|
    ensures m.storagePath == "documents/" + documentId + "/" + filename
    ensures m.fileType == GetExtension(filename) && '.' !in m.fileType
    ensures m.author.None? && m.summary.None? && m.uploadedAt == now
    ensures principal.Some? ==> m.uploadedBy == principal.value
    ensures principal.None? ==> m.uploadedBy == "system"
    ensures tags.None? || tags.value == "" ==> m.tags == []
    ensures m.tags == ParseTags(tags)
  {
    DocumentMetadata(
      documentId := documentId,
      title := filename,
      author := None,
      fileType := GetExtension(filename),
      fileSize := |content|,
      storagePath := Bucket + "/" + ObjectPath(documentId, filename),
      summary := None,
      tags := ParseTags(tags),
      uploadedAt := now,
      uploadedBy := CurrentUser(principal))
  }

  /**
   * `newRows` are the rows inserted for `fragments` of document `documentId`: one per
   * fragment, in order, with consecutive ids from `firstId`, chunkIndex equal to the
   * position, chunkSize equal to the fragment's `length()` in UTF-16 code units and the
   * fragment's embedding.
   */
  ghost predicate IsChunkRowsFor(newRows: seq<DocumentChunk>, documentId: string, fragments: seq<string>,
                                 firstId: nat, embed: string -> Option<Embedding>)
  {
    && |newRows| == |fragments|
    && forall k :: 0 <= k < |newRows| ==>
         && newRows[k].id == firstId + k
         && newRows[k].documentId == documentId
         && newRows[k].content == fragments[k]
         && embed(fragments[k]) == Some(newRows[k].embedding)
         && newRows[k].chunkIndex == k
         && newRows[k].chunkSize == Utf16Length(fragments[k])
  }

  /** Inserting the row of the next fragment extends the rows of an upload by one. */
  lemma ChunkRowsSnoc(newRows: seq<DocumentChunk>, documentId: string, fragments: seq<string>, firstId: nat,
                      embed: string -> Option<Embedding>, fragment: string, embedding: Embedding)
    requires IsChunkRowsFor(newRows, documentId, fragments, firstId, embed)
    requires embed(fragment) == Some(embedding)
    ensures IsChunkRowsFor(newRows + [DocumentChunk(firstId + |fragments|, documentId, fragment, embedding,
                                                    |fragments|, Utf16Length(fragment))],
                           documentId, fragments + [fragment], firstId, embed)
  {
  }

  /** The rows of document `documentId`, in store order. */
  function RowsOf(rows: seq<DocumentChunk>, documentId: string): (r: seq<DocumentChunk>)
    ensures |r| <= |rows|
  {
    if rows == [] then []
    else (if rows[0].documentId == documentId then [rows[0]] else []) + RowsOf(rows[1..], documentId)
  }

  lemma {:induction false} RowsOfAppend(a: seq<DocumentChunk>, b: seq<DocumentChunk>, documentId: string)
    ensures RowsOf(a + b, documentId) == RowsOf(a, documentId) + RowsOf(b, documentId)
  {
    if a == [] {
      assert a + b == b;
    } else {
      var head := if a[0].documentId == documentId then [a[0]] else [];
      assert (a + b)[0] == a[0] && (a + b)[1..] == a[1..] + b;
      assert RowsOf(a + b, documentId) == head + RowsOf(a[1..] + b, documentId);
      RowsOfAppend(a[1..], b, documentId);
    }
  }

  lemma {:induction false} RowsOfNone(rows: seq<DocumentChunk>, documentId: string)
    requires forall k :: 0 <= k < |rows| ==> rows[k].documentId != documentId
    ensures RowsOf(rows, documentId) == []
  {
    if rows != [] {
      RowsOfNone(rows[1..], documentId);
    }
  }

  lemma {:induction false} RowsOfAll(rows: seq<DocumentChunk>, documentId: string)
    requires forall k :: 0 <= k < |rows| ==> rows[k].documentId == documentId
    ensures RowsOf(rows, documentId) == rows
  {
    if rows != [] {
      RowsOfAll(rows[1..], documentId);
      assert rows == [rows[0]] + rows[1..];
    }
  }

  /**
   * After the rows of one upload are appended to a store that held none of its document,
   * the document's rows are exactly the new ones, and their chunkIndex values are 0..n-1.
   */
  lemma ChunkIndexesContiguous(before: seq<DocumentChunk>, newRows: seq<DocumentChunk>, documentId: string,
                               fragments: seq<string>, firstId: nat, embed: string -> Option<Embedding>)
    requires forall k :: 0 <= k < |before| ==> before[k].documentId != documentId
    requires IsChunkRowsFor(newRows, documentId, fragments, firstId, embed)
    ensures RowsOf(before + newRows, documentId) == newRows
    ensures |RowsOf(before + newRows, documentId)| == |fragments|
    ensures forall k :: 0 <= k < |newRows| ==> RowsOf(before + newRows, documentId)[k].chunkIndex == k
  {
    RowsOfAppend(before, newRows, documentId);
    RowsOfNone(before, documentId);
    RowsOfAll(newRows, documentId);
  }

  /** The position of the first fragment, from `from` on, whose embedding or insert fails; |fragments| if none. */
  function FirstFailure(fragments: seq<string>, embed: string -> Option<Embedding>, insertFails: nat -> bool,
                        from: nat): (f: nat)
    requires from <= |fragments|
    ensures from <= f <= |fragments|
    ensures forall k :: from <= k < f ==> embed(fragments[k]).Some? && !insertFails(k)
    ensures f < |fragments| ==> embed(fragments[f]).None? || insertFails(f)
    decreases |fragments| - from
  {
    if from == |fragments| then from
    else if embed(fragments[from]).None? || insertFails(from) then from
    else FirstFailure(fragments, embed, insertFails, from + 1)
  }

  /** One search answer: the chunk's text with its document's title, author, tags and upload time. */
  function Joined(chunk: DocumentChunk, meta: DocumentMetadata): DocumentSearchResult {
    DocumentSearchResult(meta.title, meta.author, chunk.content, meta.tags, meta.uploadedAt)
  }

  /**
   * The metadata join of the search tool: one answer per hit, in order; the first hit
   * whose document has no metadata row aborts the whole search.
   */
  function JoinResults(hits: seq<DocumentChunk>, metadata: map<string, DocumentMetadata>)
    : (r: Result<seq<DocumentSearchResult>, ToolError>)
    ensures r.Ok? <==> forall k :: 0 <= k < |hits| ==> hits[k].documentId in metadata
    ensures r.Ok? ==> |r.value| == |hits|
    ensures r.Ok? ==> forall k :: 0 <= k < |hits| ==>
              r.value[k] == Joined(hits[k], metadata[hits[k].documentId])
    ensures r.Err? ==> exists m :: 0 <= m < |hits| && r.error == MetadataNotFound(hits[m].documentId)
                                   && hits[m].documentId !in metadata
                                   && forall k :: 0 <= k < m ==> hits[k].documentId in metadata
  {
    if hits == [] then Ok([])
    else if hits[0].documentId !in metadata then Err(MetadataNotFound(hits[0].documentId))
    else
      var first := Joined(hits[0], metadata[hits[0].documentId]);
      match JoinResults(hits[1..], metadata)
      case Ok(rest) => Ok([first] + rest)
      case Err(e) => Err(e)
  }

  /** `order` is a ranking of a store of `n` rows: distinct row positions. */
  predicate IsRanking(order: seq<nat>, n: nat) {
    && (forall k :: 0 <= k < |order| ==> order[k] < n)
    && (forall j, k :: 0 <= j < k < |order| ==> order[j] != order[k])
  }

  function Min(a: nat, b: nat): nat {
    if a <= b then a else b
  }

  class DocumentTools {
    /** Bucket "documents" of the object store: object path to content. */
    var objects: map<string, Bytes>
    /** Metadata table, keyed by the unique documentId column. */
    var metadata: map<string, DocumentMetadata>
    /** Chunk table of the vector store, in insertion order. */
    var rows: seq<DocumentChunk>
    /** Next value of the chunk table's id sequence. */
    var nextChunkId: nat
    /** The embedding model: a vector for a text, or `None` when the call fails. */
    const embed: string -> Option<Embedding>
    const extractors: Extractors

    /** Store invariant: metadata rows sit under their own documentId; chunk ids increase
        in insertion order and stay below the sequence's next value. */
    ghost predicate Valid()
      reads this
    {
      && (forall id :: id in metadata ==> metadata[id].documentId == id)
      && (forall k :: 0 <= k < |rows| ==> rows[k].id < nextChunkId)
      && (forall j, k :: 0 <= j < k < |rows| ==> rows[j].id < rows[k].id)
    }

    /** Every chunk row belongs to a document that has a metadata row. */
    ghost predicate NoOrphans()
      reads this
    {
      forall k :: 0 <= k < |rows| ==> rows[k].documentId in metadata
    }

    constructor (embed: string -> Option<Embedding>, extractors: Extractors)
      ensures Valid() && NoOrphans()
      ensures objects == map[] && metadata == map[] && rows == [] && nextChunkId == 1
      ensures this.embed == embed && this.extractors == extractors
    {
      this.embed := embed;
      this.extractors := extractors;
      objects := map[];
      metadata := map[];
      rows := [];
      nextChunkId := 1;
    }

    /** The fragments an upload of `content` under `filename` is cut into. */
    function Fragments(content: Bytes, filename: string): seq<string> {
      Chunks(ExtractText(content, filename, extractors), ChunkWords)
    }

    /** `saveToMinIO`: put the content at `<documentId>/<filename>` and return its storage path. */
    method SaveToObjectStore(documentId: string, filename: string, content: Bytes, fails: bool)
      returns (storagePath: Option<string>)
      modifies this`objects
      ensures fails ==> storagePath == None && objects == old(objects)
      ensures !fails ==> storagePath == Some(Bucket + "/" + ObjectPath(documentId, filename))
      ensures !fails ==> objects == old(objects)[ObjectPath(documentId, filename) := content]
    {
      if fails {
        return None;
      }
      var objectPath := documentId + "/" + filename;
      objects := objects[objectPath := content];
      storagePath := Some(Bucket + "/" + objectPath);
    }

    /** `insertChunk`: append one row; the table assigns the next id. */
    method InsertChunk(documentId: string, content: string, embedding: Embedding, chunkIndex: nat, chunkSize: nat)
      requires Valid()
      modifies this`rows, this`nextChunkId
      ensures Valid()
      ensures rows == old(rows) + [DocumentChunk(old(nextChunkId), documentId, content, embedding, chunkIndex, chunkSize)]
      ensures nextChunkId == old(nextChunkId) + 1
    {
      rows := rows + [DocumentChunk(nextChunkId, documentId, content, embedding, chunkIndex, chunkSize)];
      nextChunkId := nextChunkId + 1;
    }

    /**
     * The chunk loop of `uploadDocument`: for each fragment in order, embed it and insert its
     * row. Stops at the first failing embedding or insert and reports it; the rows inserted
     * before it stay.
     */
    method StoreChunks(documentId: string, chunks: seq<string>, insertFails: nat -> bool)
      returns (failure: Option<ToolError>)
      requires Valid()
      modifies this`rows, this`nextChunkId
      ensures Valid()
      ensures documentId in metadata && old(NoOrphans()) ==> NoOrphans()
      ensures var f := FirstFailure(chunks, embed, insertFails, 0);
              && |rows| == |old(rows)| + f
              && rows[..|old(rows)|] == old(rows)
              && IsChunkRowsFor(rows[|old(rows)|..], documentId, chunks[..f], old(nextChunkId), embed)
              && nextChunkId == old(nextChunkId) + f
              && failure == (if f == |chunks| then None
                             else if embed(chunks[f]).None? then Some(ChunkEmbeddingFailed(f))
                             else Some(ChunkInsertFailed(f)))
      ensures (forall k :: 0 <= k < |old(rows)| ==> old(rows)[k].documentId != documentId) && failure.None? ==>
                && |RowsOf(rows, documentId)| == |chunks|
                && forall k :: 0 <= k < |chunks| ==> RowsOf(rows, documentId)[k].chunkIndex == k
    {
      ghost var firstId := nextChunkId;
      ghost var before := rows;
      var i := 0;
      while i < |chunks|
        invariant 0 <= i <= |chunks|
        invariant Valid()
        invariant documentId in metadata && old(NoOrphans()) ==> NoOrphans()
        invariant forall k :: 0 <= k < i ==> embed(chunks[k]).Some? && !insertFails(k)
        invariant |rows| == |before| + i && rows[..|before|] == before
        invariant IsChunkRowsFor(rows[|before|..], documentId, chunks[..i], firstId, embed)
        invariant nextChunkId == firstId + i
      {
        var embedding := embed(chunks[i]);
        if embedding.None? {
          return Some(ChunkEmbeddingFailed(i));
        }
        if insertFails(i) {
          return Some(ChunkInsertFailed(i));
        }
        ghost var prior := rows;
        InsertChunk(documentId, chunks[i], embedding.value, i, Utf16Length(chunks[i]));
        assert rows[|before|..] == prior[|before|..] + [rows[|rows| - 1]];
        assert chunks[..i + 1] == chunks[..i] + [chunks[i]];
        ChunkRowsSnoc(prior[|before|..], documentId, chunks[..i], firstId, embed, chunks[i], embedding.value);
        i := i + 1;
      }
      assert chunks[..i] == chunks;
      if forall k :: 0 <= k < |before| ==> before[k].documentId != documentId {
        assert rows == before + rows[|before|..];
        ChunkIndexesContiguous(before, rows[|before|..], documentId, chunks, firstId, embed);
      }
      return None;
    }

    /**
     * Steps 3 and 4 of `uploadDocument`: save the metadata row, cut the extracted text into
     * fragments and store them. A failing save leaves the chunk table alone; a failing
     * embedding or insert leaves the metadata row and the rows inserted before it.
     */
    method SaveAndIndex(meta: DocumentMetadata, text: string, saveFails: bool, insertFails: nat -> bool)
      returns (r: Result<DocumentUploadResponse, ToolError>)
      requires Valid()
      requires meta.documentId !in metadata
      requires forall k :: 0 <= k < |rows| ==> rows[k].documentId != meta.documentId
      modifies this`metadata, this`rows, this`nextChunkId
      ensures Valid()
      ensures old(NoOrphans()) ==> NoOrphans()
      ensures saveFails ==>
                && r == Err(MetadataSaveFailed)
                && metadata == old(metadata) && rows == old(rows) && nextChunkId == old(nextChunkId)
      ensures !saveFails ==>
                var fragments := Chunks(text, ChunkWords);
                var f := FirstFailure(fragments, embed, insertFails, 0);
                && metadata == old(metadata)[meta.documentId := meta]
                && |rows| == |old(rows)| + f
                && rows[..|old(rows)|] == old(rows)
                && IsChunkRowsFor(rows[|old(rows)|..], meta.documentId, fragments[..f], old(nextChunkId), embed)
                && nextChunkId == old(nextChunkId) + f
                && r == (if f == |fragments| then Ok(DocumentUploadResponse(meta.documentId, UploadedMessage))
                         else if embed(fragments[f]).None? then Err(ChunkEmbeddingFailed(f))
                         else Err(ChunkInsertFailed(f)))
      ensures r.Ok? ==>
                && |metadata| == |old(metadata)| + 1
                && |RowsOf(rows, meta.documentId)| == |Chunks(text, ChunkWords)| >= 1
                && forall k :: 0 <= k < |RowsOf(rows, meta.documentId)| ==>
                     RowsOf(rows, meta.documentId)[k].chunkIndex == k
    {
      if saveFails {
        return Err(MetadataSaveFailed);
      }
      metadata := metadata[meta.documentId := meta];
      var chunks := ChunkText(text, ChunkWords);
      var failure := StoreChunks(meta.documentId, chunks, insertFails);
      if failure.Some? {
        return Err(failure.value);
      }
      return Ok(DocumentUploadResponse(meta.documentId, UploadedMessage));
    }

    /**
     * `uploadDocument`: store the file, save its metadata row, then embed and insert its
     * fragments one by one. The first failure aborts; nothing written before it is undone.
     */
    method UploadDocument(decoded: Option<Bytes>, filename: string, tags: Option<string>,
                          authorities: set<string>, documentId: string, principal: Option<string>,
                          now: Timestamp, faults: StoreFaults)
      returns (r: Result<DocumentUploadResponse, ToolError>)
      requires Valid()
      requires documentId !in metadata
      requires forall k :: 0 <= k < |rows| ==> rows[k].documentId != documentId
      modifies this
      ensures Valid()
      ensures old(NoOrphans()) ==> NoOrphans()
      ensures WriteScope !in authorities ==> r == Err(AccessDenied) && unchanged(this)
      ensures WriteScope in authorities && decoded.None? ==> r == Err(InvalidBase64) && unchanged(this)
      ensures WriteScope in authorities && decoded.Some? && faults.putFails ==>
                r == Err(ObjectStoreFailed) && unchanged(this)
      ensures WriteScope in authorities && decoded.Some? && !faults.putFails ==>
                objects == old(objects)[ObjectPath(documentId, filename) := decoded.value]
      ensures WriteScope in authorities && decoded.Some? && !faults.putFails && faults.saveFails ==>
                && r == Err(MetadataSaveFailed)
                && metadata == old(metadata) && rows == old(rows) && nextChunkId == old(nextChunkId)
      ensures WriteScope in authorities && decoded.Some? && !faults.putFails && !faults.saveFails ==>
                var fragments := Fragments(decoded.value, filename);
                var f := FirstFailure(fragments, embed, faults.insertFails, 0);
                && metadata == old(metadata)[documentId := NewMetadata(documentId, filename, decoded.value, tags, now, principal)]
                && |rows| == |old(rows)| + f
                && rows[..|old(rows)|] == old(rows)
                && IsChunkRowsFor(rows[|old(rows)|..], documentId, fragments[..f], old(nextChunkId), embed)
                && nextChunkId == old(nextChunkId) + f
                && r == (if f == |fragments| then Ok(DocumentUploadResponse(documentId, UploadedMessage))
                         else if embed(fragments[f]).None? then Err(ChunkEmbeddingFailed(f))
                         else Err(ChunkInsertFailed(f)))
      ensures r.Ok? ==>
                && |metadata| == |old(metadata)| + 1
                && |RowsOf(rows, documentId)| == |Fragments(decoded.value, filename)| >= 1
                && forall k :: 0 <= k < |RowsOf(rows, documentId)| ==> RowsOf(rows, documentId)[k].chunkIndex == k
    {
      if WriteScope !in authorities {
        return Err(AccessDenied);
      }
      if decoded.None? {
        return Err(InvalidBase64);
      }
      var content := decoded.value;
      var storagePath := SaveToObjectStore(documentId, filename, content, faults.putFails);
      if storagePath.None? {
        return Err(ObjectStoreFailed);
      }
      assert Valid() && (old(NoOrphans()) ==> NoOrphans());
      var extractedText := ExtractText(content, filename, extractors);
      assert Fragments(content, filename) == Chunks(extractedText, ChunkWords);
      var meta := DocumentMetadata(
        documentId := documentId,
        title := filename,
        author := None,
        fileType := GetExtension(filename),
        fileSize := |content|,
        storagePath := storagePath.value,
        summary := None,
        tags := ParseTags(tags),
        uploadedAt := now,
        uploadedBy := CurrentUser(principal));
      assert meta == NewMetadata(documentId, filename, content, tags, now, principal);
      r := SaveAndIndex(meta, extractedText, faults.saveFails, faults.insertFails);
    }

    /** `semanticSearch`: the rows at the first `limit` positions of the database's ranking. */
    function SemanticSearch(order: seq<nat>, limit: nat): (hits: seq<DocumentChunk>)
      reads this
      requires IsRanking(order, |rows|)
      ensures |hits| == Min(limit, |order|)
      ensures forall k :: 0 <= k < |hits| ==> hits[k] == rows[order[k]]
    {
      var n, stored := Min(limit, |order|), rows;
      seq(n, k requires 0 <= k < n => stored[order[k]])
    }

    /**
     * `searchDocuments`: embed the query, take the store's ranking cut to the limit (5 when
     * none is given) and join each hit with its document's metadata.
     */
    function SearchDocuments(query: string, limit: Option<int>, authorities: set<string>, order: seq<nat>)
      : (r: Result<seq<DocumentSearchResult>, ToolError>)
      reads this
      requires IsRanking(order, |rows|)
      ensures r.Ok? <==>
                && ReadScope in authorities && embed(query).Some? && limit.GetOr(DefaultLimit) >= 0
                && forall k :: 0 <= k < Min(limit.GetOr(DefaultLimit), |order|) ==>
                     rows[order[k]].documentId in metadata
      ensures r.Ok? ==> |r.value| == Min(limit.GetOr(DefaultLimit), |order|)
      ensures r.Ok? ==> forall k :: 0 <= k < |r.value| ==>
                r.value[k] == Joined(rows[order[k]], metadata[rows[order[k]].documentId])
      ensures ReadScope !in authorities ==> r == Err(AccessDenied)
      ensures r.Err? && r.error.MetadataNotFound? ==> exists k :: 0 <= k < |rows| && rows[k].documentId !in metadata
    {
      if ReadScope !in authorities then Err(AccessDenied)
      else if embed(query).None? then Err(QueryEmbeddingFailed)
      else
        var maxResults := limit.GetOr(DefaultLimit);
        if maxResults < 0 then Err(NegativeLimit)
        else JoinResults(SemanticSearch(order, maxResults), metadata)
    }
  }

  /** Searching an empty store with a granted scope, a working embedder and a non-negative limit gives no results. */
  lemma SearchEmptyStore(tools: DocumentTools, query: string, limit: Option<int>, authorities: set<string>)
    requires tools.rows == []
    requires ReadScope in authorities && tools.embed(query).Some? && limit.GetOr(DefaultLimit) >= 0
    ensures tools.SearchDocuments(query, limit, authorities, []) == Ok([])
  {
  }

  /** Without orphan chunks, a search fails only for the scope, the query embedding or the limit. */
  lemma SearchWithoutOrphans(tools: DocumentTools, query: string, limit: Option<int>, authorities: set<string>,
                             order: seq<nat>)
    requires IsRanking(order, |tools.rows|) && tools.NoOrphans()
    requires ReadScope in authorities && tools.embed(query).Some? && limit.GetOr(DefaultLimit) >= 0
    ensures tools.SearchDocuments(query, limit, authorities, order).Ok?
  {
  }
}
