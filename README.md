# Document ingestion and retrieval service

This project models the document tools of the MCP server (`DocumentTools.java`). Two
tools are exposed to clients of the server:

- **`uploadDocument`** needs the `SCOPE_mcp:write` authority. It decodes the Base64
  content and puts the bytes into the `documents` bucket of the object store. It
  extracts the text: PDFBox for `.pdf`, byte decoding for `.txt`, nothing otherwise.
  It saves one metadata row. It then cuts the text into fragments of at most 1000
  words and inserts one embedded row per fragment into the vector store, in order.
  The first failure aborts the upload, and nothing written before it is undone.
- **`searchDocuments`** needs the `SCOPE_mcp:read` authority. It embeds the query and
  asks the vector store for the nearest rows, 5 when no limit is given. It joins each
  row with its document's metadata row. A row whose document has no metadata row
  fails the whole search.

The model has six modules:

- `Wrappers` (`wrappers.dfy`): `Option` and `Result`.
- `Entities` (`entities.dfy`): the metadata row, the chunk row and the two answers, as
  datatypes.
- `JavaText` (`java_text.dfy`): the `java.lang.String` operations the service uses.
  These are `split("\\s+")`, `split(",")`, `trim()`, `lastIndexOf` and `toLowerCase`,
  each stated on `seq<char>` with its Java corner cases.
- `DocumentText` (`document_text.dfy`): the extension parser, the tag parser and the
  word chunker. The chunker is an imperative method with a loop, proved equal to the
  specification function `Chunks`. That function is defined through `Groups`, the
  split words cut into runs of `chunkSize`.
- `Extraction` (`extraction.dfy`): the extractor dispatch.
- `DocumentService` (`document_tools.dfy`): the service as a class over three stores:
  - the object store, a map from object path to bytes;
  - the metadata table, a map keyed by the unique `documentId`;
  - the chunk table, a sequence of rows in insertion order with an auto-increment id.

  The upload is a chain of methods: `UploadDocument` → `SaveToObjectStore`, then
  `SaveAndIndex` → `ChunkText` + `StoreChunks` → `InsertChunk`. The search is a pure
  function over the stores.

Whatever the environment decides is a parameter:

- the decoded bytes (`None` when the Base64 text is invalid);
- the fresh UUID;
- the clock;
- the authenticated principal;
- the granted authorities;
- which store calls throw (`StoreFaults`);
- the database's distance ranking of the chunk table (`order`).

The embedding model and the two extractors are fixed functions of the service object.
They return `None` where the Java call would throw.

Three behaviours of the code shape the model:

- An unsupported file type, or a failing extractor, yields empty text and the upload
  goes on. It is not an extraction error. The empty text becomes a single empty
  fragment, which is embedded and stored.
- Tags are kept as an ordered list, with duplicates and without trimming.
- Every failure surfaces as an exception, which is a `ToolError` here. Nothing is
  retried or rolled back.

## Model

| member | source | states |
|---|---|---|
| JavaText.Tokens | mcp-server/src/main/java/com/mcp/server/service/DocumentTools.java:193 | every run the split produces is non-empty and free of `\s` characters |
| JavaText.TokensOfWord | mcp-server/src/main/java/com/mcp/server/service/DocumentTools.java:193 | text without whitespace is a single token: runs are maximal |
| JavaText.TokensAtSpace | mcp-server/src/main/java/com/mcp/server/service/DocumentTools.java:193 | a whitespace character always separates the tokens on its two sides, so the tokens are exactly the maximal runs and W is fixed |
| JavaText.SplitOnWhitespace | mcp-server/src/main/java/com/mcp/server/service/DocumentTools.java:193 | `text.split("\\s+")`: no word holds whitespace and only the first word may be empty; its other properties are `SplitKeepsNonSpace`, `SplitEmptyIff` and `SplitLeadingEmpty` |
| JavaText.SplitKeepsNonSpace | mcp-server/src/main/java/com/mcp/server/service/DocumentTools.java:193 | the words of `text.split("\\s+")`, concatenated, are exactly the non-whitespace characters of the text, in order: nothing lost, duplicated or moved |
| JavaText.SplitEmptyIff | mcp-server/src/main/java/com/mcp/server/service/DocumentTools.java:193 | the split yields no word exactly when the text is non-empty and all whitespace |
| JavaText.SplitLeadingEmpty | mcp-server/src/main/java/com/mcp/server/service/DocumentTools.java:193 | the first word is empty exactly when the text is empty, or starts with whitespace and is not whitespace only |
| JavaText.Pieces | mcp-server/src/main/java/com/mcp/server/service/DocumentTools.java:71 | the comma split always has at least one piece and no piece contains the separator |
| JavaText.DropTrailingEmpty | mcp-server/src/main/java/com/mcp/server/service/DocumentTools.java:71 | `split` keeps a prefix of the pieces that does not end with an empty piece, and drops only empty pieces |
| JavaText.PiecesJoin | mcp-server/src/main/java/com/mcp/server/service/DocumentTools.java:71 | joining the pieces with the separator gives back the original text |
| JavaText.PiecesLast | mcp-server/src/main/java/com/mcp/server/service/DocumentTools.java:71 | the last piece is empty exactly when the text is empty or ends with the separator |
| JavaText.SplitOnChar | mcp-server/src/main/java/com/mcp/server/service/DocumentTools.java:71 | `tags.split(",")`: no piece holds the separator, and for non-empty text the list is empty or ends with a non-empty piece |
| JavaText.StripTrailing | mcp-server/src/main/java/com/mcp/server/service/DocumentTools.java:71 | the text without its trailing separators: a prefix, not ending in the separator, with only separators removed |
| JavaText.SplitOnCharJoin | mcp-server/src/main/java/com/mcp/server/service/DocumentTools.java:71 | the split pieces joined with the separator are the text without its trailing separators, for every text; with `SplitOnChar`'s contract this fixes the pieces |
| JavaText.TrimStart | mcp-server/src/main/java/com/mcp/server/service/DocumentTools.java:200 | `trim()` removes a prefix made only of characters at or below U+0020, and the result starts with a character above U+0020 |
| JavaText.TrimEnd | mcp-server/src/main/java/com/mcp/server/service/DocumentTools.java:209 | `trim()` removes a suffix made only of characters at or below U+0020, and the result ends above U+0020 |
| JavaText.Trim | mcp-server/src/main/java/com/mcp/server/service/DocumentTools.java:200 | `trim()`: the result is empty or starts and ends with characters above U+0020 |
| JavaText.TrimSlice | mcp-server/src/main/java/com/mcp/server/service/DocumentTools.java:200 | `trim()` keeps one middle slice of the text and removes only characters at or below U+0020 on both sides |
| JavaText.Utf16Length | mcp-server/src/main/java/com/mcp/server/service/DocumentTools.java:87 | `length()` counts UTF-16 code units: one for a character up to U+FFFF, two for one above it (a surrogate pair); between the character count and twice it |
| JavaText.Utf16LengthAppend | mcp-server/src/main/java/com/mcp/server/service/DocumentTools.java:87 | `length()` of a concatenation is the sum of the lengths; with the one-character values this fixes `length()` for every text |
| JavaText.Utf16LengthIsLength | mcp-server/src/main/java/com/mcp/server/service/DocumentTools.java:87 | `length()` equals the character count exactly when no character lies above U+FFFF |
| JavaText.LastIndexOf | mcp-server/src/main/java/com/mcp/server/service/DocumentTools.java:187 | the result is -1 or an index holding the character, and no later index holds it |
| JavaText.ToLower | mcp-server/src/main/java/com/mcp/server/service/DocumentTools.java:168 | `toLowerCase()` on ASCII letters: same length, no upper-case ASCII letter left, equal to the input ignoring case |
| JavaText.ToLowerEqualsIff | mcp-server/src/main/java/com/mcp/server/service/DocumentTools.java:168-174 | comparing the lower-cased extension with a lower-case literal is case-insensitive equality, in both directions |
| DocumentText.GetExtension | mcp-server/src/main/java/com/mcp/server/service/DocumentTools.java:186-189 | the extension is a suffix of the file name without '.'; when a dot sits after index 0 it is the text after the last dot, otherwise "" |
| DocumentText.ParseTags | mcp-server/src/main/java/com/mcp/server/service/DocumentTools.java:70-74 | a missing or empty tags argument gives an empty list; no tag contains a comma; the list is empty or ends with a non-empty tag |
| DocumentText.TagsRoundTrip | mcp-server/src/main/java/com/mcp/server/service/DocumentTools.java:70-74 | for every tags text, the tags joined by commas give the text back without its trailing commas: the tags are the comma-separated pieces in order, untrimmed, trailing empty ones dropped ("a,b," gives "a", "b") |
| DocumentText.TagsEmptyIff | mcp-server/src/main/java/com/mcp/server/service/DocumentTools.java:70-74 | a non-empty tags text yields no tag exactly when it consists of commas only |
| DocumentText.RenderPlainWords | mcp-server/src/main/java/com/mcp/server/service/DocumentTools.java:200-209 | a fragment built from non-empty words whose characters are all above U+0020 is those words separated by single spaces |
| DocumentText.GroupsFlatten | mcp-server/src/main/java/com/mcp/server/service/DocumentTools.java:198-206 | reading the fragments' word groups in order gives back the split word sequence |
| DocumentText.GroupsShape | mcp-server/src/main/java/com/mcp/server/service/DocumentTools.java:198-206 | every fragment holds between 1 and `chunkSize` words, and every fragment but the last exactly `chunkSize` |
| DocumentText.GroupsCount | mcp-server/src/main/java/com/mcp/server/service/DocumentTools.java:198-210 | there are ceil(W / chunkSize) groups for W words |
| DocumentText.Chunks | mcp-server/src/main/java/com/mcp/server/service/DocumentTools.java:191-213 | `chunkText` always returns at least one fragment; their count, word groups and order are stated by `ChunksCount`, `GroupsShape` and `GroupsFlatten` |
| DocumentText.ChunksCount | mcp-server/src/main/java/com/mcp/server/service/DocumentTools.java:193-212 | the chunker returns ceil(W / chunkSize) fragments for W ≥ 1 split words and one fragment otherwise, so never zero |
| DocumentText.ChunksOfBlankText | mcp-server/src/main/java/com/mcp/server/service/DocumentTools.java:212 | whitespace-only text comes back whole as the only fragment |
| DocumentText.ChunkText | mcp-server/src/main/java/com/mcp/server/service/DocumentTools.java:191-213 | the loop with its word counter and buffer returns exactly `Chunks(text, chunkSize)`, which is never empty |
| Extraction.ExtractText | mcp-server/src/main/java/com/mcp/server/service/DocumentTools.java:166-184 | a "pdf" extension in any case gives PDFBox's text, or "" when PDFBox fails; "txt" in any case gives the decoded bytes; every other extension gives "" |
| DocumentService.CurrentUser | mcp-server/src/main/java/com/mcp/server/service/DocumentTools.java:215-218 | the principal's name, or "system" when there is no authentication |
| DocumentService.NewMetadata | mcp-server/src/main/java/com/mcp/server/service/DocumentTools.java:54-74 | the saved row has the fresh id, title = file name, fileType = the extension (not lower-cased), fileSize = byte count, storagePath = "documents/" + id + "/" + file name, the upload time, the uploader, and tags = `ParseTags(tags)`, none when none were given |
| DocumentService.FirstFailure | mcp-server/src/main/java/com/mcp/server/service/DocumentTools.java:79-88 | the index of the first fragment whose embedding or insert fails, with all fragments before it succeeding |
| DocumentService.ChunkIndexesContiguous | mcp-server/src/main/java/com/mcp/server/service/DocumentTools.java:79-88 | after one upload's rows are appended, the document's rows are exactly those rows, one per fragment, with chunkIndex 0..n-1 |
| DocumentService.JoinResults | mcp-server/src/main/java/com/mcp/server/service/DocumentTools.java:117-127 | succeeds exactly when every hit's document has a metadata row; one answer per hit, in order, with content from the chunk and title/author/tags/uploadedAt from the metadata; otherwise the error names the first hit without metadata |
| DocumentService.DocumentTools.constructor | mcp-server/src/main/java/com/mcp/server/service/DocumentTools.java:39-42 | the service starts over empty stores that satisfy the store invariant and have no orphan chunks |
| DocumentService.DocumentTools.SaveToObjectStore | mcp-server/src/main/java/com/mcp/server/service/DocumentTools.java:135-164 | the bytes are put at `<id>/<filename>` and the path "documents/<id>/<filename>" is returned; a failing put changes nothing |
| DocumentService.DocumentTools.InsertChunk | mcp-server/src/main/java/com/mcp/server/repository/VectorRepository.java:41-54 | one row is appended with the next id, and the store invariant is kept |
| DocumentService.DocumentTools.StoreChunks | mcp-server/src/main/java/com/mcp/server/service/DocumentTools.java:79-89 | rows are appended in fragment order up to the first failure, which is reported with its index; each row has chunkSize = the fragment's `length()` in UTF-16 code units; earlier rows stay; on success the document's rows have chunkIndex 0..n-1 |
| DocumentService.DocumentTools.SaveAndIndex | mcp-server/src/main/java/com/mcp/server/service/DocumentTools.java:75-94 | a failing save writes nothing; otherwise the metadata row is saved before any chunk, the chunk rows follow (chunkSize in UTF-16 code units) and a chunk failure keeps the metadata row and the earlier rows |
| DocumentService.DocumentTools.UploadDocument | mcp-server/src/main/java/com/mcp/server/service/DocumentTools.java:46-99 | without the write authority or with invalid Base64 nothing changes; otherwise the object, the metadata row and the chunk rows (chunkIndex = position, chunkSize = UTF-16 length of the fragment) are written in that order up to the first failure, with no rollback; a successful upload adds exactly one metadata row and one row per fragment, with contiguous chunk indexes, and no upload creates an orphan chunk |
| DocumentService.DocumentTools.SemanticSearch | mcp-server/src/main/java/com/mcp/server/repository/VectorRepository.java:25-38 | the first `limit` rows of the database's ranking, in ranking order |
| DocumentService.DocumentTools.SearchDocuments | mcp-server/src/main/java/com/mcp/server/service/DocumentTools.java:103-132 | succeeds exactly when the read authority is granted, the query embeds, the limit (5 by default) is not negative and every hit has metadata; then there is one answer per hit, in ranking order, joined with its metadata; a missing metadata row means the chunk table holds an orphan |
| DocumentService.SearchEmptyStore | mcp-server/src/test/java/com/mcp/server/integration/DocumentToolsIntegrationTest.java:159-162 | searching an empty store gives an empty list |
| DocumentService.SearchWithoutOrphans | mcp-server/src/main/java/com/mcp/server/service/DocumentTools.java:117-119 | when every chunk row has a metadata row, the search cannot fail on the metadata lookup |

## Left out

- Base64 decoding, UUID generation and `LocalDateTime.now()` are inputs. The decoded bytes are an `Option`, the id is fresh (not in the metadata table, on no chunk row), and the timestamp is opaque.
- The embedding model is a function to `Option<seq<real>>`. Its vectors are never computed on.
- The pgvector cosine-distance ordering is the `order` parameter, any ranking of distinct row positions. A negative `LIMIT` is an error (`NegativeLimit`), since PostgreSQL rejects it.
- The JDBC row mapper of `VectorRepository.java` is not modelled. Its select list has no `embedding` column, yet it reads one. Search hits are the stored rows themselves.
- PDFBox and `new String(bytes)` are uninterpreted extractor functions. The charset is not modelled.
- `ExtractText`: `toLowerCase()` is modelled on the ASCII letters only. Comparing with "pdf" or "txt" is decided the same way, because no other character lower-cases to their letters.
- The bucket existence check and creation in `saveToMinIO`, and the exceptions it swallows, are left out. Only "put at the path or fail" is modelled; the content type is not.
- Spring Security is reduced to the granted authority set checked at the start of each tool. The OAuth2 token exchange and the gateway are not part of this model.
- The metadata row's auto-generated database id is not modelled. The table is keyed by its unique `documentId`.
- Null `filename` and null Base64 text, which throw a `NullPointerException` in Java, are not modelled. Strings are always present.
- `MathTools.java` is not part of this model. It is floating-point arithmetic.
- Logging is not modelled: the warning for an unsupported file type and the error logs in the upload, search, bucket check, object put and extraction paths have no effect on any result or store.
- Concurrency between tool calls is not modelled. Each call runs alone over the stores.
- The rendering of a fragment whose first split word is the empty leading word, or whose words hold characters at or below U+0020 that `\s` does not match, is stated through `Render`, the trimmed space-joined words. `RenderPlainWords` covers only non-empty words whose characters are all above U+0020.
