# docling-mcp conversion tools, modelled in Dafny

This project models the logic of the conversion tools of the docling MCP server. The document parsing itself belongs to the docling library; the server adds a thin layer around it. What is modelled:

- **The two process-wide caches** (`Conversion.Store`):
  - the document dictionary, which maps a cache key to a converted document;
  - the stack dictionary, which maps a cache key to a list of items.

  Python dictionaries remember insertion order, and the upload tool's error message lists the keys in that order. The model therefore keeps `keyOrder` next to the two maps. `Conversion.Valid` is the invariant that holds between calls:
  - `keyOrder` has no repeats and lists exactly the cached keys;
  - both maps have the same keys;
  - each stack list is exactly the document's provenance item.
- **The membership tool** (`Conversion.InCache`).
- **The convert tool** (`Conversion.Convert`), a pure state transition:
  1. It strips the quotes from the source (`QuoteStrip.Strip`, Python's `str.strip("\"'")`).
  2. It derives the key.
  3. If the key is already cached, it returns `(false, "Document already exists in the system cache.")`.
  4. Otherwise it consults the converter and derives the error flag from the result's shape (`Conversion.ErrorFlag`, and `Conversion.DetectError`, which follows the tool's own steps).
  5. On success it caches the document with its `"source: …"` provenance item and returns `(true, key)`.

  The tool's outer `except Exception` handler catches every failure, including the tool's own `McpError`. A failure therefore surfaces as an internal error whose message starts with `"Unexpected error: "`.
- **The missing-key guard of the search-index upload** (`Conversion.UploadGuard`). It raises a `ValueError` that names the key and lists the cached keys joined by `", "` (`Listing.Join`).
- **The attachment tool** (`Attachments.ConvertAttachments`). It produces one record per payload, holding:
  - the payload's size;
  - `bytes.hex()` of the first 10 bytes (`Hex.Encode`, with its inverse `Hex.Decode` as the partner);
  - the status `"processed"`.
- **Serving calls one at a time** (`Session.Serve`, built on the generic `Session.Run`). This is how the caches evolve across a sequence of tool calls.

Collaborators that the tools call but whose code is not modelled are fields of `Conversion.Env`, passed as parameters:
- `get_cache_key`: a fixed function from string to string, not assumed injective;
- the configured `DocumentConverter`: its outcome is either a result or a raised exception;
- Python's `str()` of the converter's error list.

The upload's backend part is the `Session.Indexer` parameter.

Three details of the code shape the model:
- The stack entry for a key is *replaced* by a fresh one-element list (docling_mcp/tools/conversion.py:138). It is not appended to.
- A missing upload key raises a `ValueError` (docling_mcp/tools/conversion.py:174-176), not an internal `McpError`.
- `add_text` changes the converter's document in place (docling_mcp/tools/conversion.py:130-136), and that same object is the one cached. The cached document is therefore the converter's document *extended by* the provenance item, and the stack list holds that same item.

The failure message of a result whose error flag is set is `"Unexpected error: Conversion failed: " + …`. This assumes that `str()` of the `McpError` raised at docling_mcp/tools/conversion.py:128 and caught at line 148 is the message of its `ErrorData`. That is behaviour of the `mcp` library, which is not part of this model.

## Model

| member | source | states |
|---|---|---|
| QuoteStrip.Strip | docling_mcp/tools/conversion.py:77 | the cleaned source is no longer than the input and has no `"` or `'` at either end |
| QuoteStrip.StripIsInfix | docling_mcp/tools/conversion.py:77 | the cleaned source is a contiguous infix `s[i..j]` of the input, and everything cut off on both sides is quote characters |
| QuoteStrip.StripLeadingStopsAt | docling_mcp/tools/conversion.py:77 | when `s[..i]` is all quotes and `s[i]` is not, stripping the leading quotes keeps exactly `s[i..]` |
| QuoteStrip.StripTrailingStopsAt | docling_mcp/tools/conversion.py:77 | when `s[j..]` is all quotes and `s[j-1]` is not, stripping the trailing quotes keeps exactly `s[..j]` |
| QuoteStrip.StripUnique | docling_mcp/tools/conversion.py:77 | any cut whose removed ends are all quotes and whose kept part has quote-free ends is exactly the cleaned source, so `Strip` is characterised by that description |
| QuoteStrip.StripIdempotent | docling_mcp/tools/conversion.py:77 | cleaning a cleaned source again leaves it unchanged |
| QuoteStrip.StripKeepsQuoteFree | docling_mcp/tools/conversion.py:77 | a source without a quote at either end is left unchanged |
| QuoteStrip.StripQuotes | docling_mcp/tools/conversion.py:77 | the index-based strip (advance past leading quotes, retreat past trailing ones) computes the same string as `Strip` |
| Hex.DigitValue | docling_mcp/tools/conversion.py:220 | a character has a nibble value exactly when it is a lower-case hex digit, and the value's digit is that character |
| Hex.EncodeDigits | docling_mcp/tools/conversion.py:220 | byte k is spelled at digits 2k (high nibble) and 2k+1 (low nibble) of `bytes.hex()` |
| Hex.EncodeIsHexText | docling_mcp/tools/conversion.py:220 | every character of the hex text is one of `0-9a-f` |
| Hex.DecodeEncode | docling_mcp/tools/conversion.py:220 | decoding the hex text of any bytes gives those bytes back |
| Hex.EncodeDecode | docling_mcp/tools/conversion.py:220 | any text that decodes is the hex text of what it decodes to |
| Hex.EncodeInjective | docling_mcp/tools/conversion.py:220 | two byte sequences have the same hex text exactly when they are equal |
| Attachments.Header | docling_mcp/tools/conversion.py:220 | `payload[:10]` has min(10, len) bytes and is a prefix of the payload |
| Attachments.Describe | docling_mcp/tools/conversion.py:217-231 | a record's size is the payload length, its header text has 2·min(10, len) characters and decodes to the payload's first min(10, len) bytes, and its status is `"processed"` |
| Attachments.ConvertAttachments | docling_mcp/tools/conversion.py:214-233 | N payloads give N records, in payload order, record k describing payload k |
| Attachments.SameHeaderIffSamePrefix | docling_mcp/tools/conversion.py:220 | two payloads get the same header text exactly when their first ten bytes agree |
| Attachments.HeaderDigits | docling_mcp/tools/conversion.py:220 | header byte k appears high nibble first at digits 2k and 2k+1 of the record's header text |
| Listing.JoinContainsPart | docling_mcp/tools/conversion.py:173 | every joined key occurs in the joined text |
| Listing.JoinLength | docling_mcp/tools/conversion.py:173 | the joined text is as long as all keys together plus one separator per gap |
| Listing.JoinPartAt | docling_mcp/tools/conversion.py:173 | key i occurs in the joined text starting after the keys before it and one separator for each, so the keys appear in list order |
| Listing.JoinSeparatorAt | docling_mcp/tools/conversion.py:173 | a separator immediately follows every key but the last |
| Listing.JoinAppend | docling_mcp/tools/conversion.py:173 | joining a list with one more key at its end gives the old text, a separator, and that key |
| Conversion.EmptyStoreIsValid | docling_mcp/shared.py:29-30 | the two empty dictionaries the process starts with satisfy the cache invariant |
| Conversion.InCacheIffListed | docling_mcp/tools/conversion.py:53 | in valid caches, membership agrees with the key listing the upload error shows |
| Conversion.DetectError | docling_mcp/tools/conversion.py:112-124 | reading the status and then letting a non-empty error list override it gives the ordered rule: non-empty `errors` means an error; otherwise `status.is_error`, else `status.error`, else no error. The message is the rendered error list, or empty when there is none |
| Conversion.Insert | docling_mcp/tools/conversion.py:130-138 | caching a key adds it to both dictionaries and leaves every other key untouched. The stack list is the one provenance item `"source: " + cleaned`, which is also the cached document's last text item |
| Conversion.Convert | docling_mcp/tools/conversion.py:75-152 | a cached key short-circuits with `(false, "Document already exists in the system cache.")` and no change. Every failure leaves both caches as they were and is an internal error prefixed `"Unexpected error: "`. Only a success changes the caches and returns `(true, key)`. A call that returns leaves the key cached, and reports true exactly when the key was new |
| Conversion.ConvertSuccess | docling_mcp/tools/conversion.py:130-146 | a success returns the new key and adds it to both dictionaries and to the end of the key order. The stack list is the one item `"source: " + cleaned source`, which is the cached document's last text item, and every other key of both dictionaries is untouched |
| Conversion.ConvertOutcome | docling_mcp/tools/conversion.py:109-152 | for an uncached key: a raising converter surfaces `"Unexpected error: " + message`. A result fails exactly when its error flag is set, with `"Unexpected error: Conversion failed: " + rendered errors`. Otherwise the cached document is the converter's document extended by the stack item |
| Conversion.InsertPreservesValid | docling_mcp/tools/conversion.py:130-138 | caching a new key keeps the cache invariant |
| Conversion.ConvertPreservesValid | docling_mcp/tools/conversion.py:83-146 | every conversion, whatever its outcome, keeps the cache invariant |
| Conversion.ConvertKeepsCached | docling_mcp/tools/conversion.py:85-138 | a cached document is never replaced or evicted by a conversion, and the key order only grows at its end |
| Conversion.ConvertTwiceIsDuplicate | docling_mcp/tools/conversion.py:83-87 | after a conversion that returned, converting the same source again is the duplicate no-op |
| Conversion.QuotedSourceIsDuplicate | docling_mcp/tools/conversion.py:77-87 | a source differing only in surrounding quotes from a converted one is a duplicate |
| Conversion.DuplicateIgnoresConverter | docling_mcp/tools/conversion.py:83-109 | on a duplicate the outcome does not depend on the converter or on the error rendering, so the converter is never consulted |
| Conversion.UploadProceedsIffInCache | docling_mcp/tools/conversion.py:172-185 | the upload goes on, with the cached document, exactly when the membership tool answers true for the key |
| Conversion.MissingKeyMessageLayout | docling_mcp/tools/conversion.py:172-176 | a failed upload raises a `ValueError` whose message is `"document-key: "`, the key, `" is not found. Existing document-keys are: "`, then the cached keys in key order, key i starting after the keys before it and one `", "` each, with the total length that layout gives |
| Conversion.ListingFollowsConversions | docling_mcp/tools/conversion.py:173 | a new conversion's key is added at the end of the listing, after `", "` when other keys are cached, so the listing is in conversion order |
| Conversion.MissingKeyMessageNamesKeys | docling_mcp/tools/conversion.py:172-176 | the failed upload's message contains the requested key and every cached key |
| Session.Dispatch | docling_mcp/tools/conversion.py:41-233 | of the tools, only the convert tool changes the caches |
| Session.Run | docling_mcp/tools/conversion.py:41-233 | handling a sequence of calls one at a time gives one response per call |
| Session.RunAppend | docling_mcp/tools/conversion.py:41-233 | handling two batches of calls back to back equals handling their concatenation |
| Session.ServePreservesValid | docling_mcp/shared.py:29-30 | every sequence of tool calls keeps the shared caches valid |
| Session.ServeKeepsCached | docling_mcp/tools/conversion.py:85-87 | there is no eviction: across any calls, a cached document stays cached and unchanged |
| Session.RunResponseAt | docling_mcp/tools/conversion.py:41-233 | call k is answered against the state the calls before it left, and its answer's state is the state after call k |
| Session.RunPrefixes | docling_mcp/tools/conversion.py:41-233 | the state after the first j calls is the state after the first m calls, followed by calls m to j |
| Session.ConvertedIsCached | docling_mcp/tools/conversion.py:130-146 | a call that converts successfully leaves its key in the document dictionary |
| Session.ConvertedStaysCached | docling_mcp/tools/conversion.py:130-146 | once a call converts successfully, its key is cached before every later call |
| Session.LaterCallsSeeConversion | docling_mcp/tools/conversion.py:53-87 | after a successful conversion, a later membership query for the key answers true, and a later conversion of a source with the same key is the duplicate no-op |
| Session.UploadMissingKeyIgnoresBackend | docling_mcp/tools/conversion.py:172-182 | an upload of an uncached key fails with the guard's message whatever the search backend would do, so the backend is never contacted |

## Left out

- Document parsing: the docling `DocumentConverter`, `PdfPipelineOptions` and the MPS accelerator setting are foreign library calls. The model represents the converter as an `Env` field whose outcome is a result or a raised message.
- `get_cache_key`: its module is not part of this model. It is an `Env` field that is deterministic but not assumed injective.
- Python's `str()` of the converter's error list is an `Env` field (`renderErrors`), because its text comes from the library's item types.
- Only the converter is modelled as able to raise. `get_cache_key` raising is not modelled. Nor is `add_text` raising, which would not be all or nothing: line 130 has already cached the document by then, so the key would stay in the document dictionary with no stack entry and `Conversion.Valid` would no longer hold. `Conversion.Convert`'s promise that every failure leaves both caches as they were is a statement about the model, which has no such failure.
- Conversion.ErrorFlag: `status.is_error` and `status.error` are modelled as booleans. Python's truthiness of other values in those attributes is not modelled.
- Conversion.Document: a converted document is reduced to its name and its text items. The parent and child tree bookkeeping of `add_text`, and an item's `self_ref`, are not modelled.
- Logging, `cleanup_memory` and `gc.collect`: these are side effects only and do not change what a tool returns.
- The search-index upload after its missing-key guard is left out because it is network I/O against an unseen library. This covers client construction, `ping`, `export_to_dict`, the `binary_hash` string coercion, `index` and the status check. It is the `Session.Indexer` parameter.
- The environment-gated registration of the upload tool and `load_dotenv`: `Session.Dispatch` always offers the upload tool.
- The rest of the shared module is module-load wiring of external libraries. This covers the FastMCP instance, embeddings, the LLM, the Milvus path, the Chroma client and the vector store.
- Session.Serve: one `Env` serves the whole call sequence, so each cleaned source has one conversion outcome per run. A retry that succeeds after a transient failure, such as a network error, cannot be expressed. `Conversion.Convert` itself takes the `Env` per call, and on a duplicate the converter is never consulted (`Conversion.DuplicateIgnoresConverter`).
- Concurrent tool calls: the caches have no synchronisation, and the model serves one call at a time.
