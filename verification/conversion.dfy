/** The conversion tools' own logic: a process-wide cache of converted
    documents and of per-document "stack" lists, the membership query, the
    convert step with its duplicate guard and error detection, and the
    missing-key guard of the search-index upload.

    The document parser, the cache-key function and the rendering of the
    parser's error list are outside this model; they enter as the fields of
    an `Env`. */
module Conversion {
  import opened Wrappers
  import QuoteStrip
  import Listing

  /** The JSON-RPC 2.0 "Internal error" code that MCP's INTERNAL_ERROR carries. */
  const InternalErrorCode: int := -32603

  const AlreadyExists: string := "Document already exists in the system cache."
  const UnexpectedPrefix: string := "Unexpected error: "
  const FailedPrefix: string := "Conversion failed: "
  const SourcePrefix: string := "source: "
  const ListSeparator: string := ", "
  const MissingKeyHead: string := "document-key: "
  const MissingKeyMiddle: string := " is not found. Existing document-keys are: "

  /** The item label and the content layer of the text the convert tool adds. */
  datatype Label = Text
  datatype ContentLayer = Furniture

  datatype TextItem = TextItem(kind: Label, text: string, layer: ContentLayer)

  /** A converted document, reduced to its name and its text items. */
  datatype Document = Document(name: string, texts: seq<TextItem>)

  /** `doc.add_text(...)`: appends a new text item to the document and hands
      it back. The document is changed in place, so the caller keeps seeing
      the extended document. */
  function AddText(doc: Document, kind: Label, text: string, layer: ContentLayer)
    : (r: (Document, TextItem))
    ensures r.0.name == doc.name
    ensures r.0.texts == doc.texts + [r.1]
    ensures r.1.text == text
  {
    var item := TextItem(kind, text, layer);
    (Document(doc.name, doc.texts + [item]), item)
  }

  /** What the converter hands back. Each status field may be absent, as the
      tool tolerates several shapes of result object. */
  datatype ErrorItem = ErrorItem(componentType: string, moduleName: string, errorMessage: string)
  datatype Status = Status(isError: Option<bool>, error: Option<bool>)
  datatype ConversionResult =
    ConversionResult(status: Option<Status>, errors: seq<ErrorItem>, document: Document)

  /** A call to the converter either returns a result or raises with a message. */
  datatype Attempt = Converted(result: ConversionResult) | Threw(message: string)

  /** The collaborators the tools call but that are not modelled:
      `get_cache_key`, the configured `DocumentConverter`, and Python's
      `str()` of a list of error items. Each is a fixed function, so within
      one `Env` a source always converts the same way. */
  datatype Env = Env(
    cacheKey: string -> string,
    converter: string -> Attempt,
    renderErrors: seq<ErrorItem> -> string)

  /** The two exception kinds the tools raise. */
  datatype ToolError = McpError(code: int, message: string) | ValueError(message: string)

  /** The process-wide caches. `keyOrder` is the insertion order of the
      document dictionary, which its `keys()` view follows. */
  datatype Store = Store(
    documents: map<string, Document>,
    stacks: map<string, seq<TextItem>>,
    keyOrder: seq<string>)

  /** Both caches as the process starts. */
  const EmptyStore: Store := Store(map[], map[], [])

  /** A result of a tool call together with the caches after it. */
  datatype Step<+T> = Step(store: Store, reply: Result<T, ToolError>)

  predicate StartsWith(prefix: string, s: string) {
    |prefix| <= |s| && s[..|prefix|] == prefix
  }

  /** The stack list of a cached document holds exactly the provenance item,
      and that item is the last text item of the cached document. */
  predicate IsProvenance(stack: seq<TextItem>, doc: Document) {
    && |stack| == 1
    && stack[0].kind == Text
    && stack[0].layer == Furniture
    && StartsWith(SourcePrefix, stack[0].text)
    && doc.texts != []
    && doc.texts[|doc.texts| - 1] == stack[0]
  }

  /** What holds of the caches between tool calls. */
  ghost predicate Valid(st: Store) {
    && (forall a, b :: 0 <= a < b < |st.keyOrder| ==> st.keyOrder[a] != st.keyOrder[b])
    && (forall k :: k in st.documents <==> k in st.keyOrder)
    && st.stacks.Keys == st.documents.Keys
    && (forall k :: k in st.stacks ==> IsProvenance(st.stacks[k], st.documents[k]))
  }

  lemma EmptyStoreIsValid()
    ensures Valid(EmptyStore)
  {
  }

  /** `is_document_in_local_cache`. */
  function InCache(st: Store, key: string): (b: bool)
    ensures b <==> key in st.documents
  {
    key in st.documents
  }

  /** In a valid store, membership agrees with the key listing. */
  lemma InCacheIffListed(st: Store, key: string)
    requires Valid(st)
    ensures InCache(st, key) <==> key in st.keyOrder
  {
  }

  /** The key a source is cached under: the source is cleaned of quotes first. */
  function SourceKey(env: Env, source: string): string {
    env.cacheKey(QuoteStrip.Strip(source))
  }

  /** Whether the converter's result counts as failed. The rules, in order:
      a non-empty error list; else the status's `is_error`; else its `error`;
      else no error. */
  function ErrorFlag(result: ConversionResult): bool {
    if result.errors != [] then true
    else if result.status.None? then false
    else if result.status.value.isError.Some? then result.status.value.isError.value
    else if result.status.value.error.Some? then result.status.value.error.value
    else false
  }

  /** The text the failure message carries: the rendered error list when there
      is one, otherwise nothing. */
  function ErrorText(env: Env, result: ConversionResult): string {
    if result.errors != [] then env.renderErrors(result.errors) else ""
  }

  /** The tool's own error detection, step by step: read the status first,
      then let a non-empty error list override it. */
  method DetectError(env: Env, result: ConversionResult) returns (hasError: bool, message: string)
    ensures hasError == ErrorFlag(result)
    ensures message == ErrorText(env, result)
    ensures result.errors != [] ==> hasError
    ensures !hasError ==> message == ""
  {
    hasError := false;
    message := "";
    if result.status.Some? {
      if result.status.value.isError.Some? {
        hasError := result.status.value.isError.value;
      } else if result.status.value.error.Some? {
        hasError := result.status.value.error.value;
      }
    }
    if result.errors != [] {
      hasError := true;
      message := env.renderErrors(result.errors);
    }
  }

  /** The caches after a successful conversion of `cleaned` under `key`: the
      document, extended by its provenance item, is cached, and the stack
      list is that one item. */
  function Insert(st: Store, key: string, cleaned: string, doc: Document): (r: Store)
    ensures r.documents.Keys == st.documents.Keys + {key}
    ensures r.stacks.Keys == st.stacks.Keys + {key}
    ensures r.documents - {key} == st.documents - {key}
    ensures r.stacks - {key} == st.stacks - {key}
    ensures r.keyOrder == st.keyOrder + [key]
    ensures IsProvenance(r.stacks[key], r.documents[key])
    ensures r.stacks[key][0].text == SourcePrefix + cleaned
    ensures r.documents[key].texts == doc.texts + r.stacks[key]
  {
    var (extended, item) := AddText(doc, Text, SourcePrefix + cleaned, Furniture);
    assert (SourcePrefix + cleaned)[..|SourcePrefix|] == SourcePrefix;
    Store(st.documents[key := extended], st.stacks[key := [item]], st.keyOrder + [key])
  }

  /** `convert_pdf_document_into_json_docling_document_from_uri_path`.
      - A key already cached short-circuits with the duplicate answer and
        leaves both caches as they were.
      - All or nothing: every failure leaves both caches as they were and is
        an internal error whose message went through the outer handler.
      - Only a successful conversion touches the caches, and only at its key.
      - A call that returns leaves the source's key cached, and reports true
        exactly when the key was not cached before.
      What a success stores is stated by `ConvertSuccess`. */
  function Convert(env: Env, st: Store, source: string): (out: Step<(bool, string)>)
    ensures SourceKey(env, source) in st.documents ==>
              out == Step(st, Success((false, AlreadyExists)))
    ensures out.reply.Failure? ==>
              && out.store == st
              && out.reply.error.McpError?
              && out.reply.error.code == InternalErrorCode
              && StartsWith(UnexpectedPrefix, out.reply.error.message)
    ensures out.store != st ==> out.reply == Success((true, SourceKey(env, source)))
    ensures out.reply.Success? ==>
              && SourceKey(env, source) in out.store.documents
              && (out.reply.value.0 <==> SourceKey(env, source) !in st.documents)
  {
    var cleaned := QuoteStrip.Strip(source);
    var key := env.cacheKey(cleaned);
    if key in st.documents then
      Step(st, Success((false, AlreadyExists)))
    else
      match env.converter(cleaned)
      case Threw(e) =>
        Step(st, Failure(McpError(InternalErrorCode, UnexpectedPrefix + e)))
      case Converted(result) =>
        if ErrorFlag(result) then
          var inner := McpError(InternalErrorCode, FailedPrefix + ErrorText(env, result));
          Step(st, Failure(McpError(InternalErrorCode, UnexpectedPrefix + inner.message)))
        else
          Step(Insert(st, key, cleaned, result.document), Success((true, key)))
  }

  /** A success returns the new key, adds it to both caches and to the end
      of the key order with its provenance item, and leaves every other key
      of both caches untouched. */
  lemma ConvertSuccess(env: Env, st: Store, source: string)
    ensures var out := Convert(env, st, source);
            var key := SourceKey(env, source);
            && out.store.documents - {key} == st.documents - {key}
            && out.store.stacks - {key} == st.stacks - {key}
            && (out.reply.Success? && out.reply.value.0 ==>
                  && out.reply.value.1 == key
                  && out.store.documents.Keys == st.documents.Keys + {key}
                  && out.store.keyOrder == st.keyOrder + [key]
                  && key in out.store.stacks
                  && out.store.stacks[key] == [TextItem(Text, SourcePrefix + QuoteStrip.Strip(source), Furniture)]
                  && IsProvenance(out.store.stacks[key], out.store.documents[key]))
  {
    var cleaned := QuoteStrip.Strip(source);
    var key := env.cacheKey(cleaned);
    if key !in st.documents && env.converter(cleaned).Converted? {
      var result := env.converter(cleaned).result;
      if !ErrorFlag(result) {
        var s' := Insert(st, key, cleaned, result.document);
        assert Convert(env, st, source).store == s';
      }
    }
  }

  /** Which outcome the converter's answer leads to, for a key not yet cached,
      and the exact message each failure surfaces. */
  lemma ConvertOutcome(env: Env, st: Store, source: string)
    requires SourceKey(env, source) !in st.documents
    ensures var out := Convert(env, st, source);
            match env.converter(QuoteStrip.Strip(source))
            case Threw(e) =>
              out.reply == Failure(McpError(InternalErrorCode, UnexpectedPrefix + e))
            case Converted(result) =>
              && (ErrorFlag(result) <==> out.reply.Failure?)
              && (ErrorFlag(result) ==>
                    out.reply.error.message == UnexpectedPrefix + FailedPrefix + ErrorText(env, result))
              && (!ErrorFlag(result) ==>
                    var key := SourceKey(env, source);
                    && out.reply == Success((true, key))
                    && out.store.documents[key].name == result.document.name
                    && out.store.documents[key].texts == result.document.texts + out.store.stacks[key])
  {
    match env.converter(QuoteStrip.Strip(source))
    case Threw(e) =>
    case Converted(result) =>
      if ErrorFlag(result) {
        assert UnexpectedPrefix + (FailedPrefix + ErrorText(env, result))
            == UnexpectedPrefix + FailedPrefix + ErrorText(env, result);
      }
  }

  /** Caching a new key keeps the caches valid. */
  lemma InsertPreservesValid(st: Store, key: string, cleaned: string, doc: Document)
    requires Valid(st)
    requires key !in st.documents
    ensures Valid(Insert(st, key, cleaned, doc))
  {
    var (extended, item) := AddText(doc, Text, SourcePrefix + cleaned, Furniture);
    var s' := Store(st.documents[key := extended], st.stacks[key := [item]], st.keyOrder + [key]);
    assert s' == Insert(st, key, cleaned, doc);
    assert key !in st.keyOrder;
    assert forall k :: k in s'.documents <==> k in s'.keyOrder;
    assert forall k :: k in s'.stacks ==> IsProvenance(s'.stacks[k], s'.documents[k]);
  }

  /** Converting keeps the caches valid. */
  lemma ConvertPreservesValid(env: Env, st: Store, source: string)
    requires Valid(st)
    ensures Valid(Convert(env, st, source).store)
  {
    var cleaned := QuoteStrip.Strip(source);
    var key := env.cacheKey(cleaned);
    if key !in st.documents && env.converter(cleaned).Converted? {
      var result := env.converter(cleaned).result;
      if !ErrorFlag(result) {
        InsertPreservesValid(st, key, cleaned, result.document);
      }
    }
  }

  /** A cached document is never replaced or dropped by a conversion, and the
      key order only grows at its end. */
  lemma ConvertKeepsCached(env: Env, st: Store, source: string, k: string)
    requires k in st.documents
    ensures var s' := Convert(env, st, source).store;
            && k in s'.documents && s'.documents[k] == st.documents[k]
            && ((k in s'.stacks) <==> (k in st.stacks))
            && st.keyOrder <= s'.keyOrder
  {
    var cleaned := QuoteStrip.Strip(source);
    var key := env.cacheKey(cleaned);
    if key !in st.documents && env.converter(cleaned).Converted?
       && !ErrorFlag(env.converter(cleaned).result) {
      var s' := Insert(st, key, cleaned, env.converter(cleaned).result.document);
      assert Convert(env, st, source).store == s';
      assert k != key;
      assert s'.documents[k] == (s'.documents - {key})[k];
      assert k in s'.stacks <==> k in (s'.stacks - {key});
    } else {
      assert Convert(env, st, source).store == st;
    }
  }

  /** Converting the same source a second time, after it was converted or found
      cached, is the duplicate no-op. */
  lemma ConvertTwiceIsDuplicate(env: Env, st: Store, source: string)
    requires Convert(env, st, source).reply.Success?
    ensures var s1 := Convert(env, st, source).store;
            Convert(env, s1, source) == Step(s1, Success((false, AlreadyExists)))
  {
    var s1 := Convert(env, st, source).store;
    assert SourceKey(env, source) in s1.documents;
  }

  /** Sources that differ only in surrounding quotes share one cache entry:
      once one is cached, the other is a duplicate. */
  lemma QuotedSourceIsDuplicate(env: Env, st: Store, source: string, quoted: string)
    requires QuoteStrip.Strip(quoted) == QuoteStrip.Strip(source)
    requires Convert(env, st, source).reply.Success?
    ensures var s1 := Convert(env, st, source).store;
            Convert(env, s1, quoted) == Step(s1, Success((false, AlreadyExists)))
  {
    var s1 := Convert(env, st, source).store;
    assert SourceKey(env, quoted) == SourceKey(env, source);
    assert SourceKey(env, quoted) in s1.documents;
  }

  /** On a duplicate the converter is never consulted: the outcome does not
      depend on the converter or on how errors are rendered. */
  lemma DuplicateIgnoresConverter(env1: Env, env2: Env, st: Store, source: string)
    requires SourceKey(env1, source) == SourceKey(env2, source)
    requires SourceKey(env1, source) in st.documents
    ensures Convert(env1, st, source) == Convert(env2, st, source)
  {
  }

  /** The message of a failed upload. */
  function MissingKeyMessage(key: string, keys: seq<string>): string {
    MissingKeyHead + key + MissingKeyMiddle + Listing.Join(keys, ListSeparator)
  }

  /** The guard at the top of `docling_document_to_elastic_search`: the
      cached document when the key is present, otherwise a `ValueError`
      naming the key and listing the cached keys in insertion order. */
  function UploadGuard(st: Store, key: string): (r: Result<Document, ToolError>)
    ensures r.Success? <==> key in st.documents
    ensures r.Success? ==> r.value == st.documents[key]
    ensures r.Failure? ==> r.error == ValueError(MissingKeyMessage(key, st.keyOrder))
  {
    if key !in st.documents then Failure(ValueError(MissingKeyMessage(key, st.keyOrder)))
    else Success(st.documents[key])
  }

  lemma InfixOfSuffix(x: string, a: string, b: string)
    requires Listing.IsInfix(x, b)
    ensures Listing.IsInfix(x, a + b)
  {
    var k :| Listing.OccursAt(x, b, k);
    assert (a + b)[|a| + k..|a| + k + |x|] == b[k..k + |x|];
    assert Listing.OccursAt(x, a + b, |a| + k);
  }

  /** A failed upload's message names the requested key and every cached key. */
  lemma MissingKeyMessageNamesKeys(st: Store, key: string, cached: string)
    requires Valid(st)
    requires key !in st.documents
    requires cached in st.documents
    ensures UploadGuard(st, key).Failure?
    ensures Listing.IsInfix(key, UploadGuard(st, key).error.message)
    ensures Listing.IsInfix(cached, UploadGuard(st, key).error.message)
  {
    var msg := UploadGuard(st, key).error.message;
    var head := MissingKeyHead + key + MissingKeyMiddle;
    assert msg == MissingKeyHead + key + (MissingKeyMiddle + Listing.Join(st.keyOrder, ListSeparator));
    assert msg[|MissingKeyHead|..|MissingKeyHead| + |key|] == key;
    assert Listing.OccursAt(key, msg, |MissingKeyHead|);
    var i :| 0 <= i < |st.keyOrder| && st.keyOrder[i] == cached;
    Listing.JoinContainsPart(st.keyOrder, ListSeparator, i);
    assert msg == head + Listing.Join(st.keyOrder, ListSeparator);
    InfixOfSuffix(cached, head, Listing.Join(st.keyOrder, ListSeparator));
  }

  /** The layout of a failed upload's message: the fixed head, the requested
      key, the fixed middle, then the cached keys in insertion order, cached
      key `i` starting after the keys before it and one `", "` for each. */
  lemma MissingKeyMessageLayout(st: Store, key: string, i: nat)
    requires key !in st.documents
    requires i < |st.keyOrder|
    ensures UploadGuard(st, key).Failure? && UploadGuard(st, key).error.ValueError?
    ensures var msg := UploadGuard(st, key).error.message;
            var base := |MissingKeyHead| + |key| + |MissingKeyMiddle|;
            && msg[..base] == MissingKeyHead + key + MissingKeyMiddle
            && |msg| == base + Listing.TotalLength(st.keyOrder) + (|st.keyOrder| - 1) * |ListSeparator|
            && Listing.OccursAt(st.keyOrder[i], msg, base + Listing.PartOffset(st.keyOrder, ListSeparator, i))
  {
    var head := MissingKeyHead + key + MissingKeyMiddle;
    var listing := Listing.Join(st.keyOrder, ListSeparator);
    assert UploadGuard(st, key).error.message == head + listing;
    Listing.JoinLength(st.keyOrder, ListSeparator);
    Listing.JoinPartAt(st.keyOrder, ListSeparator, i);
    Listing.OccursInSuffix(st.keyOrder[i], head, listing, Listing.PartOffset(st.keyOrder, ListSeparator, i));
  }

  /** The membership tool and the upload's guard agree: the upload goes on,
      with the cached document, exactly when the membership tool says true. */
  lemma UploadProceedsIffInCache(st: Store, key: string)
    ensures UploadGuard(st, key).Success? <==> InCache(st, key)
    ensures InCache(st, key) ==> UploadGuard(st, key).value == st.documents[key]
  {
  }

  /** A new conversion adds its key at the end of the listing a failed upload
      shows, so that listing is in conversion order. */
  lemma ListingFollowsConversions(env: Env, st: Store, source: string)
    ensures var out := Convert(env, st, source);
            var key := SourceKey(env, source);
            out.reply == Success((true, key)) ==>
              Listing.Join(out.store.keyOrder, ListSeparator)
                == if st.keyOrder == [] then key
                   else Listing.Join(st.keyOrder, ListSeparator) + ListSeparator + key
  {
    ConvertSuccess(env, st, source);
    var out := Convert(env, st, source);
    var key := SourceKey(env, source);
    if out.reply == Success((true, key)) && st.keyOrder != [] {
      Listing.JoinAppend(st.keyOrder, ListSeparator, key);
    }
  }
}
