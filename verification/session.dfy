/** The registered tools served one call at a time against the shared
    caches, as the MCP runtime dispatches them. */
module Session {
  import opened Wrappers
  import Hex
  import Attachments
  import C = Conversion

  /** One invocation of a registered tool. */
  datatype Call =
    | CheckCache(key: string)
    | ConvertSource(source: string)
    | UploadDocument(documentKey: string)
    | IngestAttachments(payloads: seq<seq<Hex.byte>>)

  /** What a tool invocation answers. */
  datatype Response =
    | Presence(present: bool)
    | Converted(outcome: Result<(bool, string), C.ToolError>)
    | Upload(outcome: Result<(bool, string), C.ToolError>)
    | Records(records: seq<Attachments.Descriptor>)

  /** The upload tool after its missing-key guard (connecting to the search
      backend, indexing the exported document), which is not modelled: a
      function of the key and the cached document. */
  type Indexer = (string, C.Document) -> Result<(bool, string), C.ToolError>

  /** The attachment records, one per payload, in order. */
  function DescribeAll(payloads: seq<seq<Hex.byte>>): (records: seq<Attachments.Descriptor>)
    ensures |records| == |payloads|
    ensures forall k :: 0 <= k < |payloads| ==> records[k] == Attachments.Describe(payloads[k])
  {
    seq(|payloads|, k requires 0 <= k < |payloads| => Attachments.Describe(payloads[k]))
  }

  /** One tool call. Only a conversion changes the caches. */
  function Dispatch(env: C.Env, index: Indexer, st: C.Store, call: Call): (r: (C.Store, Response))
    ensures !call.ConvertSource? ==> r.0 == st
    ensures r.1.Converted? && r.1.outcome.Success? && r.1.outcome.value.0 ==>
              r.1.outcome.value.1 in r.0.documents
  {
    match call
    case CheckCache(key) => (st, Presence(C.InCache(st, key)))
    case ConvertSource(source) =>
      var out := C.Convert(env, st, source);
      (out.store, Converted(out.reply))
    case UploadDocument(key) =>
      (match C.UploadGuard(st, key)
       case Failure(e) => (st, Upload(Failure(e)))
       case Success(doc) => (st, Upload(index(key, doc))))
    case IngestAttachments(payloads) => (st, Records(DescribeAll(payloads)))
  }

  /** Calls handled one after another by `step`, each against the state the
      previous ones left: the final state and one response per call. */
  function Run<S, Q, R>(step: (S, Q) -> (S, R), st: S, calls: seq<Q>): (r: (S, seq<R>))
    ensures |r.1| == |calls|
    decreases |calls|
  {
    if |calls| == 0 then (st, [])
    else
      var first := step(st, calls[0]);
      var rest := Run(step, first.0, calls[1..]);
      (rest.0, [first.1] + rest.1)
  }

  /** Running two batches of calls back to back is running their concatenation. */
  lemma {:induction false} RunAppend<S, Q, R>(step: (S, Q) -> (S, R), st: S, a: seq<Q>, b: seq<Q>)
    ensures var r1 := Run(step, st, a);
            var r2 := Run(step, r1.0, b);
            Run(step, st, a + b) == (r2.0, r1.1 + r2.1)
    decreases |a|
  {
    if |a| == 0 {
      assert a + b == b;
      assert [] + Run(step, st, b).1 == Run(step, st, b).1;
    } else {
      assert (a + b)[0] == a[0];
      assert (a + b)[1..] == a[1..] + b;
      var first := step(st, a[0]);
      RunAppend(step, first.0, a[1..], b);
      var tail := Run(step, first.0, a[1..]);
      var rest := Run(step, tail.0, b);
      assert [first.1] + (tail.1 + rest.1) == ([first.1] + tail.1) + rest.1;
    }
  }

  /** The response to call `i` is what `step` answers against the state the
      calls before it left, and that answer's state is the state after call `i`. */
  lemma {:induction false} RunResponseAt<S, Q, R>(step: (S, Q) -> (S, R), st: S, calls: seq<Q>, i: nat)
    requires i < |calls|
    ensures var before := Run(step, st, calls[..i]).0;
            && Run(step, st, calls).1[i] == step(before, calls[i]).1
            && Run(step, st, calls[..i + 1]).0 == step(before, calls[i]).0
  {
    var prefix := Run(step, st, calls[..i]);
    RunAppend(step, st, calls[..i], calls[i..]);
    assert calls[..i] + calls[i..] == calls;
    RunAppend(step, st, calls[..i], [calls[i]]);
    assert calls[..i] + [calls[i]] == calls[..i + 1];
    assert calls[i..][0] == calls[i];
    assert Run(step, st, calls).1 == prefix.1 + Run(step, prefix.0, calls[i..]).1;
  }

  /** The registered tools as one step function over the shared caches. */
  function Handler(env: C.Env, index: Indexer): (C.Store, Call) -> (C.Store, Response) {
    (st: C.Store, call: Call) => Dispatch(env, index, st, call)
  }

  /** A sequence of tool calls served in order. */
  function Serve(env: C.Env, index: Indexer, st: C.Store, calls: seq<Call>): (C.Store, seq<Response>) {
    Run(Handler(env, index), st, calls)
  }

  /** Every call sequence keeps the caches valid. */
  lemma {:induction false} ServePreservesValid(env: C.Env, index: Indexer, st: C.Store, calls: seq<Call>)
    requires C.Valid(st)
    ensures C.Valid(Serve(env, index, st, calls).0)
    decreases |calls|
  {
    if calls != [] {
      if calls[0].ConvertSource? {
        C.ConvertPreservesValid(env, st, calls[0].source);
      }
      var s1 := Dispatch(env, index, st, calls[0]).0;
      ServePreservesValid(env, index, s1, calls[1..]);
    }
  }

  /** Nothing is ever evicted: a cached document stays cached, unchanged, and
      the key order only grows at its end. */
  lemma {:induction false} ServeKeepsCached(env: C.Env, index: Indexer, st: C.Store, calls: seq<Call>, k: string)
    requires k in st.documents
    ensures var s' := Serve(env, index, st, calls).0;
            && k in s'.documents && s'.documents[k] == st.documents[k]
            && st.keyOrder <= s'.keyOrder
    decreases |calls|
  {
    if calls != [] {
      if calls[0].ConvertSource? {
        C.ConvertKeepsCached(env, st, calls[0].source, k);
      }
      var s1 := Dispatch(env, index, st, calls[0]).0;
      ServeKeepsCached(env, index, s1, calls[1..], k);
    }
  }

  /** The state after the first `j` calls is the state after the first `m`
      calls, followed by calls `m` to `j`. */
  lemma {:induction false} RunPrefixes<S, Q, R>(step: (S, Q) -> (S, R), st: S, calls: seq<Q>, m: nat, j: nat)
    requires m <= j <= |calls|
    ensures Run(step, st, calls[..j]).0 == Run(step, Run(step, st, calls[..m]).0, calls[m..j]).0
  {
    RunAppend(step, st, calls[..m], calls[m..j]);
    assert calls[..m] + calls[m..j] == calls[..j];
  }

  /** A call that converts successfully leaves its key cached. */
  lemma ConvertedIsCached(env: C.Env, index: Indexer, st: C.Store, calls: seq<Call>, i: nat, key: string)
    requires i < |calls|
    requires Serve(env, index, st, calls).1[i] == Converted(Success((true, key)))
    ensures key in Serve(env, index, st, calls[..i + 1]).0.documents
  {
    RunResponseAt(Handler(env, index), st, calls, i);
  }

  /** Once call `i` converts a source successfully, its key is cached before
      every later call. */
  lemma ConvertedStaysCached(env: C.Env, index: Indexer, st: C.Store, calls: seq<Call>, i: nat, j: nat, key: string)
    requires i < j <= |calls|
    requires Serve(env, index, st, calls).1[i] == Converted(Success((true, key)))
    ensures key in Serve(env, index, st, calls[..j]).0.documents
  {
    ConvertedIsCached(env, index, st, calls, i, key);
    var after := Serve(env, index, st, calls[..i + 1]).0;
    RunPrefixes(Handler(env, index), st, calls, i + 1, j);
    ServeKeepsCached(env, index, after, calls[i + 1..j], key);
  }

  /** After a successful conversion, the membership tool reports the key, and
      converting any source with the same key again is the duplicate no-op. */
  lemma LaterCallsSeeConversion(env: C.Env, index: Indexer, st: C.Store, calls: seq<Call>, i: nat, j: nat, key: string)
    requires i < j < |calls|
    requires Serve(env, index, st, calls).1[i] == Converted(Success((true, key)))
    ensures calls[j] == CheckCache(key) ==> Serve(env, index, st, calls).1[j] == Presence(true)
    ensures calls[j].ConvertSource? && C.SourceKey(env, calls[j].source) == key ==>
              Serve(env, index, st, calls).1[j] == Converted(Success((false, C.AlreadyExists)))
  {
    ConvertedStaysCached(env, index, st, calls, i, j, key);
    RunResponseAt(Handler(env, index), st, calls, j);
  }

  /** An upload of a key that is not cached fails with the guard's message and
      never reaches the search backend, whatever that backend would do. */
  lemma UploadMissingKeyIgnoresBackend(env: C.Env, index1: Indexer, index2: Indexer, st: C.Store, key: string)
    requires key !in st.documents
    ensures Dispatch(env, index1, st, UploadDocument(key))
         == Dispatch(env, index2, st, UploadDocument(key))
         == (st, Upload(Failure(C.ValueError(C.MissingKeyMessage(key, st.keyOrder)))))
  {
  }
}
