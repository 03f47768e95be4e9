/** The attachment tool: one descriptor record per binary payload, carrying
    its size and the hex text of its first few bytes. */
module Attachments {
  import opened Wrappers
  import Hex

  /** How many leading bytes the header covers (`payload[:10]`). */
  const HeaderBytes: nat := 10

  /** The status every record reports. */
  const Processed: string := "processed"

  /** One `{file_size_bytes, header_hex, status}` record. */
  datatype Descriptor = Descriptor(fileSizeBytes: nat, headerHex: string, status: string)

  function Min(a: nat, b: nat): nat {
    if a <= b then a else b
  }

  /** Python's `payload[:10]`: the first ten bytes, or all of them when the
      payload is shorter. */
  function Header(payload: seq<Hex.byte>): (h: seq<Hex.byte>)
    ensures |h| == Min(HeaderBytes, |payload|)
    ensures payload == h + payload[|h|..]
  {
    if |payload| <= HeaderBytes then payload else payload[..HeaderBytes]
  }

  /** The record for one payload. */
  function Describe(payload: seq<Hex.byte>): (d: Descriptor)
    ensures d.fileSizeBytes == |payload|
    ensures |d.headerHex| == 2 * Min(HeaderBytes, |payload|)
    ensures Hex.Decode(d.headerHex) == Some(Header(payload))
    ensures d.status == Processed
  {
    Hex.DecodeEncode(Header(payload));
    Descriptor(|payload|, Hex.Encode(Header(payload)), Processed)
  }

  /** Builds the records in payload order, as the tool's loop does. */
  method ConvertAttachments(payloads: seq<seq<Hex.byte>>) returns (results: seq<Descriptor>)
    ensures |results| == |payloads|
    ensures forall k :: 0 <= k < |payloads| ==> results[k] == Describe(payloads[k])
  {
    results := [];
    for n := 0 to |payloads|
      invariant |results| == n
      invariant forall k :: 0 <= k < n ==> results[k] == Describe(payloads[k])
    {
      var payload := payloads[n];
      var record := Descriptor(|payload|, Hex.Encode(Header(payload)), Processed);
      results := results + [record];
    }
  }

  /** Two payloads get the same header text exactly when their first ten
      bytes agree. */
  lemma SameHeaderIffSamePrefix(p: seq<Hex.byte>, q: seq<Hex.byte>)
    ensures Describe(p).headerHex == Describe(q).headerHex <==> Header(p) == Header(q)
  {
    Hex.EncodeInjective(Header(p), Header(q));
  }

  /** Byte `k` of the header is spelled, high nibble first, at digits `2k`
      and `2k + 1` of the record's header text. */
  lemma HeaderDigits(payload: seq<Hex.byte>, k: nat)
    requires k < Min(HeaderBytes, |payload|)
    ensures Describe(payload).headerHex[2 * k] == Hex.Digit(payload[k] / 16)
    ensures Describe(payload).headerHex[2 * k + 1] == Hex.Digit(payload[k] % 16)
  {
    Hex.EncodeDigits(Header(payload), k);
  }
}
