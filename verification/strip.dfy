/** Python's `str.strip("\"'")`: removes every leading and every trailing
    double-quote or single-quote character of a string. */
module QuoteStrip {

  /** The characters the conversion tool strips from a source. */
  predicate IsQuote(c: char) {
    c == '"' || c == '\''
  }

  predicate AllQuotes(s: string) {
    forall k :: 0 <= k < |s| ==> IsQuote(s[k])
  }

  /** Neither end of `s` is a quote character. */
  predicate QuoteFreeEnds(s: string) {
    s == [] || (!IsQuote(s[0]) && !IsQuote(s[|s| - 1]))
  }

  /** Drops the leading run of quote characters. */
  function StripLeading(s: string): (r: string)
    ensures |r| <= |s| && r == s[|s| - |r|..]
    ensures AllQuotes(s[..|s| - |r|])
    ensures r == [] || !IsQuote(r[0])
  {
    if |s| > 0 && IsQuote(s[0]) then StripLeading(s[1..]) else s
  }

  /** Drops the trailing run of quote characters. */
  function StripTrailing(s: string): (r: string)
    ensures |r| <= |s| && r == s[..|r|]
    ensures AllQuotes(s[|r|..])
    ensures r == [] || !IsQuote(r[|r| - 1])
  {
    if |s| > 0 && IsQuote(s[|s| - 1]) then
      var r := StripTrailing(s[..|s| - 1]);
      assert s[|r|..] == s[..|s| - 1][|r|..] + [s[|s| - 1]];
      r
    else
      s
  }

  /** The cleaned source: leading quotes removed first, then trailing ones. */
  function Strip(s: string): (r: string)
    ensures |r| <= |s|
    ensures QuoteFreeEnds(r)
  {
    StripTrailing(StripLeading(s))
  }

  /** The cleaned source is a contiguous infix of the input, and everything
      cut away on either side is a quote character. */
  lemma StripIsInfix(s: string)
    ensures exists i, j :: 0 <= i <= j <= |s| && Strip(s) == s[i..j]
                           && AllQuotes(s[..i]) && AllQuotes(s[j..])
  {
    var l := StripLeading(s);
    var r := StripTrailing(l);
    var i := |s| - |l|;
    var j := i + |r|;
    assert l == s[i..];
    assert r == s[i..j];
    assert s[j..] == l[|r|..];
    assert Strip(s) == s[i..j] && AllQuotes(s[..i]) && AllQuotes(s[j..]);
  }

  /** When `s[..i]` is all quotes and `s[i]` is not (or `i` is the end), the
      leading strip stops exactly at `i`. */
  lemma {:induction false} StripLeadingStopsAt(s: string, i: nat)
    requires i <= |s|
    requires AllQuotes(s[..i])
    requires i == |s| || !IsQuote(s[i])
    ensures StripLeading(s) == s[i..]
  {
    if i > 0 {
      assert s[0] == s[..i][0];
      assert s[1..][..i - 1] == s[1..i];
      assert s[1..][i - 1..] == s[i..];
      StripLeadingStopsAt(s[1..], i - 1);
    }
  }

  /** When `s[j..]` is all quotes and `s[j - 1]` is not (or `j` is the start),
      the trailing strip stops exactly at `j`. */
  lemma {:induction false} StripTrailingStopsAt(s: string, j: nat)
    requires j <= |s|
    requires AllQuotes(s[j..])
    requires j == 0 || !IsQuote(s[j - 1])
    ensures StripTrailing(s) == s[..j]
  {
    if j < |s| {
      assert s[|s| - 1] == s[j..][|s| - 1 - j];
      var t := s[..|s| - 1];
      assert t[j..] == s[j..|s| - 1];
      assert t[..j] == s[..j];
      StripTrailingStopsAt(t, j);
    }
  }

  /** A string whose prefix and suffix at `i` are all quotes is all quotes. */
  lemma AllQuotesSplit(s: string, i: nat)
    requires i <= |s|
    requires AllQuotes(s[..i]) && AllQuotes(s[i..])
    ensures AllQuotes(s[..|s|])
  {
    forall k | 0 <= k < |s| ensures IsQuote(s[k]) {
      if k < i { assert s[k] == s[..i][k]; } else { assert s[k] == s[i..][k - i]; }
    }
  }

  /** Cutting a quote-free-ended infix out of a quote-only frame is exactly
      what `Strip` does: no other cut satisfies the same description. */
  lemma {:induction false} StripUnique(s: string, i: nat, j: nat)
    requires i <= j <= |s|
    requires AllQuotes(s[..i]) && AllQuotes(s[j..])
    requires QuoteFreeEnds(s[i..j])
    ensures Strip(s) == s[i..j]
  {
    if i == j {
      AllQuotesSplit(s, i);
      StripLeadingStopsAt(s, |s|);
      assert s[|s|..] == [];
    } else {
      StripUniqueNonEmpty(s, i, j);
    }
  }

  lemma {:induction false} StripUniqueNonEmpty(s: string, i: nat, j: nat)
    requires i < j <= |s|
    requires AllQuotes(s[..i]) && AllQuotes(s[j..])
    requires !IsQuote(s[i]) && !IsQuote(s[j - 1])
    ensures Strip(s) == s[i..j]
  {
    StripLeadingStopsAt(s, i);
    var l := s[i..];
    assert l[j - i..] == s[j..];
    assert l[j - i - 1] == s[j - 1];
    StripTrailingStopsAt(l, j - i);
    calc {
      Strip(s);
      StripTrailing(l);
      l[..j - i];
      s[i..j];
    }
  }

  /** Cleaning an already cleaned source changes nothing. */
  lemma StripIdempotent(s: string)
    ensures Strip(Strip(s)) == Strip(s)
  {
    var t := Strip(s);
    assert t[..0] == [] && t[|t|..] == [] && t[0..|t|] == t;
    StripUnique(t, 0, |t|);
  }

  /** A string whose ends are not quotes is left as it is. */
  lemma StripKeepsQuoteFree(s: string)
    requires QuoteFreeEnds(s)
    ensures Strip(s) == s
  {
    assert s[..0] == [] && s[|s|..] == [] && s[0..|s|] == s;
    StripUnique(s, 0, |s|);
  }

  /** Index-based stripping in the manner of CPython's `str.strip(chars)`:
      advance past leading quotes, then retreat past trailing ones. */
  method StripQuotes(s: string) returns (r: string)
    ensures r == Strip(s)
  {
    var i := 0;
    while i < |s| && IsQuote(s[i])
      invariant i <= |s|
      invariant AllQuotes(s[..i])
    {
      i := i + 1;
    }
    var j := |s|;
    while j > i && IsQuote(s[j - 1])
      invariant i <= j <= |s|
      invariant AllQuotes(s[j..])
    {
      j := j - 1;
    }
    r := s[i..j];
    StripUnique(s, i, j);
  }
}
