/**
 The incremental byte matcher behind the multipart guard: a Knuth-Morris-Pratt
 automaton that keeps a failure table and one counter between bytes.

 The specification never mentions the table.  It is stated over the whole history
 of bytes fed since the last reset: the counter is the length of the longest proper
 prefix of the pattern that the history ends with, and a byte completes a match
 exactly when the history then ends with the whole pattern.
 */
module ByteMatching {
  import opened Common

  /** `s` ends with `p`. */
  predicate EndsWith(s: seq<Byte>, p: seq<Byte>) {
    |p| <= |s| && s[|s| - |p|..] == p
  }

  /** `s` ends with the first `j` bytes of `p`. */
  predicate EndsWithPrefix(s: seq<Byte>, p: seq<Byte>, j: nat)
    requires j <= |p|
  {
    EndsWith(s, p[..j])
  }

  /** `m` is the largest number up to `bound` such that `s` ends with `p[..m]`. */
  ghost predicate IsLongest(p: seq<Byte>, s: seq<Byte>, bound: nat, m: nat)
    requires bound <= |p|
  {
    && m <= bound
    && EndsWithPrefix(s, p, m)
    && forall j :: m < j <= bound ==> !EndsWithPrefix(s, p, j)
  }

  /** The first `n` rows of `table` hold the longest proper border of each prefix of `p`. */
  ghost predicate IsFailureTable(p: seq<Byte>, table: seq<nat>, n: nat) {
    && |table| == |p|
    && n <= |p|
    && forall k :: 0 <= k < n ==> IsLongest(p, p[..k + 1], k, table[k])
  }

  /** Among two suffixes of one string, the shorter is a suffix of the longer. */
  lemma SuffixOfSuffix(p: seq<Byte>, s: seq<Byte>, m: nat, j: nat)
    requires j <= m <= |p|
    requires EndsWithPrefix(s, p, m)
    ensures EndsWithPrefix(s, p, j) <==> EndsWithPrefix(p[..m], p, j)
  {
    var k := |s| - m;
    assert s[k..] == p[..m];
    assert s[|s| - j..] == s[k..][m - j..];
  }

  /** Appending a byte extends a suffix match by exactly that byte. */
  lemma ExtendSuffix(p: seq<Byte>, s: seq<Byte>, b: Byte, j: nat)
    requires j < |p|
    ensures EndsWithPrefix(s + [b], p, j + 1) <==> EndsWithPrefix(s, p, j) && p[j] == b
  {
    var t := s + [b];
    if j <= |s| {
      assert t[|t| - (j + 1)..] == s[|s| - j..] + [b];
      assert p[..j + 1] == p[..j] + [p[j]];
      if EndsWithPrefix(t, p, j + 1) {
        assert s[|s| - j..] == (s[|s| - j..] + [b])[..j];
        assert p[..j] == (p[..j] + [p[j]])[..j];
        assert (s[|s| - j..] + [b])[j] == (p[..j] + [p[j]])[j];
      }
    }
  }

  /**
   State of the search for the longest prefix that `s` followed by `b` ends with:
   `s` ends with `p[..m]`, and every longer candidate below `bound` fails on `b`.
   */
  ghost predicate Candidate(p: seq<Byte>, s: seq<Byte>, b: Byte, bound: nat, m: nat)
    requires bound <= |p|
  {
    && m < bound
    && EndsWithPrefix(s, p, m)
    && forall j :: m < j < bound && EndsWithPrefix(s, p, j) ==> p[j] != b
  }

  /** Following one table entry keeps the search state. */
  lemma Fallback(p: seq<Byte>, table: seq<nat>, n: nat, s: seq<Byte>, b: Byte, bound: nat, m: nat)
    requires IsFailureTable(p, table, n)
    requires bound <= |p| && 0 < m <= n
    requires Candidate(p, s, b, bound, m) && p[m] != b
    ensures table[m - 1] < m && Candidate(p, s, b, bound, table[m - 1])
  {
    var f := table[m - 1];
    assert IsLongest(p, p[..m], m - 1, f);
    SuffixOfSuffix(p, s, m, f);
    forall j | f < j < bound && EndsWithPrefix(s, p, j)
      ensures p[j] != b
    {
      if j < m {
        SuffixOfSuffix(p, s, m, j);
        assert false;
      }
    }
  }

  /** When the search stops, extending the survivor gives the longest match. */
  lemma SearchDone(p: seq<Byte>, s: seq<Byte>, b: Byte, bound: nat, m: nat)
    requires bound <= |p|
    requires Candidate(p, s, b, bound, m)
    requires m == 0 || p[m] == b
    ensures IsLongest(p, s + [b], bound, if p[m] == b then m + 1 else 0)
  {
    var r := if p[m] == b then m + 1 else 0;
    if r > 0 {
      ExtendSuffix(p, s, b, m);
    }
    forall j | r < j <= bound
      ensures !EndsWithPrefix(s + [b], p, j)
    {
      ExtendSuffix(p, s, b, j - 1);
    }
  }

  /** A complete match falls back to the longest border of the whole pattern. */
  lemma AfterFullMatch(p: seq<Byte>, table: seq<nat>, s: seq<Byte>)
    requires |p| > 0 && IsFailureTable(p, table, |p|)
    requires EndsWith(s, p)
    ensures IsLongest(p, s, |p| - 1, table[|p| - 1])
  {
    var f := table[|p| - 1];
    assert p[..|p|] == p;
    assert IsLongest(p, p[..|p| - 1 + 1], |p| - 1, f);
    SuffixOfSuffix(p, s, |p|, f);
    forall j | f < j <= |p| - 1
      ensures !EndsWithPrefix(s, p, j)
    {
      SuffixOfSuffix(p, s, |p|, j);
    }
  }

  /** A suffix longer than the appended part begins before it. */
  lemma SuffixReachesBack(s: seq<Byte>, extra: seq<Byte>, q: seq<Byte>)
    requires |extra| < |q|
    ensures EndsWith(s + extra, q) ==> EndsWith(s, q[..|q| - |extra|])
  {
    var t := s + extra;
    if EndsWith(t, q) {
      var k := |q| - |extra|;
      assert s[|s| - k..] == t[|t| - |q|..][..k];
    }
  }

  /** Bytes that differ from the first pattern byte leave an idle matcher idle. */
  lemma IdleOverForeignBytes(p: seq<Byte>, s: seq<Byte>, extra: seq<Byte>)
    requires |p| > 0
    requires IsLongest(p, s, |p| - 1, 0)
    requires p[0] !in extra
    ensures IsLongest(p, s + extra, |p| - 1, 0)
    ensures forall k :: 0 < k <= |extra| ==> !EndsWith(s + extra[..k], p)
  {
    forall j, k | 0 < j <= |p| && 0 < k <= |extra|
      ensures !EndsWithPrefix(s + extra[..k], p, j)
    {
      var t := s + extra[..k];
      if j <= k {
        assert t[|t| - j] == extra[k - j] != p[0] == p[..j][0];
      } else {
        SuffixReachesBack(s, extra[..k], p[..j]);
        assert p[..j][..j - k] == p[..j - k];
        assert !EndsWithPrefix(s, p, j - k);
      }
    }
    assert extra[..|extra|] == extra;
    forall k | 0 < k <= |extra|
      ensures !EndsWith(s + extra[..k], p)
    {
      assert p[..|p|] == p;
      assert !EndsWithPrefix(s + extra[..k], p, |p|);
    }
    if extra == [] {
      assert s + extra == s;
    }
  }

  /** Storing the border of the next prefix extends the table by one row. */
  lemma TableRow(p: seq<Byte>, table: seq<nat>, index: nat, m: nat)
    requires IsFailureTable(p, table, index) && index < |p|
    requires IsLongest(p, p[..index + 1], index, m)
    ensures IsFailureTable(p, table[index := m], index + 1)
  {
  }

  /** The border of `p[..index + 1]`, searched from the border `m` of `p[..index]`. */
  method NextBorder(p: seq<Byte>, table: seq<nat>, index: nat, m: nat) returns (next: nat)
    requires 1 <= index < |p| && IsFailureTable(p, table, index)
    requires IsLongest(p, p[..index], index - 1, m)
    ensures IsLongest(p, p[..index + 1], index, next)
  {
    next := m;
    while next > 0 && p[index] != p[next]
      invariant Candidate(p, p[..index], p[index], index, next)
    {
      Fallback(p, table, index, p[..index], p[index], index, next);
      next := table[next - 1];
    }
    SearchDone(p, p[..index], p[index], index, next);
    assert p[..index] + [p[index]] == p[..index + 1];
    if p[index] == p[next] {
      next := next + 1;
    }
  }

  /** Builds the failure table: row `k` is the longest proper border of `p[..k + 1]`. */
  method FailureTable(p: seq<Byte>) returns (table: seq<nat>)
    requires |p| > 0
    ensures IsFailureTable(p, table, |p|)
  {
    table := seq(|p|, _ => 0);
    var m: nat := 0;
    assert IsFailureTable(p, table, 1);
    for index := 1 to |p|
      invariant IsFailureTable(p, table, index)
      invariant IsLongest(p, p[..index], index - 1, m)
    {
      m := NextBorder(p, table, index, m);
      TableRow(p, table, index, m);
      table := table[index := m];
    }
  }

  /** One streaming matcher.  The pattern and table are fixed at construction. */
  class ByteMatcher {
    const pattern: seq<Byte>
    const prefix: seq<nat>
    var matched: nat
    /** All bytes fed since construction or the last reset. */
    ghost var fed: seq<Byte>
    /** Table entries followed since construction or the last reset. */
    ghost var fallbacks: nat

    ghost predicate Valid()
      reads this
    {
      && |pattern| > 0
      && IsFailureTable(pattern, prefix, |pattern|)
      && IsLongest(pattern, fed, |pattern| - 1, matched)
      && fallbacks + matched <= |fed|
    }

    constructor (p: seq<Byte>)
      requires |p| > 0
      ensures Valid() && pattern == p && fed == []
    {
      var table := FailureTable(p);
      pattern, prefix, matched := p, table, 0;
      fed, fallbacks := [], 0;
    }

    method Feed(byte: Byte) returns (complete: bool)
      requires Valid()
      modifies this
      ensures Valid()
      ensures fed == old(fed) + [byte]
      ensures complete <==> EndsWith(fed, pattern)
    {
      ghost var h := fed;
      assert Candidate(pattern, h, byte, |pattern|, matched);
      while matched > 0 && byte != pattern[matched]
        invariant Candidate(pattern, h, byte, |pattern|, matched)
        invariant fed == h && fallbacks + matched <= |h|
      {
        Fallback(pattern, prefix, |pattern|, h, byte, |pattern|, matched);
        matched := prefix[matched - 1];
        fallbacks := fallbacks + 1;
      }
      SearchDone(pattern, h, byte, |pattern|, matched);
      fed := fed + [byte];
      if byte == pattern[matched] {
        matched := matched + 1;
      }
      assert EndsWith(fed, pattern) <==> EndsWithPrefix(fed, pattern, |pattern|) by {
        assert pattern[..|pattern|] == pattern;
      }
      if matched == |pattern| {
        AfterFullMatch(pattern, prefix, fed);
        matched := prefix[matched - 1];
        fallbacks := fallbacks + 1;
        complete := true;
      } else {
        complete := false;
      }
    }

    method Reset()
      requires Valid()
      modifies this
      ensures Valid() && fed == [] && matched == 0
    {
      matched := 0;
      fed, fallbacks := [], 0;
    }

    /** Records bytes that a caller may skip because they cannot start a match. */
    ghost method Skip(bytes: seq<Byte>)
      requires Valid() && matched == 0
      requires pattern[0] !in bytes
      modifies this
      ensures Valid() && matched == 0 && fed == old(fed) + bytes
    {
      IdleOverForeignBytes(pattern, fed, bytes);
      fed := fed + bytes;
    }
  }
}
