/**
 * Properties of the registry's deduplication and of the `Add` command, which
 * appends one host and then deduplicates the whole list.
 */
module RegistryProperties {
  import opened Wrappers
  import opened Registry

  /** No two neighbouring hosts are equal (in all three fields). */
  ghost predicate NoAdjacentDuplicates(s: seq<HostConfig>)
  {
    forall i, j :: 0 <= i < j < |s| && j == i + 1 ==> s[i] != s[j]
  }

  /** Index `i` begins a run of equal hosts: it is the first index, or its host differs from the one before. */
  predicate IsRunStart(s: seq<HostConfig>, i: int)
  {
    0 <= i < |s| && (i == 0 || s[i] != s[i - 1])
  }

  /** The indices below `n` at which runs of equal hosts begin, in increasing order. */
  function RunStartsPrefix(s: seq<HostConfig>, n: nat): (idx: seq<nat>)
    requires n <= |s|
    ensures forall k :: 0 <= k < |idx| ==> idx[k] < n
    ensures forall k, l :: 0 <= k < l < |idx| ==> idx[k] < idx[l]
  {
    if n == 0 then []
    else if n == 1 then [0]
    else if s[n - 1] == s[n - 2] then RunStartsPrefix(s, n - 1)
    else RunStartsPrefix(s, n - 1) + [n - 1]
  }

  /** The indices at which runs of equal hosts begin. */
  function RunStarts(s: seq<HostConfig>): seq<nat>
  {
    RunStartsPrefix(s, |s|)
  }

  /** On every prefix, deduplication picks the hosts at the run starts, in order. */
  lemma {:induction false} DedupPrefixAtRunStarts(s: seq<HostConfig>, n: nat)
    requires n <= |s|
    ensures |RunStartsPrefix(s, n)| == |DedupPrefix(s, n)|
    ensures forall k :: 0 <= k < |RunStartsPrefix(s, n)| ==> DedupPrefix(s, n)[k] == s[RunStartsPrefix(s, n)[k]]
  {
    if n >= 2 {
      DedupPrefixAtRunStarts(s, n - 1);
    }
  }

  /** The run starts listed for a prefix are exactly the run starts below its length. */
  lemma {:induction false} RunStartsPrefixExact(s: seq<HostConfig>, n: nat)
    requires n <= |s|
    ensures forall i :: 0 <= i < n ==> (i in RunStartsPrefix(s, n) <==> IsRunStart(s, i))
  {
    if n >= 2 {
      RunStartsPrefixExact(s, n - 1);
      var prev := RunStartsPrefix(s, n - 1);
      assert n - 1 !in prev;
      assert IsRunStart(s, n - 1) <==> s[n - 1] != s[n - 2];
    }
  }

  /**
   * Deduplication keeps exactly the host at the start of every run, in order:
   * the result is the subsequence of the input picked out by the run starts.
   */
  lemma DedupKeepsRunStarts(s: seq<HostConfig>)
    ensures |RunStarts(s)| == |Dedup(s)|
    ensures forall k :: 0 <= k < |RunStarts(s)| ==> RunStarts(s)[k] < |s| && Dedup(s)[k] == s[RunStarts(s)[k]]
    ensures forall k, l :: 0 <= k < l < |RunStarts(s)| ==> RunStarts(s)[k] < RunStarts(s)[l]
    ensures forall i :: 0 <= i < |s| ==> (i in RunStarts(s) <==> IsRunStart(s, i))
  {
    DedupPrefixAtRunStarts(s, |s|);
    RunStartsPrefixExact(s, |s|);
  }

  /** No two neighbours of a deduplicated prefix are equal. */
  lemma {:induction false} DedupPrefixHasNoAdjacentDuplicates(s: seq<HostConfig>, n: nat)
    requires n <= |s|
    ensures NoAdjacentDuplicates(DedupPrefix(s, n))
  {
    if n >= 2 {
      DedupPrefixHasNoAdjacentDuplicates(s, n - 1);
    }
  }

  /** No two neighbours of a deduplicated list are equal. */
  lemma DedupHasNoAdjacentDuplicates(s: seq<HostConfig>)
    ensures NoAdjacentDuplicates(Dedup(s))
  {
    DedupPrefixHasNoAdjacentDuplicates(s, |s|);
  }

  /** Without neighbouring duplicates, every prefix is left as it is. */
  lemma {:induction false} DedupPrefixOfDistinctNeighbours(s: seq<HostConfig>, n: nat)
    requires n <= |s| && NoAdjacentDuplicates(s)
    ensures DedupPrefix(s, n) == s[..n]
  {
    if n >= 2 {
      DedupPrefixOfDistinctNeighbours(s, n - 1);
      assert s[n - 2] != s[n - 1];
      assert s[..n - 1] + [s[n - 1]] == s[..n];
    }
  }

  /** A list without neighbouring duplicates is left as it is. */
  lemma DedupOfDistinctNeighbours(s: seq<HostConfig>)
    requires NoAdjacentDuplicates(s)
    ensures Dedup(s) == s
  {
    DedupPrefixOfDistinctNeighbours(s, |s|);
  }

  /** Deduplicating twice gives the same list as deduplicating once. */
  lemma DedupIdempotent(s: seq<HostConfig>)
    ensures Dedup(Dedup(s)) == Dedup(s)
  {
    DedupHasNoAdjacentDuplicates(s);
    DedupOfDistinctNeighbours(Dedup(s));
  }

  /** Deduplication never loses a distinct host and never introduces one. */
  lemma DedupKeepsEveryHost(s: seq<HostConfig>)
    ensures forall h :: h in Dedup(s) <==> h in s
  {
    DedupKeepsRunStarts(s);
    var d, idx := Dedup(s), RunStarts(s);
    forall h | h in s
      ensures h in d
    {
      var i :| 0 <= i < |s| && s[i] == h;
      var j := i;
      while j > 0 && s[j - 1] == s[j]
        invariant 0 <= j <= i && s[j] == h
      {
        j := j - 1;
      }
      assert IsRunStart(s, j);
      var m :| 0 <= m < |idx| && idx[m] == j;
      assert d[m] == h;
    }
  }

  /** `Find` returns the host at the first matching index. */
  lemma FindReturnsFirstMatch(s: seq<HostConfig>, p: HostConfig -> bool, i: int)
    requires IsFirstMatch(s, p, i)
    ensures Find(s, p) == Some(s[i])
  {
    assert Find(s, p).Some?;
    var k :| IsFirstMatch(s, p, k) && s[k] == Find(s, p).value;
    assert IsFirstMatch(s, p, k);
    assert 0 <= k < |s|;
    assert k == i;
  }

  /** The first match in a list lies at a run start, so deduplication keeps it and nothing before it matches. */
  lemma FirstMatchSurvivesDedup(s: seq<HostConfig>, p: HostConfig -> bool, i: int)
    requires IsFirstMatch(s, p, i)
    ensures exists m :: IsFirstMatch(Dedup(s), p, m) && Dedup(s)[m] == s[i]
  {
    var d, idx := Dedup(s), RunStarts(s);
    DedupKeepsRunStarts(s);
    assert IsRunStart(s, i);
    var m :| 0 <= m < |idx| && idx[m] == i;
    forall k | 0 <= k < m
      ensures !p(d[k])
    {
      assert idx[k] < i;
    }
    assert IsFirstMatch(d, p, m);
  }

  /**
   * Deduplication does not change what a lookup finds: the first host that
   * satisfies `p` is the same before and after.
   */
  lemma DedupPreservesFind(s: seq<HostConfig>, p: HostConfig -> bool)
    ensures Find(Dedup(s), p) == Find(s, p)
  {
    if Find(s, p).Some? {
      var i :| IsFirstMatch(s, p, i) && s[i] == Find(s, p).value;
      FirstMatchSurvivesDedup(s, p, i);
      var m :| IsFirstMatch(Dedup(s), p, m) && Dedup(s)[m] == s[i];
      FindReturnsFirstMatch(Dedup(s), p, m);
    } else {
      DedupKeepsEveryHost(s);
      assert forall k :: 0 <= k < |Dedup(s)| ==> Dedup(s)[k] in s;
    }
  }

  /** Deduplicating a prefix looks only at the hosts in that prefix. */
  lemma {:induction false} DedupPrefixLocal(s: seq<HostConfig>, t: seq<HostConfig>, n: nat)
    requires n <= |s| && n <= |t| && s[..n] == t[..n]
    ensures DedupPrefix(s, n) == DedupPrefix(t, n)
  {
    if n >= 2 {
      assert s[..n - 1] == t[..n - 1] by {
        assert s[..n][..n - 1] == s[..n - 1] && t[..n][..n - 1] == t[..n - 1];
      }
      DedupPrefixLocal(s, t, n - 1);
      assert s[n - 1] == s[..n][n - 1] && s[n - 2] == s[..n][n - 2];
      assert t[n - 1] == t[..n][n - 1] && t[n - 2] == t[..n][n - 2];
    } else {
      assert s[..n] == t[..n];
    }
  }

  /**
   * The `Add` command: appending one host and deduplicating drops the new
   * host exactly when it equals the current last host.
   */
  lemma AddThenDedup(hosts: seq<HostConfig>, h: HostConfig)
    ensures Dedup(hosts + [h]) ==
            if |hosts| > 0 && hosts[|hosts| - 1] == h then Dedup(hosts) else Dedup(hosts) + [h]
  {
    var n := |hosts|;
    assert (hosts + [h])[..n] == hosts[..n];
    DedupPrefixLocal(hosts + [h], hosts, n);
  }

  /**
   * On a registry that is already deduplicated, adding a host identical to
   * the last one leaves the list unchanged; adding any other host appends it.
   */
  lemma AddToDeduplicated(hosts: seq<HostConfig>, h: HostConfig)
    requires NoAdjacentDuplicates(hosts)
    ensures |hosts| > 0 && hosts[|hosts| - 1] == h ==> Dedup(hosts + [h]) == hosts
    ensures !(|hosts| > 0 && hosts[|hosts| - 1] == h) ==> Dedup(hosts + [h]) == hosts + [h]
  {
    AddThenDedup(hosts, h);
    DedupOfDistinctNeighbours(hosts);
  }

  /** Equal hosts that are not neighbours both survive: `[x, y, x]` is kept whole. */
  lemma NonAdjacentCopiesSurvive(x: HostConfig, y: HostConfig)
    requires x != y
    ensures Dedup([x, y, x]) == [x, y, x]
  {
  }

  /**
   * Two neighbouring entries for the same address and MAC that differ only in
   * the nickname are not duplicates: both stay, and neither nickname moves.
   */
  lemma NicknameIsPartOfEquality(a: HostConfig, b: HostConfig)
    requires a.ip == b.ip && a.mac == b.mac && a.nickname != b.nickname
    ensures Dedup([a, b]) == [a, b]
  {
  }
}
