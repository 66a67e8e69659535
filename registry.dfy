/**
 * The host registry of the Wake-on-LAN tool: an ordered list of hosts,
 * queried by IP address or by nickname, extended by appending and
 * compacted by removing consecutive duplicates.
 */
module Registry {
  import opened Wrappers

  /** An IPv4 or IPv6 address. The registry only ever compares addresses for equality. */
  datatype IpAddr = V4(v4: bv32) | V6(v6: bv128)

  /**
   * One registry entry. Dafny's structural equality on this datatype compares
   * the nickname, the address and the MAC text, exactly as the derived
   * `PartialEq` of the Rust struct does.
   */
  datatype HostConfig = HostConfig(nickname: Option<string>, ip: IpAddr, mac: string)

  /** The one error the registry reports: "Host is not found." */
  datatype RegistryError = HostNotFound

  /** `p(s[i])` holds and no earlier element of `s` satisfies `p`. */
  ghost predicate IsFirstMatch(s: seq<HostConfig>, p: HostConfig -> bool, i: int)
  {
    0 <= i < |s| && p(s[i]) && forall j :: 0 <= j < i ==> !p(s[j])
  }

  /** `iter().find(p)`: the first element of `s` that satisfies `p`, if there is one. */
  function Find(s: seq<HostConfig>, p: HostConfig -> bool): (r: Option<HostConfig>)
    ensures r.Some? <==> exists i :: 0 <= i < |s| && p(s[i])
    ensures r.Some? ==> exists i :: IsFirstMatch(s, p, i) && s[i] == r.value
  {
    if s == [] then None
    else if p(s[0]) then
      assert IsFirstMatch(s, p, 0);
      Some(s[0])
    else
      FirstMatchOfTail(s, p);
      Find(s[1..], p)
  }

  /** When `s[0]` fails `p`, the first match in `s[1..]` is the first match in `s`, one place later. */
  lemma FirstMatchOfTail(s: seq<HostConfig>, p: HostConfig -> bool)
    requires s != [] && !p(s[0])
    ensures forall i :: IsFirstMatch(s[1..], p, i) ==> IsFirstMatch(s, p, i + 1)
  {
    forall i | IsFirstMatch(s[1..], p, i)
      ensures IsFirstMatch(s, p, i + 1)
    {
      assert forall j :: 1 <= j <= i ==> s[j] == s[1..][j - 1];
    }
  }

  /**
   * `Vec::dedup_by(|a, b| a == b)` on the first `n` hosts of `s`, as a value:
   * every run of consecutive equal hosts collapses to a single member. The
   * definition follows the left-to-right scan: host `n - 1` is dropped exactly
   * when it equals its predecessor, which is then also the last host kept.
   */
  function DedupPrefix(s: seq<HostConfig>, n: nat): (r: seq<HostConfig>)
    requires n <= |s|
    ensures |r| <= n
    ensures n > 0 ==> |r| > 0 && r[0] == s[0] && r[|r| - 1] == s[n - 1]
  {
    if n <= 1 then s[..n]
    else if s[n - 1] == s[n - 2] then DedupPrefix(s, n - 1)
    else DedupPrefix(s, n - 1) + [s[n - 1]]
  }

  /** The whole list after `dedup_by` with the derived equality. */
  function Dedup(s: seq<HostConfig>): seq<HostConfig>
  {
    DedupPrefix(s, |s|)
  }

  /**
   * The closure handed to `dedup_by`, applied to the host `a` under the read
   * index and the last kept host `b`: it reports whether `a` duplicates `b`
   * and gives `b` after the nickname copy. Because equality includes the
   * nickname, the copy only happens when both nicknames are `None`, so `b`
   * comes back unchanged.
   */
  function SameBucket(a: HostConfig, b: HostConfig): (r: (bool, HostConfig))
    ensures r.0 <==> a == b
    ensures r.1 == b
  {
    var eq := a == b;
    (eq, if eq && b.nickname.None? then b.(nickname := a.nickname) else b)
  }

  /**
   * The state of the `dedup_by` scan over the original list `s0`: the first
   * `write` slots of `v` hold the deduplicated prefix `s0[..read]`, and the
   * slots from `read` on still hold the unread hosts.
   */
  ghost predicate ScanState(v: seq<HostConfig>, s0: seq<HostConfig>, read: nat, write: nat)
  {
    1 <= write <= read <= |v| == |s0| &&
    v[..write] == DedupPrefix(s0, read) &&
    forall k :: read <= k < |v| ==> v[k] == s0[k]
  }

  /**
   * One iteration of the scan: the host under the read index is compared
   * with the last host kept, which is its predecessor in `s0`. An equal host
   * is dropped; any other host is moved to the write index.
   */
  lemma ScanStep(v: seq<HostConfig>, s0: seq<HostConfig>, read: nat, write: nat)
    requires ScanState(v, s0, read, write) && read < |v|
    ensures v[read] == s0[read] && v[write - 1] == s0[read - 1]
    ensures v[read] == v[write - 1] ==> ScanState(v, s0, read + 1, write)
    ensures v[read] != v[write - 1] ==> ScanState(v[write := v[read]], s0, read + 1, write + 1)
  {
    assert v[write - 1] == DedupPrefix(s0, read)[write - 1];
    var v' := v[write := v[read]];
    assert v'[..write + 1] == v[..write] + [v[read]];
  }

  /** The configuration file's contents: the list of known hosts. */
  class Config {
    /** The registered hosts, in insertion order. */
    var hosts: seq<HostConfig>

    /** The default configuration: no hosts. */
    constructor ()
      ensures hosts == []
    {
      hosts := [];
    }

    /** The first host registered under `ip`, or `HostNotFound`. */
    function GetHostByIp(ip: IpAddr): (r: Result<HostConfig, RegistryError>)
      reads this
      ensures r.Ok? <==> exists i :: 0 <= i < |hosts| && hosts[i].ip == ip
      ensures r.Ok? ==> exists i :: 0 <= i < |hosts| && hosts[i] == r.value && hosts[i].ip == ip &&
                                   forall j :: 0 <= j < i ==> hosts[j].ip != ip
      ensures r.Err? ==> r.error == HostNotFound
      ensures hosts == [] ==> r.Err?
    {
      match Find(hosts, (h: HostConfig) => h.ip == ip)
      case Some(h) => Ok(h)
      case None => Err(HostNotFound)
    }

    /**
     * The first host whose nickname is present and equal to `nickname`
     * (exact, case-sensitive comparison), or `HostNotFound`. Hosts without a
     * nickname never match.
     */
    function GetHostByNickname(nickname: string): (r: Result<HostConfig, RegistryError>)
      reads this
      ensures r.Ok? <==> exists i :: 0 <= i < |hosts| && hosts[i].nickname == Some(nickname)
      ensures r.Ok? ==> exists i :: 0 <= i < |hosts| && hosts[i] == r.value && hosts[i].nickname == Some(nickname) &&
                                   forall j :: 0 <= j < i ==> hosts[j].nickname != Some(nickname)
      ensures r.Ok? ==> r.value.nickname == Some(nickname)
      ensures r.Err? ==> r.error == HostNotFound
      ensures hosts == [] ==> r.Err?
    {
      match Find(hosts, (h: HostConfig) => h.nickname.Some? && h.nickname.value == nickname)
      case Some(h) => Ok(h)
      case None => Err(HostNotFound)
    }

    /** Appends `added` after the existing hosts, keeping both orders. */
    method AddHosts(added: seq<HostConfig>)
      modifies this
      ensures hosts == old(hosts) + added
    {
      hosts := hosts + added;
    }

    /**
     * Removes consecutive duplicates in place, with the read/write scan of
     * `Vec::dedup_by`: `a` is the host under the read index, `b` the last host
     * kept. When `a == b` the closure copies `a`'s nickname into `b` if `b` has
     * none, and `a` is dropped. Since the equality covers the nickname, that
     * copy writes `None` over `None`: every surviving host is its input host.
     */
    method DedupHosts()
      modifies this
      ensures hosts == Dedup(old(hosts))
    {
      var len := |hosts|;
      if len <= 1 {
        return;
      }
      ghost var s0 := hosts;
      var read, write := 1, 1;
      while read < len
        invariant ScanState(hosts, s0, read, write)
      {
        ScanStep(hosts, s0, read, write);
        var (eq, kept) := SameBucket(hosts[read], hosts[write - 1]);
        hosts := hosts[write - 1 := kept];
        if !eq {
          hosts := hosts[write := hosts[read]];
          write := write + 1;
        }
        read := read + 1;
      }
      hosts := hosts[..write];
    }
  }
}
