/**
 * Removing exact duplicates and flagging siblings (`src/trackers/dedup.py`): what is kept, what
 * is recorded about it, and that the order of the input never shows.
 */
module Dedup {
  import opened Collections
  import opened Order
  import opened Keys

  /** `key` is `Tracker.sort_key()`; `rest` is everything else a tracker carries. */
  datatype Tracker<K> = Tracker(url: string, host: string, key: K, rest: string)

  datatype Decision =
    | ExactDuplicate(kept: string, other: string)
    | SiblingEndpoint(kept: string, other: string)

  /** Whether a decision removed something. */
  predicate Acted(d: Decision) { d.ExactDuplicate? }

  datatype Result<K> = Result(trackers: seq<Tracker<K>>, decisions: seq<Decision>)

  function ByKey<K(==, !new)>(less: (K, K) -> bool): (Tracker<K>, Tracker<K>) -> bool {
    (a: Tracker<K>, b: Tracker<K>) => less(a.key, b.key)
  }

  function Urls<K(==, !new)>(ts: seq<Tracker<K>>): (r: seq<string>)
    ensures |r| == |ts| && forall i :: 0 <= i < |ts| ==> r[i] == ts[i].url
  {
    seq(|ts|, i requires 0 <= i < |ts| => ts[i].url)
  }

  // ---- question 1 ---------------------------------------------------------------------------------

  /** The first tracker of each URL, in order. */
  function Kept<K(==, !new)>(ordered: seq<Tracker<K>>): (r: seq<Tracker<K>>)
    ensures forall t :: t in r ==> t in ordered
  {
    if ordered == [] then []
    else
      var n := |ordered| - 1;
      assert ordered == ordered[..n] + [ordered[n]];
      var before := Kept(ordered[..n]);
      if ordered[n].url in Urls(before) then before else before + [ordered[n]]
  }

  function Duplicates<K(==, !new)>(ordered: seq<Tracker<K>>): seq<Decision> {
    if ordered == [] then []
    else
      var n := |ordered| - 1;
      var before := Duplicates(ordered[..n]);
      var url := ordered[n].url;
      if url in Urls(Kept(ordered[..n])) then before + [ExactDuplicate(url, url)] else before
  }

  // ---- question 2 ---------------------------------------------------------------------------------

  /** The kept trackers of one host, in order. */
  function OfHost<K(==, !new)>(kept: seq<Tracker<K>>, host: string): (r: seq<Tracker<K>>)
    ensures forall t :: t in r <==> t in kept && t.host == host
  {
    if kept == [] then []
    else
      var n := |kept| - 1;
      assert kept == kept[..n] + [kept[n]];
      OfHost(kept[..n], host) + (if kept[n].host == host then [kept[n]] else [])
  }

  /** `min(group, key=...)`: the first that nothing is less than. */
  function Least<K(==, !new)>(group: seq<Tracker<K>>, less: (K, K) -> bool): (r: Tracker<K>)
    requires group != []
    ensures r in group
  {
    var n := |group| - 1;
    if n == 0 then group[0]
    else
      var best := Least(group[..n], less);
      if less(group[n].key, best.key) then group[n] else best
  }

  function Others<K(==, !new)>(group: seq<Tracker<K>>, canonical: string): seq<Decision> {
    if group == [] then []
    else
      var n := |group| - 1;
      Others(group[..n], canonical)
      + (if group[n].url == canonical then [] else [SiblingEndpoint(canonical, group[n].url)])
  }

  /** What is recorded about one host. */
  function SiblingsOf<K(==, !new)>(kept: seq<Tracker<K>>, host: string, less: (K, K) -> bool): seq<Decision> {
    var group := OfHost(kept, host);
    if |group| < 2 then [] else Others(group, Least(group, less).url)
  }

  function Siblings<K(==, !new)>(kept: seq<Tracker<K>>, hosts: seq<string>, less: (K, K) -> bool): seq<Decision> {
    if hosts == [] then []
    else Siblings(kept, hosts[..|hosts| - 1], less) + SiblingsOf(kept, hosts[|hosts| - 1], less)
  }

  function Hosts<K(==, !new)>(kept: seq<Tracker<K>>): set<string> { set t | t in kept :: t.host }

  function Dedup<K(==, !new)>(ts: seq<Tracker<K>>, less: (K, K) -> bool): Result<K> {
    var ordered := Sort(ts, ByKey(less));
    var kept := Kept(ordered);
    Result(kept, Duplicates(ordered) + Siblings(kept, SortedKeys(Hosts(kept)), less))
  }

  // ---- the loops ------------------------------------------------------------------------------------

  /** The first loop: `seen` is the dictionary of kept URLs. */
  method KeepFirst<K(==, !new)>(ordered: seq<Tracker<K>>) returns (trackers: seq<Tracker<K>>, decisions: seq<Decision>)
    ensures trackers == Kept(ordered) && decisions == Duplicates(ordered)
  {
    var seen: map<string, Tracker<K>> := map[];
    trackers, decisions := [], [];
    for i := 0 to |ordered|
      invariant trackers == Kept(ordered[..i]) && decisions == Duplicates(ordered[..i])
      invariant forall u :: u in seen <==> u in Urls(trackers)
      invariant forall u :: u in seen ==> seen[u].url == u
    {
      assert ordered[..i + 1][..i] == ordered[..i];
      var t := ordered[i];
      if t.url in seen {
        decisions := decisions + [ExactDuplicate(seen[t.url].url, t.url)];
      } else {
        seen := seen[t.url := t];
        assert Urls(trackers + [t]) == Urls(trackers) + [t.url];
        trackers := trackers + [t];
      }
    }
    assert ordered[..|ordered|] == ordered;
  }

  lemma {:induction false} NoneOfHost<K(!new)>(kept: seq<Tracker<K>>, host: string)
    ensures OfHost(kept, host) == [] <==> host !in Hosts(kept)
  {
    if kept != [] {
      var n := |kept| - 1;
      assert kept == kept[..n] + [kept[n]];
      NoneOfHost(kept[..n], host);
    }
  }

  lemma {:induction false} OneMoreKept<K(!new)>(kept: seq<Tracker<K>>, i: nat, h: string)
    requires i < |kept|
    ensures OfHost(kept[..i + 1], h) == OfHost(kept[..i], h) + (if kept[i].host == h then [kept[i]] else [])
    ensures Hosts(kept[..i + 1]) == Hosts(kept[..i]) + {kept[i].host}
  {
    assert kept[..i + 1] == kept[..i] + [kept[i]];
    assert kept[..i + 1][..i] == kept[..i];
  }

  /** `by_host`: the kept trackers grouped. */
  method GroupByHost<K(==, !new)>(kept: seq<Tracker<K>>) returns (byHost: map<string, seq<Tracker<K>>>)
    ensures byHost.Keys == Hosts(kept)
    ensures forall h :: h in byHost ==> byHost[h] == OfHost(kept, h)
  {
    hide OfHost, Hosts;
    byHost := map[];
    assert Hosts<K>([]) == {} by { NoHosts<K>(); }
    for i := 0 to |kept|
      invariant byHost.Keys == Hosts(kept[..i])
      invariant forall h :: h in byHost ==> byHost[h] == OfHost(kept[..i], h)
    {
      var t := kept[i];
      NoneOfHost(kept[..i], t.host);
      ghost var was := byHost;
      byHost := byHost[t.host := (if t.host in byHost then byHost[t.host] else []) + [t]];
      OneMoreKept(kept, i, t.host);
      forall h | h in byHost ensures byHost[h] == OfHost(kept[..i + 1], h) {
        OneMoreKept(kept, i, h);
      }
    }
    assert kept[..|kept|] == kept;
  }

  lemma {:induction false} NoHosts<K(!new)>()
    ensures Hosts<K>([]) == {}
  {
  }

  /** `deduplicate`. */
  method Deduplicate<K(==, !new)>(ts: seq<Tracker<K>>, less: (K, K) -> bool) returns (result: Result<K>)
    ensures result == Dedup(ts, less)
  {
    hide Sort, SortedKeys, Kept, Duplicates, OfHost, Least, Siblings, Hosts;
    var trackers, decisions := KeepFirst(Sort(ts, ByKey(less)));
    var byHost := GroupByHost(trackers);
    var siblings := RecordSiblings(trackers, byHost, SortedKeys(byHost.Keys), less);
    result := Result(trackers, decisions + siblings);
  }

  /** The second loop, over the hosts in order. */
  method RecordSiblings<K(==, !new)>(ghost kept: seq<Tracker<K>>, byHost: map<string, seq<Tracker<K>>>,
                                     hosts: seq<string>, less: (K, K) -> bool) returns (decisions: seq<Decision>)
    requires forall h :: h in hosts ==> h in byHost
    requires forall h :: h in byHost ==> byHost[h] == OfHost(kept, h)
    ensures decisions == Siblings(kept, hosts, less)
  {
    hide OfHost, Least, Others;
    decisions := [];
    for i := 0 to |hosts|
      invariant decisions == Siblings(kept, hosts[..i], less)
    {
      assert hosts[..i + 1][..i] == hosts[..i];
      var group := byHost[hosts[i]];
      if |group| >= 2 {
        decisions := decisions + Others(group, Least(group, less).url);
      }
    }
    assert hosts[..|hosts|] == hosts;
  }

  // ---- what is kept ---------------------------------------------------------------------------------

  lemma {:induction false} UrlsOfAppend<K(!new)>(a: seq<Tracker<K>>, t: Tracker<K>)
    ensures Urls(a + [t]) == Urls(a) + [t.url]
  {
  }

  lemma {:induction false} KeptUrls<K(!new)>(ordered: seq<Tracker<K>>)
    ensures forall u :: u in Urls(Kept(ordered)) <==> u in Urls(ordered)
    ensures NoRepeats(Urls(Kept(ordered)))
    ensures |Kept(ordered)| + |Duplicates(ordered)| == |ordered|
    ensures forall d :: d in Duplicates(ordered) ==>
              d.ExactDuplicate? && d.kept == d.other && d.kept in Urls(Kept(ordered))
  {
    if ordered != [] {
      var n := |ordered| - 1;
      KeptUrls(ordered[..n]);
      assert ordered == ordered[..n] + [ordered[n]];
      UrlsOfAppend(ordered[..n], ordered[n]);
      UrlsOfAppend(Kept(ordered[..n]), ordered[n]);
      assert Urls(Kept(ordered)) == Urls(Kept(ordered[..n]))
          || Urls(Kept(ordered)) == Urls(Kept(ordered[..n])) + [ordered[n].url];
      assert Duplicates(ordered) == Duplicates(ordered[..n])
          || Duplicates(ordered) == Duplicates(ordered[..n]) + [ExactDuplicate(ordered[n].url, ordered[n].url)];
    }
  }

  /** The survivor of each URL is the least of its copies, and the survivors stay in order. */
  lemma {:induction false} KeptLeast<K(!new)>(ordered: seq<Tracker<K>>, less: (K, K) -> bool)
    requires Ascending(ordered, ByKey(less))
    ensures Ascending(Kept(ordered), ByKey(less))
    ensures forall t, s :: t in Kept(ordered) && s in ordered && s.url == t.url ==> !less(s.key, t.key) || s == t
  {
    if ordered != [] {
      hide Urls, ByKey;
      var n := |ordered| - 1;
      assert ordered == ordered[..n] + [ordered[n]];
      assert Ascending(ordered[..n], ByKey(less));
      KeptLeast(ordered[..n], less);
      LastIsGreatest(ordered, less);
      if ordered[n].url !in Urls(Kept(ordered[..n])) {
        NewUrl(ordered[..n], ordered[n].url);
      }
    }
  }

  lemma {:induction false} LastIsGreatest<K(!new)>(ordered: seq<Tracker<K>>, less: (K, K) -> bool)
    requires ordered != [] && Ascending(ordered, ByKey(less))
    ensures var n := |ordered| - 1;
            forall t :: t in ordered[..n] ==> !less(ordered[n].key, t.key) && !ByKey(less)(ordered[n], t)
  {
    var n := |ordered| - 1;
    forall t | t in ordered[..n] ensures !ByKey(less)(ordered[n], t) {
      var i :| 0 <= i < n && ordered[i] == t;
      assert !ByKey(less)(ordered[n], ordered[i]);
    }
  }

  lemma {:induction false} NewUrl<K(!new)>(earlier: seq<Tracker<K>>, url: string)
    requires url !in Urls(Kept(earlier))
    ensures forall s :: s in earlier ==> s.url != url
  {
    KeptUrls(earlier);
    forall s | s in earlier ensures s.url != url {
      var i :| 0 <= i < |earlier| && earlier[i] == s;
      assert Urls(earlier)[i] == s.url;
    }
  }

  // ---- what is recorded about a host --------------------------------------------------------------------

  lemma {:induction false} LeastIsLeast<K(!new)>(group: seq<Tracker<K>>, less: (K, K) -> bool)
    requires group != [] && StrictWeak(less)
    ensures forall t :: t in group ==> !less(t.key, Least(group, less).key)
  {
    var n := |group| - 1;
    assert group == group[..n] + [group[n]];
    if n > 0 {
      LeastIsLeast(group[..n], less);
    }
  }

  lemma {:induction false} HostUrls<K(!new)>(kept: seq<Tracker<K>>, host: string)
    requires NoRepeats(Urls(kept))
    ensures NoRepeats(Urls(OfHost(kept, host)))
    ensures forall u :: u in Urls(OfHost(kept, host)) ==> u in Urls(kept)
  {
    if kept != [] {
      var n := |kept| - 1;
      assert kept == kept[..n] + [kept[n]];
      UrlsOfAppend(kept[..n], kept[n]);
      UrlsOfAppend(OfHost(kept[..n], host), kept[n]);
      assert forall i :: 0 <= i < n ==> Urls(kept[..n])[i] == Urls(kept)[i];
      HostUrls(kept[..n], host);
      assert Urls(kept)[n] !in Urls(kept[..n]);
    }
  }

  /** Every URL of the group but the canonical one, each once. */
  lemma {:induction false} OthersExactly<K(!new)>(group: seq<Tracker<K>>, canonical: string)
    requires NoRepeats(Urls(group))
    ensures |Others(group, canonical)| == |group| - (if canonical in Urls(group) then 1 else 0)
    ensures forall d :: d in Others(group, canonical) <==>
              d.SiblingEndpoint? && d.kept == canonical && d.other != canonical && d.other in Urls(group)
    ensures NoRepeats(Others(group, canonical))
  {
    if group != [] {
      var n := |group| - 1;
      assert group == group[..n] + [group[n]];
      UrlsOfAppend(group[..n], group[n]);
      assert forall i :: 0 <= i < n ==> Urls(group[..n])[i] == Urls(group)[i];
      OthersExactly(group[..n], canonical);
      assert Urls(group)[n] !in Urls(group[..n]);
    }
  }

  /** A host with m endpoints: m - 1 sibling records naming the least of them, and nothing for one. */
  lemma {:induction false} SiblingsOfHost<K(!new)>(kept: seq<Tracker<K>>, host: string, less: (K, K) -> bool)
    requires NoRepeats(Urls(kept)) && StrictWeak(less) && host in Hosts(kept)
    ensures var group := OfHost(kept, host);
            var canonical := Least(group, less);
            var ds := SiblingsOf(kept, host, less);
            && group != []
            && (forall t :: t in group ==> !less(t.key, canonical.key))
            && |ds| == |group| - 1 && NoRepeats(ds)
            && forall d :: d in ds <==>
                 d.SiblingEndpoint? && d.kept == canonical.url && d.other != canonical.url && d.other in Urls(group)
  {
    hide OfHost, Least;
    var group := OfHost(kept, host);
    NoneOfHost(kept, host);
    HostUrls(kept, host);
    LeastIsLeast(group, less);
    var canonical := Least(group, less);
    var i :| 0 <= i < |group| && group[i] == canonical;
    assert Urls(group)[i] == canonical.url;
    OthersExactly(group, canonical.url);
  }

  lemma {:induction false} SumOfGroups<K(!new)>(kept: seq<Tracker<K>>, hosts: seq<string>)
    requires NoRepeats(hosts)
    ensures Total(kept, hosts) == |Of(kept, hosts)|
  {
    if kept == [] {
      EmptyTotal<K>(hosts);
    } else {
      var n := |kept| - 1;
      SumOfGroups(kept[..n], hosts);
      OneMoreInTotal(kept, hosts);
    }
  }

  /** How many endpoints the hosts have together. */
  ghost function Total<K(!new)>(kept: seq<Tracker<K>>, hosts: seq<string>): nat {
    if hosts == [] then 0 else Total(kept, hosts[..|hosts| - 1]) + |OfHost(kept, hosts[|hosts| - 1])|
  }

  /** The endpoints of any of the hosts. */
  function Of<K(!new)>(kept: seq<Tracker<K>>, hosts: seq<string>): seq<Tracker<K>> {
    if kept == [] then []
    else Of(kept[..|kept| - 1], hosts) + (if kept[|kept| - 1].host in hosts then [kept[|kept| - 1]] else [])
  }

  lemma {:induction false} EmptyTotal<K(!new)>(hosts: seq<string>)
    ensures Total<K>([], hosts) == 0
  {
    if hosts != [] {
      EmptyTotal<K>(hosts[..|hosts| - 1]);
    }
  }

  lemma {:induction false} OneMoreInTotal<K(!new)>(kept: seq<Tracker<K>>, hosts: seq<string>)
    requires kept != [] && NoRepeats(hosts)
    ensures var n := |kept| - 1;
            Total(kept, hosts) == Total(kept[..n], hosts) + (if kept[n].host in hosts then 1 else 0)
  {
    if hosts != [] {
      hide OfHost;
      var n, m := |kept| - 1, |hosts| - 1;
      assert hosts == hosts[..m] + [hosts[m]];
      OneMoreInTotal(kept, hosts[..m]);
      OneMoreKept(kept, n, hosts[m]);
      assert kept[..n + 1] == kept;
      assert hosts[m] !in hosts[..m];
    }
  }

  lemma {:induction false} AllOf<K(!new)>(kept: seq<Tracker<K>>, hosts: seq<string>)
    requires forall t :: t in kept ==> t.host in hosts
    ensures Of(kept, hosts) == kept
  {
    if kept != [] {
      var n := |kept| - 1;
      assert kept == kept[..n] + [kept[n]];
      AllOf(kept[..n], hosts);
    }
  }

  lemma {:induction false} SiblingTotal<K(!new)>(kept: seq<Tracker<K>>, hosts: seq<string>, less: (K, K) -> bool)
    requires NoRepeats(Urls(kept)) && StrictWeak(less)
    requires forall h :: h in hosts ==> h in Hosts(kept)
    ensures |Siblings(kept, hosts, less)| == Total(kept, hosts) - |hosts|
    ensures forall d :: d in Siblings(kept, hosts, less) <==> exists h :: h in hosts && d in SiblingsOf(kept, h, less)
  {
    if hosts != [] {
      hide OfHost, SiblingsOf, Hosts;
      var m := |hosts| - 1;
      assert hosts == hosts[..m] + [hosts[m]];
      SiblingTotal(kept, hosts[..m], less);
      assert hosts[m] in hosts;
      SiblingsOfHost(kept, hosts[m], less);
    }
  }

  // ---- the whole pass -----------------------------------------------------------------------------------

  lemma {:induction false} KeyOrder<K(!new)>(less: (K, K) -> bool)
    requires StrictWeak(less)
    ensures StrictWeak(ByKey(less))
  {
    var lt := ByKey(less);
    forall x, y, z
      ensures !lt(x, x) && (lt(x, y) ==> !lt(y, x)) && (lt(x, y) && lt(y, z) ==> lt(x, z))
      ensures !lt(x, y) && !lt(y, z) ==> !lt(x, z)
    {
      assert lt(x, y) == less(x.key, y.key) && lt(y, z) == less(y.key, z.key) && lt(x, z) == less(x.key, z.key);
      assert lt(y, x) == less(y.key, x.key) && lt(x, x) == less(x.key, x.key);
    }
  }

  lemma {:induction false} SortedUrls<K(!new)>(ts: seq<Tracker<K>>, less: (K, K) -> bool)
    requires StrictWeak(less)
    ensures var ordered := Sort(ts, ByKey(less));
            && |ordered| == |ts| && Ascending(ordered, ByKey(less))
            && (forall t :: t in ordered <==> t in ts)
            && forall u :: u in Urls(ordered) <==> u in Urls(ts)
  {
    hide Sort;
    var ordered := Sort(ts, ByKey(less));
    KeyOrder(less);
    SortAscends(ts, ByKey(less));
    SameElements(ts, ordered);
    forall u ensures u in Urls(ordered) <==> u in Urls(ts) {
      if u in Urls(ordered) {
        var i :| 0 <= i < |ordered| && Urls(ordered)[i] == u;
        assert ordered[i] in ts;
        var j :| 0 <= j < |ts| && ts[j] == ordered[i];
        assert Urls(ts)[j] == u;
      }
      if u in Urls(ts) {
        var i :| 0 <= i < |ts| && Urls(ts)[i] == u;
        assert ts[i] in ordered;
        var j :| 0 <= j < |ordered| && ordered[j] == ts[i];
        assert Urls(ordered)[j] == u;
      }
    }
  }

  function RemovedCount(ds: seq<Decision>): nat {
    if ds == [] then 0 else RemovedCount(ds[..|ds| - 1]) + (if Acted(ds[|ds| - 1]) then 1 else 0)
  }

  lemma {:induction false} RemovedIn(a: seq<Decision>, b: seq<Decision>)
    requires (forall d :: d in a ==> Acted(d)) && (forall d :: d in b ==> !Acted(d))
    ensures RemovedCount(a + b) == |a|
  {
    if b != [] {
      assert (a + b)[..|a + b| - 1] == a + b[..|b| - 1];
      RemovedIn(a, b[..|b| - 1]);
    } else {
      assert a + b == a;
      if a != [] {
        RemovedIn(a[..|a| - 1], []);
        assert a[..|a| - 1] + [] == a[..|a| - 1];
      }
    }
  }

  /**
   * Exactly the input's URLs are kept, each once and in order, each by the least of its copies;
   * what was kept and what was removed add up to the input; and beyond the removals there is one
   * record for every kept endpoint that is not the least of its host.
   */
  lemma {:induction false} KeepsEveryUrl<K(!new)>(ts: seq<Tracker<K>>, less: (K, K) -> bool)
    requires StrictWeak(less)
    ensures var r := Dedup(ts, less);
            && (forall u :: u in Urls(r.trackers) <==> u in Urls(ts))
            && NoRepeats(Urls(r.trackers)) && Ascending(r.trackers, ByKey(less))
            && (forall t, s :: t in r.trackers && s in ts && s.url == t.url ==> !less(s.key, t.key) || s == t)
            && |r.trackers| + RemovedCount(r.decisions) == |ts|
            && |r.decisions| == |ts| - |Hosts(r.trackers)|
  {
    hide Sort, Kept, Duplicates, SortedKeys, OfHost, Siblings, Hosts, Total, Of, RemovedCount;
    var ordered := Sort(ts, ByKey(less));
    SortedUrls(ts, less);
    KeptUrls(ordered);
    KeptLeast(ordered, less);
    var kept := Kept(ordered);
    var hosts := SortedKeys(Hosts(kept));
    SiblingTotal(kept, hosts, less);
    SumOfGroups(kept, hosts);
    assert forall t :: t in kept ==> t.host in hosts by { HostIn(kept); }
    AllOf(kept, hosts);
    SiblingsNeverAct(kept, hosts, less);
    RemovedIn(Duplicates(ordered), Siblings(kept, hosts, less));
    OnePerHost(Hosts(kept), hosts);
  }

  lemma {:induction false} HostIn<K(!new)>(kept: seq<Tracker<K>>)
    ensures forall t :: t in kept ==> t.host in Hosts(kept)
  {
  }

  lemma {:induction false} OnePerHost(s: set<string>, r: seq<string>)
    requires NoRepeats(r) && forall k :: k in r <==> k in s
    ensures |r| == |s|
  {
    if r != [] {
      var n := |r| - 1;
      assert r == r[..n] + [r[n]];
      OnePerHost(s - {r[n]}, r[..n]);
    }
  }

  lemma {:induction false} SiblingsNeverAct<K(!new)>(kept: seq<Tracker<K>>, hosts: seq<string>, less: (K, K) -> bool)
    requires NoRepeats(Urls(kept)) && StrictWeak(less)
    requires forall h :: h in hosts ==> h in Hosts(kept)
    ensures forall d :: d in Siblings(kept, hosts, less) ==> !Acted(d)
  {
    hide OfHost, SiblingsOf, Siblings, Hosts;
    SiblingTotal(kept, hosts, less);
    forall d | d in Siblings(kept, hosts, less) ensures !Acted(d) {
      var h :| h in hosts && d in SiblingsOf(kept, h, less);
      SiblingsOfHost(kept, h, less);
    }
  }

  // ---- order independence -----------------------------------------------------------------------------------

  /** A tracker without what no decision looks at. */
  function Bare<K(!new)>(t: Tracker<K>): Tracker<K> { t.(rest := "") }

  function AllBare<K(!new)>(ts: seq<Tracker<K>>): (r: seq<Tracker<K>>)
    ensures |r| == |ts| && forall i :: 0 <= i < |ts| ==> r[i] == Bare(ts[i])
  {
    seq(|ts|, i requires 0 <= i < |ts| => Bare(ts[i]))
  }

  lemma {:induction false} BareAppend<K(!new)>(a: seq<Tracker<K>>, t: Tracker<K>)
    ensures AllBare(a + [t]) == AllBare(a) + [Bare(t)]
  {
  }

  lemma {:induction false} BareInsert<K(!new)>(s: seq<Tracker<K>>, x: Tracker<K>, less: (K, K) -> bool)
    ensures AllBare(Insert(s, x, ByKey(less))) == Insert(AllBare(s), Bare(x), ByKey(less))
  {
    var lt := ByKey(less);
    if s == [] || !lt(x, s[|s| - 1]) {
      BareAppend(s, x);
    } else {
      var n := |s| - 1;
      BareInsert(s[..n], x, less);
      BareAppend(Insert(s[..n], x, lt), s[n]);
      assert AllBare(s)[..n] == AllBare(s[..n]);
    }
  }

  lemma {:induction false} BareSort<K(!new)>(ts: seq<Tracker<K>>, less: (K, K) -> bool)
    ensures AllBare(Sort(ts, ByKey(less))) == Sort(AllBare(ts), ByKey(less))
  {
    if ts != [] {
      hide Insert;
      var n := |ts| - 1;
      BareSort(ts[..n], less);
      BareInsert(Sort(ts[..n], ByKey(less)), ts[n], less);
      assert AllBare(ts)[..n] == AllBare(ts[..n]);
    }
  }

  lemma {:induction false} BareKept<K(!new)>(ordered: seq<Tracker<K>>)
    ensures AllBare(Kept(ordered)) == Kept(AllBare(ordered))
    ensures Duplicates(ordered) == Duplicates(AllBare(ordered))
  {
    if ordered != [] {
      var n := |ordered| - 1;
      BareKept(ordered[..n]);
      assert AllBare(ordered)[..n] == AllBare(ordered[..n]);
      BareUrls(Kept(ordered[..n]));
      BareAppend(Kept(ordered[..n]), ordered[n]);
    }
  }

  lemma {:induction false} BareUrls<K(!new)>(ts: seq<Tracker<K>>)
    ensures Urls(AllBare(ts)) == Urls(ts) && Hosts(AllBare(ts)) == Hosts(ts)
  {
    assert forall t :: t in ts ==> Bare(t) in AllBare(ts) by {
      forall t | t in ts ensures Bare(t) in AllBare(ts) {
        var i :| 0 <= i < |ts| && ts[i] == t;
        assert AllBare(ts)[i] == Bare(t);
      }
    }
    assert forall t :: t in Hosts(ts) ==> t in Hosts(AllBare(ts)) by {
      forall h | h in Hosts(ts) ensures h in Hosts(AllBare(ts)) {
        var t :| t in ts && t.host == h;
        assert Bare(t).host == h;
      }
    }
  }

  lemma {:induction false} BareGroups<K(!new)>(kept: seq<Tracker<K>>, host: string, less: (K, K) -> bool)
    ensures AllBare(OfHost(kept, host)) == OfHost(AllBare(kept), host)
  {
    if kept != [] {
      var n := |kept| - 1;
      BareGroups(kept[..n], host, less);
      assert AllBare(kept)[..n] == AllBare(kept[..n]);
      BareAppend(OfHost(kept[..n], host), kept[n]);
    }
  }

  lemma {:induction false} BareLeast<K(!new)>(group: seq<Tracker<K>>, less: (K, K) -> bool)
    requires group != []
    ensures Bare(Least(group, less)) == Least(AllBare(group), less)
  {
    var n := |group| - 1;
    if n > 0 {
      BareLeast(group[..n], less);
      assert AllBare(group)[..n] == AllBare(group[..n]);
    }
  }

  lemma {:induction false} BareOthers<K(!new)>(group: seq<Tracker<K>>, canonical: string)
    ensures Others(AllBare(group), canonical) == Others(group, canonical)
  {
    if group != [] {
      var n := |group| - 1;
      BareOthers(group[..n], canonical);
      assert AllBare(group)[..n] == AllBare(group[..n]);
    }
  }

  lemma {:induction false} BareSiblings<K(!new)>(kept: seq<Tracker<K>>, hosts: seq<string>, less: (K, K) -> bool)
    ensures Siblings(AllBare(kept), hosts, less) == Siblings(kept, hosts, less)
  {
    if hosts != [] {
      hide OfHost, Others, Least;
      var h := hosts[|hosts| - 1];
      BareSiblings(kept, hosts[..|hosts| - 1], less);
      BareGroups(kept, h, less);
      var group := OfHost(kept, h);
      if |group| >= 2 {
        BareLeast(group, less);
        BareOthers(group, Least(group, less).url);
      }
    }
  }

  /** What a reader of the result sees, computed without the parts no decision looks at. */
  lemma {:induction false} BareDedup<K(!new)>(ts: seq<Tracker<K>>, less: (K, K) -> bool)
    ensures var (r, b) := (Dedup(ts, less), Dedup(AllBare(ts), less));
            Urls(r.trackers) == Urls(b.trackers) && r.decisions == b.decisions
  {
    hide Sort, Kept, Duplicates, Siblings, SortedKeys;
    BareSort(ts, less);
    var ordered := Sort(ts, ByKey(less));
    BareKept(ordered);
    BareUrls(Kept(ordered));
    BareSiblings(Kept(ordered), SortedKeys(Hosts(Kept(ordered))), less);
  }

  /** Permuting the input changes neither the URLs nor the decisions, when equal keys mean equal URLs. */
  lemma {:induction false} InputOrderIrrelevant<K(!new)>(ts: seq<Tracker<K>>, us: seq<Tracker<K>>, less: (K, K) -> bool)
    requires StrictTotal(less) && multiset(ts) == multiset(us)
    requires forall s, t :: s in ts && t in ts && s.key == t.key ==> s.url == t.url && s.host == t.host
    ensures Urls(Dedup(ts, less).trackers) == Urls(Dedup(us, less).trackers)
    ensures Dedup(ts, less).decisions == Dedup(us, less).decisions
  {
    hide Dedup;
    BareDedup(ts, less);
    BareDedup(us, less);
    BareMultiset(ts, us);
    var a, b := AllBare(ts), AllBare(us);
    var lt := ByKey(less);
    forall x, y | x in a && y in a && !lt(x, y) && !lt(y, x) ensures x == y {
      var i :| 0 <= i < |ts| && a[i] == x;
      var j :| 0 <= j < |ts| && a[j] == y;
      assert x == Bare(ts[i]) && y == Bare(ts[j]) && ts[i] in ts && ts[j] in ts;
      assert !less(x.key, y.key) && !less(y.key, x.key);
    }
    KeyOrder(less);
    SortOrderIndependent(a, b, lt);
    assert Dedup(a, less) == Dedup(b, less) by { SameSortSameDedup(a, b, less); }
  }

  lemma {:induction false} SameSortSameDedup<K(!new)>(a: seq<Tracker<K>>, b: seq<Tracker<K>>, less: (K, K) -> bool)
    requires Sort(a, ByKey(less)) == Sort(b, ByKey(less))
    ensures Dedup(a, less) == Dedup(b, less)
  {
  }

  lemma {:induction false} BareConcat<K(!new)>(a: seq<Tracker<K>>, b: seq<Tracker<K>>)
    ensures AllBare(a + b) == AllBare(a) + AllBare(b)
  {
  }

  lemma {:induction false} TakeOut<K(!new)>(us: seq<Tracker<K>>, j: nat)
    requires j < |us|
    ensures var rest := us[..j] + us[j + 1..];
            && multiset(us) == multiset(rest) + multiset{us[j]}
            && multiset(AllBare(us)) == multiset(AllBare(rest)) + multiset{Bare(us[j])}
  {
    var a, t, b := us[..j], us[j], us[j + 1..];
    assert us == a + [t] + b;
    BareConcat(a + [t], b);
    BareAppend(a, t);
    BareConcat(a, b);
  }

  lemma {:induction false} BareMultiset<K(!new)>(ts: seq<Tracker<K>>, us: seq<Tracker<K>>)
    requires multiset(ts) == multiset(us)
    ensures multiset(AllBare(ts)) == multiset(AllBare(us))
  {
    SameElements(ts, us);
    if ts != [] {
      hide AllBare, Bare;
      var n := |ts| - 1;
      assert ts[n] in ts;
      var j :| 0 <= j < |us| && us[j] == ts[n];
      var rest := us[..j] + us[j + 1..];
      TakeOut(us, j);
      TakeOut(ts, n);
      assert ts[..n] + ts[n + 1..] == ts[..n];
      Remaining(multiset(ts[..n]), multiset(rest), ts[n]);
      BareMultiset(ts[..n], rest);
    }
  }

  lemma {:induction false} Remaining<T>(a: multiset<T>, b: multiset<T>, x: T)
    requires a + multiset{x} == b + multiset{x}
    ensures a == b
  {
    assert a == a + multiset{x} - multiset{x};
    assert b == b + multiset{x} - multiset{x};
  }
}
