/**
 * Which request arm each tracker gets on a run (`experiments/26-user-agent-block-rate.py`,
 * `assign_arms`): order the URLs by hash, cut into groups, rotate.
 */
module Arms {
  import opened Collections
  import opened Order

  /** The digest of a URL, as some function of it. */
  type Hash = string -> seq<int>

  /** The group of the URL at `index` among `n`, cut into `k`. */
  function Group(index: nat, n: nat, k: nat): nat { index * k / (if n == 0 then 1 else n) }

  function ByHash(hash: Hash): (string, string) -> bool { (a, b) => LexLess(hash(a), hash(b)) }

  /** The arm a rotation gives a group. */
  function ArmOf(group: nat, names: seq<string>, rotation: int): string
    requires names != []
  {
    names[(group + rotation) % |names|]
  }

  /** The dictionary after the first `m` URLs. */
  function Fill(ordered: seq<string>, names: seq<string>, rotation: int, m: nat): map<string, string>
    requires m <= |ordered| && names != []
  {
    if m == 0 then map[]
    else Fill(ordered, names, rotation, m - 1)
           [ordered[m - 1] := ArmOf(Group(m - 1, |ordered|, |names|), names, rotation)]
  }

  function Assign(urls: seq<string>, names: seq<string>, rotation: int, hash: Hash): map<string, string>
    requires names != []
  {
    Fill(Sort(urls, ByHash(hash)), names, rotation, |urls|)
  }

  /** `assign_arms`. */
  method AssignArms(urls: seq<string>, names: seq<string>, rotation: int, hash: Hash) returns (out: map<string, string>)
    requires names != []
    ensures out == Assign(urls, names, rotation, hash)
  {
    hide Sort;
    var ordered := Sort(urls, ByHash(hash));
    out := map[];
    for index := 0 to |ordered|
      invariant out == Fill(ordered, names, rotation, index)
    {
      var group := Group(index, |ordered|, |names|);
      out := out[ordered[index] := ArmOf(group, names, rotation)];
    }
  }

  lemma {:induction false} HashOrder(hash: Hash)
    ensures StrictWeak(ByHash(hash))
  {
    hide LexLess;
    LexIsTotal();
  }

  // ---- groups ----------------------------------------------------------------------------------

  /** The first index of group `g`: the ceiling of g * n / k. */
  function Start(g: nat, n: nat, k: nat): nat
    requires k > 0
  {
    (g * n + k - 1) / k
  }

  lemma {:induction false} Scale(a: int, b: int, k: int)
    requires a <= b && k >= 0
    ensures a * k <= b * k
  {
    assert (b - a) * k >= 0;
    assert (b - a) * k == b * k - a * k;
  }

  lemma {:induction false} ScaleBack(a: int, b: int, k: int)
    requires k > 0
    ensures a * k <= b * k ==> a <= b
  {
    if a > b {
      Scale(b + 1, a, k);
      assert (b + 1) * k == b * k + k;
    }
  }

  lemma {:induction false} FloorAtLeast(a: nat, b: nat, g: int)
    requires b > 0
    ensures g <= a / b <==> g * b <= a
  {
    var q := a / b;
    assert a == q * b + a % b;
    if g <= q {
      Scale(g, q, b);
    } else {
      Scale(q + 1, g, b);
      assert (q + 1) * b == q * b + b;
    }
  }

  lemma {:induction false} StartAtMost(g: nat, n: nat, k: nat, i: nat)
    requires k > 0
    ensures Start(g, n, k) <= i <==> g * n <= i * k
  {
    FloorAtLeast(g * n + k - 1, k, i + 1);
    assert (i + 1) * k == i * k + k;
  }

  /** Group `g` is the run of indices from its start to the next one's. */
  lemma {:induction false} GroupIsInterval(i: nat, g: nat, n: nat, k: nat)
    requires i < n && k > 0
    ensures Group(i, n, k) < k
    ensures Group(i, n, k) == g <==> Start(g, n, k) <= i < Start(g + 1, n, k)
  {
    hide Start;
    FloorAtLeast(i * k, n, g);
    FloorAtLeast(i * k, n, g + 1);
    StartAtMost(g, n, k, i);
    StartAtMost(g + 1, n, k, i);
    FloorAtLeast(i * k, n, k);
    Scale(i + 1, n, k);
    assert (i + 1) * k == i * k + k && k * n == n * k;
  }

  /** The groups tile the indices, each with floor(n / k) or ceiling(n / k) of them. */
  lemma {:induction false} GroupSize(g: nat, n: nat, k: nat)
    requires k > 0
    ensures Start(0, n, k) == 0 && Start(k, n, k) == n
    ensures n / k <= Start(g + 1, n, k) - Start(g, n, k) <= (n + k - 1) / k
  {
    hide Start;
    StartAtMost(0, n, k, 0);
    StartAtMost(k, n, k, n);
    assert k * n == n * k;
    if n > 0 {
      StartAtMost(k, n, k, n - 1);
      assert (n - 1) * k == n * k - k;
    }
    SizeAtLeast(g, n, k);
    SizeAtMost(g, n, k);
  }

  lemma {:induction false} SizeAtLeast(g: nat, n: nat, k: nat)
    requires k > 0
    ensures n / k <= Start(g + 1, n, k) - Start(g, n, k)
  {
    hide Start;
    var a, b, q := Start(g, n, k), Start(g + 1, n, k), n / k;
    StartAtMost(g + 1, n, k, b);
    FloorAtLeast(n, k, q);
    assert (g + 1) * n == g * n + n;
    assert g * n >= 0;
    ScaleBack(q, b, k);
    StartAtMost(g, n, k, b - q);
    assert (b - q) * k == b * k - q * k;
  }

  lemma {:induction false} SizeAtMost(g: nat, n: nat, k: nat)
    requires k > 0
    ensures Start(g + 1, n, k) - Start(g, n, k) <= (n + k - 1) / k
  {
    hide Start;
    var a, c := Start(g, n, k), (n + k - 1) / k;
    StartAtMost(g, n, k, a);
    StartAtMost(g + 1, n, k, a + c);
    FloorAtLeast(n + k - 1, k, c + 1);
    assert (g + 1) * n == g * n + n;
    assert (c + 1) * k == c * k + k;
    assert (a + c) * k == a * k + c * k;
  }

  // ---- rotations ----------------------------------------------------------------------------------

  lemma {:induction false} OnlyZero(d: int, k: int)
    requires -k < d * k < k
    ensures d == 0
  {
    if d >= 1 {
      Scale(1, d, k);
    } else if d <= -1 {
      Scale(d, -1, k);
    }
  }

  lemma {:induction false} ModUnique(x: int, k: int, t: int, r: int)
    requires 0 <= r < k && x == t * k + r
    ensures x % k == r
  {
    var u := x / k;
    assert x == u * k + x % k;
    assert (t - u) * k == t * k - u * k;
    OnlyZero(t - u, k);
  }

  /** The one group that a rotation gives arm `a`. */
  lemma {:induction false} GroupOfArm(g: nat, a: nat, rotation: int, k: nat)
    requires g < k && a < k
    ensures (g + rotation) % k == a <==> g == (a - rotation) % k
  {
    var t, u := (g + rotation) / k, (a - rotation) / k;
    assert g + rotation == t * k + (g + rotation) % k;
    assert a - rotation == u * k + (a - rotation) % k;
    if (g + rotation) % k == a {
      assert (-t) * k == -(t * k);
      ModUnique(a - rotation, k, -t, g);
    }
    if g == (a - rotation) % k {
      assert (-u) * k == -(u * k);
      ModUnique(g + rotation, k, -u, a);
    }
  }

  /** Among the `k` rotations from `first`, the one that takes a group to an arm. */
  function Turn(g: nat, a: nat, first: int, k: nat): (r: int)
    requires k > 0
    ensures first <= r < first + k
  {
    first + (a - g - first) % k
  }

  lemma {:induction false} OneTurn(g: nat, a: nat, first: int, k: nat, r: int)
    requires g < k && a < k && first <= r < first + k
    ensures (g + r) % k == a <==> r == Turn(g, a, first, k)
  {
    var q := (a - g - first) / k;
    assert a - g - first == q * k + (a - g - first) % k;
    assert (-q) * k == -(q * k);
    ModUnique(g + Turn(g, a, first, k), k, -q, a);
    if (g + r) % k == a {
      var t := (g + r) / k;
      assert g + r == t * k + a;
      assert (t + q) * k == t * k + q * k;
      OnlyZero(t + q, k);
    }
  }

  // ---- the assignment -------------------------------------------------------------------------------

  lemma {:induction false} FillAt(ordered: seq<string>, names: seq<string>, rotation: int, m: nat)
    requires m <= |ordered| && names != [] && NoRepeats(ordered)
    ensures var out := Fill(ordered, names, rotation, m);
            && (forall u :: u in out <==> u in ordered[..m])
            && forall i :: 0 <= i < m ==>
                 ordered[i] in out && out[ordered[i]] == ArmOf(Group(i, |ordered|, |names|), names, rotation)
  {
    if m > 0 {
      hide Group, ArmOf;
      FillAt(ordered, names, rotation, m - 1);
      assert ordered[..m] == ordered[..m - 1] + [ordered[m - 1]];
    }
  }

  lemma {:induction false} ImageSize(ordered: seq<string>, lo: nat, hi: nat)
    requires lo <= hi <= |ordered| && NoRepeats(ordered)
    ensures |set i | lo <= i < hi :: ordered[i]| == hi - lo
  {
    var image := set i | lo <= i < hi :: ordered[i];
    if lo < hi {
      ImageSize(ordered, lo, hi - 1);
      var before := set i | lo <= i < hi - 1 :: ordered[i];
      assert image == before + {ordered[hi - 1]};
    } else {
      assert image == {};
    }
  }

  /** The URLs an assignment gives one arm. */
  function Members(out: map<string, string>, arm: string): set<string> {
    set u | u in out && out[u] == arm
  }

  lemma {:induction false} MembersAreGroup(ordered: seq<string>, names: seq<string>, rotation: int, a: nat)
    requires NoRepeats(ordered) && NoRepeats(names) && a < |names|
    ensures var (n, k) := (|ordered|, |names|);
            var g := (a - rotation) % k;
            && Start(g + 1, n, k) <= n
            && Members(Fill(ordered, names, rotation, n), names[a])
            == set i | Start(g, n, k) <= i < Start(g + 1, n, k) :: ordered[i]
  {
    hide Group, Start, Fill;
    var n, k := |ordered|, |names|;
    var g := (a - rotation) % k;
    StartAtMost(g + 1, n, k, n);
    Scale(g + 1, k, n);
    assert k * n == n * k;
    FillAt(ordered, names, rotation, n);
    assert ordered[..n] == ordered;
    var out := Fill(ordered, names, rotation, n);
    var image := set i | Start(g, n, k) <= i < Start(g + 1, n, k) :: ordered[i];
    forall i: nat | i < n
      ensures ordered[i] in Members(out, names[a]) <==> Start(g, n, k) <= i < Start(g + 1, n, k)
    {
      InGroup(ordered, names, rotation, a, i);
    }
    hide NoRepeats;
    forall u ensures u in Members(out, names[a]) <==> u in image {
      if u in Members(out, names[a]) {
        var i :| 0 <= i < n && ordered[i] == u;
      }
    }
  }

  lemma {:induction false} InGroup(ordered: seq<string>, names: seq<string>, rotation: int, a: nat, i: nat)
    requires NoRepeats(ordered) && NoRepeats(names) && a < |names| && i < |ordered|
    ensures var (n, k) := (|ordered|, |names|);
            var g := (a - rotation) % k;
            ordered[i] in Members(Fill(ordered, names, rotation, n), names[a])
            <==> Start(g, n, k) <= i < Start(g + 1, n, k)
  {
    hide Group, Start, Fill;
    var n, k := |ordered|, |names|;
    var b := (Group(i, n, k) + rotation) % k;
    FillAt(ordered, names, rotation, n);
    GroupIsInterval(i, (a - rotation) % k, n, k);
    GroupOfArm(Group(i, n, k), a, rotation, k);
    assert names[b] == names[a] <==> b == a;
  }

  lemma {:induction false} SortDistinct(urls: seq<string>, hash: Hash)
    requires NoRepeats(urls)
    ensures NoRepeats(Sort(urls, ByHash(hash)))
  {
    hide Sort, ByHash;
    var r := Sort(urls, ByHash(hash));
    DistinctMultiset(urls);
    forall i, j | 0 <= i < j < |r| ensures r[i] != r[j] {
      if r[i] == r[j] {
        RepeatCounts(r, i, j);
      }
    }
  }

  /** Whose turn it is: the URLs in hash order are cut into as many runs as there are arms, and rotated. */
  lemma {:induction false} ArmExactly(urls: seq<string>, names: seq<string>, rotation: int, hash: Hash, i: nat)
    requires NoRepeats(urls) && names != [] && i < |urls|
    ensures var ordered := Sort(urls, ByHash(hash));
            && |ordered| == |urls| && ordered[i] in Assign(urls, names, rotation, hash)
            && Assign(urls, names, rotation, hash)[ordered[i]]
                 == names[(i * |names| / |urls| + rotation) % |names|]
  {
    hide Sort, Fill;
    SortDistinct(urls, hash);
    FillAt(Sort(urls, ByHash(hash)), names, rotation, |urls|);
  }

  /** In every rotation each arm gets the floor or the ceiling of its share. */
  lemma {:induction false} Balanced(urls: seq<string>, names: seq<string>, rotation: int, hash: Hash, a: nat)
    requires NoRepeats(urls) && NoRepeats(names) && a < |names|
    ensures var size := |Members(Assign(urls, names, rotation, hash), names[a])|;
            |urls| / |names| <= size <= (|urls| + |names| - 1) / |names|
  {
    hide Sort, Fill, Start, Members;
    var ordered := Sort(urls, ByHash(hash));
    var n, k := |urls|, |names|;
    var g := (a - rotation) % k;
    SortDistinct(urls, hash);
    MembersAreGroup(ordered, names, rotation, a);
    GroupSize(g, n, k);
    ImageSize(ordered, Start(g, n, k), Start(g + 1, n, k));
  }

  /** The group of a URL does not depend on the rotation, and the rotation turns it into an arm. */
  lemma {:induction false} GroupOf(urls: seq<string>, names: seq<string>, hash: Hash, u: string) returns (g: nat)
    requires NoRepeats(urls) && names != [] && u in urls
    ensures g < |names|
    ensures forall r :: ArmIs(urls, names, r, hash, u, g)
  {
    hide Sort, Group, Fill;
    var ordered := Sort(urls, ByHash(hash));
    SortDistinct(urls, hash);
    SameElements(urls, ordered);
    var i :| 0 <= i < |urls| && ordered[i] == u;
    g := Group(i, |urls|, |names|);
    GroupIsInterval(i, g, |urls|, |names|);
    forall r ensures ArmIs(urls, names, r, hash, u, g) {
      FillAt(ordered, names, r, |urls|);
    }
  }

  predicate ArmIs(urls: seq<string>, names: seq<string>, rotation: int, hash: Hash, u: string, g: nat)
    requires names != []
  {
    u in Assign(urls, names, rotation, hash)
    && Assign(urls, names, rotation, hash)[u] == ArmOf(g, names, rotation)
  }

  /** Over any `k` rotations in a row every URL meets every arm exactly once. */
  lemma {:induction false} EveryArmOnce(urls: seq<string>, names: seq<string>, hash: Hash, first: int, u: string,
                                        a: nat)
    returns (turn: int)
    requires NoRepeats(urls) && NoRepeats(names) && a < |names| && u in urls
    ensures first <= turn < first + |names|
    ensures forall r :: u in Assign(urls, names, r, hash)
    ensures forall r :: first <= r < first + |names| ==>
              (Assign(urls, names, r, hash)[u] == names[a] <==> r == turn)
  {
    hide Sort, Group, Fill, Assign, Turn;
    var n, k := |urls|, |names|;
    var g := GroupOf(urls, names, hash, u);
    turn := Turn(g, a, first, k);
    forall r ensures u in Assign(urls, names, r, hash) {
      assert ArmIs(urls, names, r, hash, u, g);
    }
    forall r | first <= r < first + k ensures Assign(urls, names, r, hash)[u] == names[a] <==> r == turn {
      assert ArmIs(urls, names, r, hash, u, g);
      OneTurn(g, a, first, k, r);
    }
  }

  /** The order the URLs come in is forgotten as soon as their hashes differ. */
  lemma {:induction false} InputOrderIrrelevant(urls: seq<string>, others: seq<string>, names: seq<string>,
                                                rotation: int, hash: Hash)
    requires multiset(urls) == multiset(others) && names != []
    requires forall u, v :: u in urls && v in urls && hash(u) == hash(v) ==> u == v
    ensures Assign(urls, names, rotation, hash) == Assign(others, names, rotation, hash)
  {
    hide Sort, Fill, LexLess;
    HashOrder(hash);
    var lt := ByHash(hash);
    forall u, v | u in urls && v in urls && !lt(u, v) && !lt(v, u) ensures u == v {
      LexTrichotomy(hash(u), hash(v));
    }
    SortOrderIndependent(urls, others, lt);
    SameElements(urls, others);
  }
}
