/** Orders and the stable sort behind Python's `sorted`, with what makes its result unique. */
module Order {

  /** Python's order on byte strings and on text, element by element. */
  predicate LexLess(a: seq<int>, b: seq<int>) {
    if b == [] then false
    else if a == [] then true
    else a[0] < b[0] || (a[0] == b[0] && LexLess(a[1..], b[1..]))
  }

  lemma {:induction false} LexTrichotomy(a: seq<int>, b: seq<int>)
    ensures a == b || LexLess(a, b) || LexLess(b, a)
    ensures !(LexLess(a, b) && LexLess(b, a))
    ensures LexLess(a, b) ==> a != b
  {
    if a != [] && b != [] && a[0] == b[0] {
      LexTrichotomy(a[1..], b[1..]);
      assert a == [a[0]] + a[1..] && b == [b[0]] + b[1..];
    }
  }

  lemma {:induction false} LexTransitive(a: seq<int>, b: seq<int>, c: seq<int>)
    requires LexLess(a, b) && LexLess(b, c)
    ensures LexLess(a, c)
  {
    if a != [] && b != [] && c != [] && a[0] == b[0] == c[0] {
      LexTransitive(a[1..], b[1..], c[1..]);
    }
  }

  /** A strict weak order: what comparing sort keys gives. */
  ghost predicate StrictWeak<T(!new)>(lt: (T, T) -> bool) {
    && (forall x :: !lt(x, x))
    && (forall x, y :: lt(x, y) ==> !lt(y, x))
    && (forall x, y, z :: lt(x, y) && lt(y, z) ==> lt(x, z))
    && (forall x, y, z :: !lt(x, y) && !lt(y, z) ==> !lt(x, z))
  }

  ghost predicate StrictTotal<T(!new)>(lt: (T, T) -> bool) {
    StrictWeak(lt) && forall x, y :: x == y || lt(x, y) || lt(y, x)
  }

  lemma {:induction false} LexIsTotal()
    ensures StrictTotal(LexLess)
  {
    forall x, y ensures x == y || LexLess(x, y) || LexLess(y, x)
      ensures !LexLess(x, x) && (LexLess(x, y) ==> !LexLess(y, x))
    {
      LexTrichotomy(x, y);
      LexTrichotomy(x, x);
    }
    forall x, y, z ensures LexLess(x, y) && LexLess(y, z) ==> LexLess(x, z)
      ensures !LexLess(x, y) && !LexLess(y, z) ==> !LexLess(x, z)
    {
      if LexLess(x, y) && LexLess(y, z) {
        LexTransitive(x, y, z);
      }
      if !LexLess(x, y) && !LexLess(y, z) && LexLess(x, z) {
        LexTrichotomy(x, y);
        LexTrichotomy(y, z);
        LexTrichotomy(x, z);
        if x != y && y != z {
          LexTransitive(z, y, x);
        }
      }
    }
  }

  // ---- sorting --------------------------------------------------------------

  ghost predicate Ascending<T(!new)>(s: seq<T>, lt: (T, T) -> bool) {
    forall i, j :: 0 <= i < j < |s| ==> !lt(s[j], s[i])
  }

  ghost predicate StrictlyAscending<T(!new)>(s: seq<T>, lt: (T, T) -> bool) {
    forall i, j :: 0 <= i < j < |s| ==> lt(s[i], s[j])
  }

  /** Puts `x` behind everything that is not greater than it. */
  function Insert<T>(s: seq<T>, x: T, lt: (T, T) -> bool): (r: seq<T>)
    ensures multiset(r) == multiset(s) + multiset{x}
    ensures |r| == |s| + 1
  {
    if s == [] || !lt(x, s[|s| - 1]) then s + [x]
    else
      assert s == s[..|s| - 1] + [s[|s| - 1]];
      Insert(s[..|s| - 1], x, lt) + [s[|s| - 1]]
  }

  /** `sorted(s, key=...)`, where `lt` compares keys: stable, equal keys keep their order. */
  function Sort<T>(s: seq<T>, lt: (T, T) -> bool): (r: seq<T>)
    ensures multiset(r) == multiset(s)
    ensures |r| == |s|
  {
    if s == [] then []
    else
      assert s == s[..|s| - 1] + [s[|s| - 1]];
      Insert(Sort(s[..|s| - 1], lt), s[|s| - 1], lt)
  }

  lemma {:induction false} InsertAscends<T(!new)>(s: seq<T>, x: T, lt: (T, T) -> bool)
    requires StrictWeak(lt) && Ascending(s, lt)
    ensures Ascending(Insert(s, x, lt), lt)
  {
    if s != [] {
      var last := s[|s| - 1];
      if lt(x, last) {
        var init := s[..|s| - 1];
        InsertAscends(init, x, lt);
        var r := Insert(init, x, lt);
        forall i | 0 <= i < |r| ensures !lt(last, r[i]) {
          assert r[i] in multiset(r);
          assert r[i] == x || r[i] in init;
        }
      } else {
        forall i | 0 <= i < |s| ensures !lt(x, s[i]) {
          assert !lt(last, s[i]);
        }
      }
    }
  }

  lemma {:induction false} SortAscends<T(!new)>(s: seq<T>, lt: (T, T) -> bool)
    requires StrictWeak(lt)
    ensures Ascending(Sort(s, lt), lt)
  {
    if s != [] {
      SortAscends(s[..|s| - 1], lt);
      InsertAscends(Sort(s[..|s| - 1], lt), s[|s| - 1], lt);
    }
  }

  lemma {:induction false} SortFixed<T(!new)>(s: seq<T>, lt: (T, T) -> bool)
    requires Ascending(s, lt)
    ensures Sort(s, lt) == s
  {
    if s != [] {
      var n := |s| - 1;
      SortFixed(s[..n], lt);
      assert n > 0 ==> !lt(s[n], s[n - 1]);
      assert Insert(s[..n], s[n], lt) == s[..n] + [s[n]];
      assert s == s[..n] + [s[n]];
    }
  }

  lemma {:induction false} SameElements<T>(a: seq<T>, b: seq<T>)
    requires multiset(a) == multiset(b)
    ensures |a| == |b|
    ensures forall x :: x in a <==> x in b
  {
    assert |multiset(a)| == |a| && |multiset(b)| == |b|;
    forall x ensures x in a <==> x in b {
      assert x in a <==> x in multiset(a);
      assert x in b <==> x in multiset(b);
    }
  }

  /** Elements no key tells apart are the same element. */
  ghost predicate NoTies<T(!new)>(a: seq<T>, lt: (T, T) -> bool) {
    forall x, y :: x in a && y in a && !lt(x, y) && !lt(y, x) ==> x == y
  }

  lemma {:induction false} GreatestAgree<T(!new)>(a: seq<T>, b: seq<T>, lt: (T, T) -> bool)
    requires multiset(a) == multiset(b) && Ascending(a, lt) && Ascending(b, lt)
    requires NoTies(a, lt) && a != []
    ensures |a| == |b| && a[|a| - 1] == b[|b| - 1]
  {
    SameElements(a, b);
    var x, y := a[|a| - 1], b[|b| - 1];
    assert x in b && y in a && x in a;
    var i :| 0 <= i < |b| && b[i] == x;
    var j :| 0 <= j < |a| && a[j] == y;
    assert i < |b| - 1 ==> !lt(y, b[i]);
    assert j < |a| - 1 ==> !lt(x, a[j]);
  }

  lemma {:induction false} DropLast<T>(a: seq<T>)
    requires a != []
    ensures multiset(a[..|a| - 1]) == multiset(a) - multiset{a[|a| - 1]}
  {
    assert a == a[..|a| - 1] + [a[|a| - 1]];
  }

  /** Sorted sequences of the same elements are one sequence when there are no ties. */
  lemma {:induction false} SortedUnique<T(!new)>(a: seq<T>, b: seq<T>, lt: (T, T) -> bool)
    requires multiset(a) == multiset(b) && Ascending(a, lt) && Ascending(b, lt)
    requires NoTies(a, lt)
    ensures a == b
  {
    SameElements(a, b);
    if a != [] {
      var n := |a| - 1;
      GreatestAgree(a, b, lt);
      DropLast(a);
      DropLast(b);
      assert NoTies(a[..n], lt) by {
        forall x | x in a[..n] ensures x in a { }
      }
      SortedUnique(a[..n], b[..n], lt);
      assert a == a[..n] + [a[n]] && b == b[..n] + [b[n]];
    }
  }

  /** Sorting forgets the input order as soon as ties are equal elements. */
  lemma {:induction false} SortOrderIndependent<T(!new)>(a: seq<T>, b: seq<T>, lt: (T, T) -> bool)
    requires StrictWeak(lt) && multiset(a) == multiset(b) && NoTies(a, lt)
    ensures Sort(a, lt) == Sort(b, lt)
  {
    SortAscends(a, lt);
    SortAscends(b, lt);
    SameElements(a, Sort(a, lt));
    SortedUnique(Sort(a, lt), Sort(b, lt), lt);
  }

  /** Distinct elements under a total order sort strictly. */
  lemma {:induction false} SortStrictlyAscends<T(!new)>(s: seq<T>, lt: (T, T) -> bool)
    requires StrictTotal(lt)
    requires forall i, j :: 0 <= i < j < |s| ==> s[i] != s[j]
    ensures StrictlyAscending(Sort(s, lt), lt)
  {
    SortAscends(s, lt);
    var r := Sort(s, lt);
    DistinctMultiset(s);
    forall i, j | 0 <= i < j < |r| ensures lt(r[i], r[j]) {
      if r[i] == r[j] {
        RepeatCounts(r, i, j);
        assert false;
      }
    }
  }

  lemma {:induction false} DistinctMultiset<T>(s: seq<T>)
    requires forall i, j :: 0 <= i < j < |s| ==> s[i] != s[j]
    ensures forall x :: multiset(s)[x] <= 1
  {
    if s != [] {
      DistinctMultiset(s[1..]);
      assert s == [s[0]] + s[1..];
      assert s[0] !in s[1..];
    }
  }

  lemma {:induction false} RepeatCounts<T>(s: seq<T>, i: nat, j: nat)
    requires i < j < |s| && s[i] == s[j]
    ensures multiset(s)[s[i]] >= 2
  {
    assert s == s[..j] + s[j..];
    assert s[..j][i] == s[i] && s[j..][0] == s[i];
    assert s[i] in multiset(s[..j]) && s[i] in multiset(s[j..]);
  }
}
