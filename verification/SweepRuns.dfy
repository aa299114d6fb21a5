/**
 * What folding sweeps promises over whole sequences of invocations, and where the promise ends:
 * two names for one sweep in a single invocation, and more identities than the file remembers.
 */
module SweepRuns {
  import opened Collections
  import opened Bytes
  import opened Text
  import opened Order
  import opened Sweeps

  predicate Readable(args: seq<Arg>) { forall a :: a in args ==> a.doc.Some? }

  /** Whether an argument will be folded, given what the file remembered. */
  predicate IsFresh(a: Arg, already: seq<Id>) {
    a.doc.Some? && a.doc.value.records != [] && Identity(a.doc.value) !in already
  }

  /** The identities of the sweeps to fold, one for each argument that names one. */
  function FreshIds(args: seq<Arg>, already: seq<Id>): (r: seq<Id>)
    ensures forall a :: a in args && IsFresh(a, already) ==> Identity(a.doc.value) in r
  {
    if args == [] then []
    else
      var n := |args| - 1;
      assert args == args[..n] + [args[n]];
      FreshIds(args[..n], already) + (if IsFresh(args[n], already) then [Identity(args[n].doc.value)] else [])
  }

  lemma {:induction false} FreshIdsOnly(args: seq<Arg>, already: seq<Id>)
    ensures forall x :: x in FreshIds(args, already) ==>
              x !in already && exists a :: a in args && IsFresh(a, already) && Identity(a.doc.value) == x
  {
    if args != [] {
      hide Identity;
      var n := |args| - 1;
      assert args == args[..n] + [args[n]];
      FreshIdsOnly(args[..n], already);
      forall x | x in FreshIds(args, already)
        ensures x !in already && exists a :: a in args && IsFresh(a, already) && Identity(a.doc.value) == x
      {
        if x in FreshIds(args[..n], already) {
          var a :| a in args[..n] && IsFresh(a, already) && Identity(a.doc.value) == x;
          assert a in args;
        } else {
          assert args[n] in args;
        }
      }
    }
  }

  lemma {:induction false} FreshStep(args: seq<Arg>, x: Arg, already: seq<Id>)
    ensures FreshIds(args + [x], already)
         == FreshIds(args, already) + (if IsFresh(x, already) then [Identity(x.doc.value)] else [])
  {
    assert (args + [x])[..|args|] == args;
  }

  // ---- one invocation --------------------------------------------------------------------------------

  lemma {:induction false} FoldFolds<H>(args: seq<Arg>, start: State<H>, apply: (H, seq<Record>) -> H)
    ensures Fold(args, start, apply).Some? <==> Readable(args)
    ensures Readable(args) ==> Fold(args, start, apply).value.folded == FreshIds(args, start.applied)
  {
    if args != [] {
      hide Identity;
      var n := |args| - 1;
      assert args == args[..n] + [args[n]];
      FoldFolds(args[..n], start, apply);
      assert Readable(args) <==> Readable(args[..n]) && args[n].doc.Some?;
    }
  }

  /** What the loop has done when every argument could be read. */
  lemma {:induction false} FoldDoes<H>(args: seq<Arg>, start: State<H>, apply: (H, seq<Record>) -> H)
    ensures Fold(args, start, apply).Some? <==> Readable(args)
    ensures Readable(args) ==>
              var p := Fold(args, start, apply).value;
              && p.folded == FreshIds(args, start.applied)
              && (forall x :: x in start.applied ==> x in p.applied)
              && (forall a :: a in args ==> Identity(a.doc.value) in p.applied)
              && (forall x :: x in p.applied ==>
                   x in start.applied || exists a :: a in args && Identity(a.doc.value) == x)
              && (p.folded == [] ==> p.history == start.history)
              && ((forall a :: a in args ==> Identity(a.doc.value) in start.applied) ==> p.applied == start.applied)
  {
    FoldFolds(args, start, apply);
    if args != [] {
      hide Identity, FreshIds;
      var n := |args| - 1;
      assert args == args[..n] + [args[n]];
      FoldDoes(args[..n], start, apply);
      assert Readable(args) <==> Readable(args[..n]) && args[n].doc.Some?;
      assert args[n] in args;
    }
  }

  /** The sweeps to fold, in order. */
  function FreshSweeps(args: seq<Arg>, already: seq<Id>): seq<Sweep> {
    if args == [] then []
    else
      var n := |args| - 1;
      FreshSweeps(args[..n], already) + (if IsFresh(args[n], already) then [args[n].doc.value] else [])
  }

  function ApplyAll<H>(history: H, sweeps: seq<Sweep>, apply: (H, seq<Record>) -> H): H {
    if sweeps == [] then history
    else apply(ApplyAll(history, sweeps[..|sweeps| - 1], apply), sweeps[|sweeps| - 1].records)
  }

  /** The history is what folding exactly the new sweeps, in path order, makes of the old one. */
  lemma {:induction false} HistoryIsFold<H>(args: seq<Arg>, start: State<H>, apply: (H, seq<Record>) -> H)
    requires Readable(args)
    ensures Fold(args, start, apply).Some?
    ensures Fold(args, start, apply).value.history == ApplyAll(start.history, FreshSweeps(args, start.applied), apply)
  {
    FoldDoes(args, start, apply);
    if args != [] {
      hide Identity;
      var n := |args| - 1;
      assert args == args[..n] + [args[n]];
      HistoryIsFold(args[..n], start, apply);
      assert args[n] in args;
      var earlier := FreshSweeps(args[..n], start.applied);
      if IsFresh(args[n], start.applied) {
        assert (earlier + [args[n].doc.value])[..|earlier|] == earlier;
      } else {
        assert earlier + [] == earlier;
      }
    }
  }

  lemma {:induction false} SortedReadable(args: seq<Arg>)
    ensures Readable(Sort(args, PathLess)) <==> Readable(args)
    ensures forall a :: a in Sort(args, PathLess) <==> a in args
  {
    SameElements(args, Sort(args, PathLess));
  }

  /** One sweep that cannot be read: exit 2, and nothing is folded or written, whatever came before it. */
  lemma {:induction false} UnreadableWritesNothing<H>(args: seq<Arg>, before: State<H>, dryRun: bool,
                                                      apply: (H, seq<Record>) -> H)
    ensures Invoke(args, before, dryRun, apply).0 == 2 <==> exists a :: a in args && a.doc.None?
    ensures (exists a :: a in args && a.doc.None?) ==>
              Invoke(args, before, dryRun, apply).1 == before && FoldedBy(args, before, dryRun, apply) == []
  {
    hide Sort, Fold, Kept;
    SortedReadable(args);
    FoldDoes(Sort(args, PathLess), before, apply);
  }

  lemma {:induction false} InsertStep(s: seq<Arg>, x: Arg)
    ensures Insert(s, x, PathLess)
         == if s != [] && PathLess(x, s[|s| - 1]) then Insert(s[..|s| - 1], x, PathLess) + [s[|s| - 1]] else s + [x]
  {
    hide PathLess;
  }

  lemma {:induction false} FreshInserted(s: seq<Arg>, x: Arg, already: seq<Id>)
    ensures multiset(FreshIds(Insert(s, x, PathLess), already)) == multiset(FreshIds(s + [x], already))
  {
    hide Identity, PathLess, IsFresh, FreshIds, Insert;
    InsertStep(s, x);
    if s != [] && PathLess(x, s[|s| - 1]) {
      var n := |s| - 1;
      var mid := Insert(s[..n], x, PathLess);
      FreshInserted(s[..n], x, already);
      FreshStep(mid, s[n], already);
      FreshStep(s, x, already);
      FreshStep(s[..n], x, already);
      FreshStep(s[..n], s[n], already);
      assert s[..n] + [s[n]] == s;
    }
  }

  lemma {:induction false} FreshSorted(args: seq<Arg>, already: seq<Id>)
    ensures multiset(FreshIds(Sort(args, PathLess), already)) == multiset(FreshIds(args, already))
  {
    hide Identity, PathLess, IsFresh, Insert, FreshIds;
    if args != [] {
      hide Identity, PathLess, IsFresh, Insert, FreshIds;
      var n := |args| - 1;
      var sorted := Sort(args[..n], PathLess);
      assert Sort(args, PathLess) == Insert(sorted, args[n], PathLess);
      FreshSorted(args[..n], already);
      hide Sort;
      FreshInserted(sorted, args[n], already);
      FreshStep(sorted, args[n], already);
      FreshStep(args[..n], args[n], already);
      assert args[..n] + [args[n]] == args;
    }
  }

  lemma {:induction false} RepeatsCounted(a: seq<Id>, b: seq<Id>)
    requires multiset(a) == multiset(b) && NoRepeats(a)
    ensures NoRepeats(b)
  {
    DistinctMultiset(a);
    forall i, j | 0 <= i < j < |b| ensures b[i] != b[j] {
      if b[i] == b[j] {
        RepeatCounts(b, i, j);
      }
    }
  }

  /**
   * One invocation folds no identity twice exactly when no two of its arguments name one new
   * sweep: the guard looks at the file's list and not at what this run has already folded.
   */
  lemma {:induction false} OncePerInvocation<H>(args: seq<Arg>, before: State<H>, apply: (H, seq<Record>) -> H)
    requires Readable(args)
    ensures NoRepeats(FoldedBy(args, before, false, apply)) <==> NoRepeats(FreshIds(args, before.applied))
  {
    hide Sort, Fold, FreshIds, NoRepeats;
    var folded, fresh_ := FoldedBy(args, before, false, apply), FreshIds(args, before.applied);
    SortedReadable(args);
    FoldDoes(Sort(args, PathLess), before, apply);
    FreshSorted(args, before.applied);
    if NoRepeats(folded) {
      RepeatsCounted(folded, fresh_);
    }
    if NoRepeats(fresh_) {
      RepeatsCounted(fresh_, folded);
    }
  }

  lemma {:induction false} TwoInOrder(a: Arg, b: Arg)
    requires a.path == [97] && b.path == [98]
    ensures Sort([a, b], PathLess) == [a, b]
  {
    assert LexLess([97], [98]) && !LexLess([98], [97]);
    assert !PathLess(b, a);
    assert [a, b][..1] == [a] && [a][..0] == [];
    assert Sort([], PathLess) == [];
    assert Sort([a], PathLess) == [a];
    assert Insert([a], b, PathLess) == [a] + [b];
  }

  /** One sweep under two names: folded twice. */
  lemma {:induction false} CopyFoldedTwice<H>(s: Sweep, before: State<H>, apply: (H, seq<Record>) -> H)
    requires s.records != [] && Identity(s) !in before.applied
    ensures var args := [Arg([97], Some(s)), Arg([98], Some(s))];
            && FoldedBy(args, before, false, apply) == [Identity(s), Identity(s)]
            && Invoke(args, before, false, apply).1.history == apply(apply(before.history, s.records), s.records)
  {
    hide Identity, Kept;
    var a, b := Arg([97], Some(s)), Arg([98], Some(s));
    var args := [a, b];
    TwoInOrder(a, b);
    hide Sort;
    assert args[..1] == [a] && [a][..0] == [];
    assert Fold([], before, apply) == Some(Progress(before.history, before.applied, []));
    assert Fold([a], before, apply).Some?;
    var p := Fold([a], before, apply).value;
    assert p == Progress(apply(before.history, s.records), before.applied + [Identity(s)], [Identity(s)]);
    assert Fold(args, before, apply) == Some(Turn(p, s, before.applied, apply));
  }

  /** The order the sweeps are listed in never matters. */
  lemma {:induction false} ArgumentOrderIrrelevant<H>(args: seq<Arg>, others: seq<Arg>, before: State<H>, dryRun: bool,
                                                      apply: (H, seq<Record>) -> H)
    requires multiset(args) == multiset(others)
    requires forall a, b :: a in args && b in args && a.path == b.path ==> a == b
    ensures Invoke(args, before, dryRun, apply) == Invoke(others, before, dryRun, apply)
    ensures FoldedBy(args, before, dryRun, apply) == FoldedBy(others, before, dryRun, apply)
  {
    hide Sort, Fold, Kept, LexLess;
    LexIsTotal();
    assert StrictWeak(PathLess);
    forall a, b | a in args && b in args && !PathLess(a, b) && !PathLess(b, a) ensures a == b {
      LexTrichotomy(a.path, b.path);
    }
    SortOrderIndependent(args, others, PathLess);
  }

  // ---- what the file remembers -------------------------------------------------------------------------

  lemma {:induction false} SortedUniqueIds(applied: seq<Id>)
    ensures var all := Sort(Unique(applied), IdLess);
            && StrictlyAscending(all, IdLess) && NoRepeats(all) && (forall x :: x in all <==> x in applied)
            && |all| == |Elements(applied)|
  {
    hide IdLess, Sort;
    IdsAreOrdered();
    SortStrictlyAscends(Unique(applied), IdLess);
    SameElements(Unique(applied), Sort(Unique(applied), IdLess));
    ElementsCount(Unique(applied));
    assert Elements(Unique(applied)) == Elements(applied);
    var all := Sort(Unique(applied), IdLess);
    forall i, j | 0 <= i < j < |all| ensures all[i] != all[j] {
      assert IdLess(all[i], all[j]) && !IdLess(all[i], all[i]);
    }
  }

  /** Those of some identities that come after one of them. */
  function Greater(x: Id, all: set<Id>): set<Id> { set y | y in all && IdLess(x, y) }

  /** Among the 64 greatest. */
  predicate Remembered(x: Id, all: set<Id>) { x in all && |Greater(x, all)| < APPLIED_RUNS_KEPT }

  /** An identity is remembered exactly when fewer than 64 of those applied are greater. */
  lemma {:induction false} KeptExactly(applied: seq<Id>, x: Id)
    ensures x in Kept(applied) <==> Remembered(x, Elements(applied))
  {
    hide IdLess, Sort, Unique;
    SortedUniqueIds(applied);
    var all := Sort(Unique(applied), IdLess);
    if x in applied {
      var i :| 0 <= i < |all| && all[i] == x;
      Above(all, i);
      assert Greater(x, Elements(applied)) == set y | y in all && IdLess(x, y);
      LastOnes(all, i);
    }
  }

  /** In a strictly ascending list the greater elements are the later ones. */
  lemma {:induction false} Above(all: seq<Id>, i: nat)
    requires StrictlyAscending(all, IdLess) && NoRepeats(all) && i < |all|
    ensures |set y | y in all && IdLess(all[i], y)| == |all| - 1 - i
  {
    IdsAreOrdered();
    hide IdLess;
    var later := all[i + 1..];
    var above := set y | y in all && IdLess(all[i], y);
    forall y ensures y in above <==> y in Elements(later) {
      if y in above {
        var j :| 0 <= j < |all| && all[j] == y;
        assert j > i;
        assert later[j - i - 1] == y;
      }
      if y in later {
        var j :| 0 <= j < |later| && later[j] == y;
        assert y == all[i + 1 + j];
      }
    }
    assert above == Elements(later);
    ElementsCount(later);
  }

  lemma {:induction false} LastOnes(all: seq<Id>, i: nat)
    requires NoRepeats(all) && i < |all|
    ensures |all| > APPLIED_RUNS_KEPT ==>
              (all[i] in all[|all| - APPLIED_RUNS_KEPT..] <==> i >= |all| - APPLIED_RUNS_KEPT)
  {
    if |all| > APPLIED_RUNS_KEPT {
      var m := |all| - APPLIED_RUNS_KEPT;
      if i >= m {
        assert all[m..][i - m] == all[i];
      }
      if all[i] in all[m..] {
        var j :| 0 <= j < |all| - m && all[m..][j] == all[i];
        assert all[m + j] == all[i];
      }
    }
  }

  /** The list is ascending, and full once there are 64. */
  lemma {:induction false} KeptIsFull(applied: seq<Id>)
    ensures StrictlyAscending(Kept(applied), IdLess) && NoRepeats(Kept(applied))
    ensures |Elements(Kept(applied))| == |Kept(applied)|
    ensures |Elements(applied)| >= APPLIED_RUNS_KEPT ==> |Kept(applied)| == APPLIED_RUNS_KEPT
  {
    hide IdLess, Sort, Unique;
    SortedUniqueIds(applied);
    ElementsCount(Kept(applied));
  }

  /** Nothing is remembered below something forgotten, and what is remembered then fills the list. */
  lemma {:induction false} ForgottenBelow(a: seq<Id>, x: Id, y: Id)
    requires y in a && y !in Kept(a) && IdLess(x, y)
    ensures Elements(Kept(a)) <= Greater(x, Elements(a))
    ensures |Kept(a)| == APPLIED_RUNS_KEPT
  {
    hide IdLess, Kept;
    IdsAreOrdered();
    var all := Elements(a);
    KeptExactly(a, y);
    SubsetSize(Greater(y, all), all);
    KeptIsFull(a);
    forall z | z in Kept(a) ensures z in Greater(x, all) {
      KeptExactly(a, z);
      if !IdLess(y, z) {
        assert Greater(y, all) <= Greater(z, all);
        SubsetSize(Greater(y, all), Greater(z, all));
      }
    }
  }

  /** Keeping 64, adding some and keeping 64 again is keeping 64 of everything. */
  lemma {:induction false} KeptOfKept(a: seq<Id>, b: seq<Id>, x: Id)
    ensures x in Kept(Kept(a) + b) <==> x in Kept(a + b)
  {
    hide IdLess, Kept;
    var kept, all := Elements(Kept(a) + b), Elements(a + b);
    forall y ensures y in Kept(a) ==> y in a {
      KeptExactly(a, y);
    }
    KeptExactly(Kept(a) + b, x);
    KeptExactly(a + b, x);
    KeptExactly(a, x);
    assert Greater(x, kept) <= Greater(x, all);
    SubsetSize(Greater(x, kept), Greater(x, all));
    if x in a {
      assert Greater(x, Elements(a)) <= Greater(x, all);
      SubsetSize(Greater(x, Elements(a)), Greater(x, all));
    }
    if y :| y in a && y !in Kept(a) && IdLess(x, y) {
      ForgottenBelow(a, x, y);
      assert Elements(Kept(a)) <= Greater(x, kept);
      SubsetSize(Elements(Kept(a)), Greater(x, kept));
      KeptIsFull(a);
    } else {
      assert Greater(x, kept) == Greater(x, all);
    }
  }

  /** The list depends on which identities were applied, and on nothing else. */
  lemma {:induction false} KeptBySet(a: seq<Id>, b: seq<Id>)
    requires forall x :: x in Kept(a) <==> x in Kept(b)
    ensures Kept(a) == Kept(b)
  {
    hide IdLess, Kept;
    IdsAreOrdered();
    KeptIsFull(a);
    KeptIsFull(b);
    SameMultiset(Kept(a), Kept(b));
    forall x, y | x in Kept(a) && y in Kept(a) && !IdLess(x, y) && !IdLess(y, x) ensures x == y { }
    SortedUnique(Kept(a), Kept(b), IdLess);
  }

  lemma {:induction false} SameMultiset(a: seq<Id>, b: seq<Id>)
    requires NoRepeats(a) && NoRepeats(b) && forall x :: x in a <==> x in b
    ensures multiset(a) == multiset(b)
  {
    DistinctMultiset(a);
    DistinctMultiset(b);
    forall x ensures multiset(a)[x] == multiset(b)[x] {
      assert x in a <==> x in multiset(a);
      assert x in b <==> x in multiset(b);
    }
  }

  // ---- sequences of invocations ----------------------------------------------------------------------------

  datatype Invocation = Invocation(args: seq<Arg>, dryRun: bool)

  function StateAfter<H>(start: State<H>, runs: seq<Invocation>, apply: (H, seq<Record>) -> H): State<H> {
    if runs == [] then start
    else
      var last := runs[|runs| - 1];
      Invoke(last.args, StateAfter(start, runs[..|runs| - 1], apply), last.dryRun, apply).1
  }

  /** Every identity folded, run after run. */
  function Log<H>(start: State<H>, runs: seq<Invocation>, apply: (H, seq<Record>) -> H): seq<Id> {
    if runs == [] then []
    else
      var last := runs[|runs| - 1];
      Log(start, runs[..|runs| - 1], apply)
      + FoldedBy(last.args, StateAfter(start, runs[..|runs| - 1], apply), last.dryRun, apply)
  }

  /** A run that writes the file. */
  predicate Writes(run: Invocation) { Readable(run.args) && !run.dryRun }

  function Identities(args: seq<Arg>): (r: seq<Id>)
    requires Readable(args)
    ensures forall x :: x in r <==> exists a :: a in args && Identity(a.doc.value) == x
  {
    hide Identity;
    var r := seq(|args|, i requires 0 <= i < |args| =>
      assert args[i] in args;
      Identity(args[i].doc.value));
    assert forall i :: 0 <= i < |args| ==> r[i] == Identity(args[i].doc.value) && args[i] in args;
    assert forall a :: a in args ==> Identity(a.doc.value) in r by {
      forall a | a in args ensures Identity(a.doc.value) in r {
        var i :| 0 <= i < |args| && args[i] == a;
        assert r[i] == Identity(a.doc.value);
      }
    }
    r
  }

  /** Every identity applied so far, remembered or not. */
  function Everything(first: seq<Id>, runs: seq<Invocation>): seq<Id> {
    if runs == [] then first
    else
      var last := runs[|runs| - 1];
      var before := Everything(first, runs[..|runs| - 1]);
      if Writes(last) then before + Identities(last.args) else before
  }

  /** The identities the loop ends with. */
  function AppliedBy<H>(args: seq<Arg>, before: State<H>, apply: (H, seq<Record>) -> H): seq<Id> {
    match Fold(Sort(args, PathLess), before, apply) case None => before.applied case Some(p) => p.applied
  }

  lemma {:induction false} AppliedByIs<H>(args: seq<Arg>, before: State<H>, apply: (H, seq<Record>) -> H)
    requires Readable(args)
    ensures Elements(AppliedBy(args, before, apply)) == Elements(before.applied + Identities(args))
    ensures Invoke(args, before, false, apply).1.applied == Kept(AppliedBy(args, before, apply))
  {
    hide Sort, Kept, Identity, Fold, FreshIds;
    SortedReadable(args);
    FoldDoes(Sort(args, PathLess), before, apply);
  }

  lemma {:induction false} KeptByElements(a: seq<Id>, b: seq<Id>)
    requires Elements(a) == Elements(b)
    ensures Kept(a) == Kept(b)
  {
    hide Kept, Remembered;
    forall x ensures x in Kept(a) <==> x in Kept(b) {
      KeptExactly(a, x);
      KeptExactly(b, x);
    }
    KeptBySet(a, b);
  }

  /** After any runs the file remembers the 64 greatest of everything applied so far. */
  lemma {:induction false} RemembersGreatest<H>(start: State<H>, runs: seq<Invocation>, apply: (H, seq<Record>) -> H)
    requires start.applied == Kept(start.applied)
    ensures StateAfter(start, runs, apply).applied == Kept(Everything(start.applied, runs))
  {
    hide Kept, Invoke, Identities;
    if runs != [] {
      var n := |runs| - 1;
      var before, so := StateAfter(start, runs[..n], apply), Everything(start.applied, runs[..n]);
      RemembersGreatest(start, runs[..n], apply);
      InvocationKeeps(runs[n], before, so, apply);
    }
  }

  lemma {:induction false} InvocationKeeps<H>(run: Invocation, before: State<H>, so: seq<Id>,
                                              apply: (H, seq<Record>) -> H)
    requires before.applied == Kept(so)
    ensures Invoke(run.args, before, run.dryRun, apply).1.applied
         == Kept(if Writes(run) then so + Identities(run.args) else so)
  {
    hide Kept, Identities, Sort, Fold;
    SortedReadable(run.args);
    FoldDoes(Sort(run.args, PathLess), before, apply);
    if Writes(run) {
      AppliedByIs(run.args, before, apply);
      KeptByElements(AppliedBy(run.args, before, apply), before.applied + Identities(run.args));
      forall x ensures x in Kept(Kept(so) + Identities(run.args)) <==> x in Kept(so + Identities(run.args)) {
        KeptOfKept(so, Identities(run.args), x);
      }
      KeptBySet(Kept(so) + Identities(run.args), so + Identities(run.args));
    }
  }

  // ---- folding at most once -----------------------------------------------------------------------------------

  /** An argument that can be folded: it can be read and is not empty. */
  predicate Counts(a: Arg) { a.doc.Some? && a.doc.value.records != [] }

  /** And whose identity is not among the 64 greatest. */
  predicate IsNew(a: Arg, so: set<Id>) { Counts(a) && !Remembered(Identity(a.doc.value), so) }

  /** No two arguments name one new sweep. */
  ghost predicate NewOnce(args: seq<Arg>, so: set<Id>) {
    forall i, j :: 0 <= i < j < |args| && IsNew(args[i], so) && IsNew(args[j], so) ==> Differ(args[i], args[j])
  }

  predicate Differ(a: Arg, b: Arg) {
    a.doc.Some? && b.doc.Some? ==> Identity(a.doc.value) != Identity(b.doc.value)
  }

  /** No argument names a sweep that was folded and has since fallen below the 64 greatest. */
  ghost predicate NoneForgotten(args: seq<Arg>, log: seq<Id>, so: set<Id>) {
    forall a :: a in args && Counts(a) && Identity(a.doc.value) in log ==>
      |Greater(Identity(a.doc.value), so)| < APPLIED_RUNS_KEPT
  }

  /** What a run must be like for it to fold nothing a second time. */
  ghost predicate FoldsAnew<H>(start: State<H>, runs: seq<Invocation>, k: nat, apply: (H, seq<Record>) -> H)
    requires k < |runs|
  {
    var so := Elements(Everything(start.applied, runs[..k]));
    Writes(runs[k]) ==>
      NewOnce(runs[k].args, so) && NoneForgotten(runs[k].args, Log(start, runs[..k], apply), so)
  }

  lemma {:induction false} NewOnceStep(args: seq<Arg>, so: set<Id>)
    requires args != []
    ensures var n := |args| - 1;
            NewOnce(args, so) <==>
              NewOnce(args[..n], so)
              && (IsNew(args[n], so) ==> forall a :: a in args[..n] && IsNew(a, so) ==> Differ(a, args[n]))
  {
    hide Differ, IsNew;
    var n := |args| - 1;
    assert forall i :: 0 <= i < n ==> args[..n][i] == args[i];
    assert forall i :: 0 <= i < n ==> args[i] in args[..n];
  }

  /** In the file's terms: the loop folds no identity twice. */
  lemma {:induction false} FreshOnce(args: seq<Arg>, already: seq<Id>, so: set<Id>)
    requires forall x :: x in already <==> Remembered(x, so)
    ensures NoRepeats(FreshIds(args, already)) <==> NewOnce(args, so)
  {
    if args != [] {
      hide Identity, Remembered, NewOnce, NoRepeats;
      var n := |args| - 1;
      FreshOnce(args[..n], already, so);
      NewOnceStep(args, so);
      assert args[..n] + [args[n]] == args;
      FreshStep(args[..n], args[n], already);
      FreshIdsOnly(args[..n], already);
      var ids := FreshIds(args[..n], already);
      hide FreshIds;
      if IsNew(args[n], so) {
        var id := Identity(args[n].doc.value);
        LastRepeats(ids, id);
        if id in ids {
          var a :| a in args[..n] && IsFresh(a, already) && Identity(a.doc.value) == id;
          assert IsNew(a, so) && !Differ(a, args[n]);
        } else {
          assert forall a :: a in args[..n] && IsNew(a, so) ==> IsFresh(a, already);
        }
      } else {
        assert ids + [] == ids;
      }
    }
  }

  lemma {:induction false} LastRepeats(a: seq<Id>, x: Id)
    ensures NoRepeats(a + [x]) <==> NoRepeats(a) && x !in a
  {
    if NoRepeats(a + [x]) {
      forall i, j | 0 <= i < j < |a| ensures a[i] != a[j] {
        assert (a + [x])[i] == a[i] && (a + [x])[j] == a[j];
      }
      forall i | 0 <= i < |a| ensures a[i] != x {
        assert (a + [x])[i] == a[i] && (a + [x])[|a|] == x;
      }
    }
  }

  lemma {:induction false} ConcatRepeats(a: seq<Id>, b: seq<Id>)
    ensures NoRepeats(a + b) <==> NoRepeats(a) && NoRepeats(b) && forall x :: x in b ==> x !in a
  {
    if NoRepeats(a + b) {
      forall i, j | 0 <= i < j < |a| ensures a[i] != a[j] {
        assert (a + b)[i] == a[i] && (a + b)[j] == a[j];
      }
      forall i, j | 0 <= i < j < |b| ensures b[i] != b[j] {
        assert (a + b)[|a| + i] == b[i] && (a + b)[|a| + j] == b[j];
      }
      forall x | x in b ensures x !in a {
        var j :| 0 <= j < |b| && b[j] == x;
        assert (a + b)[|a| + j] == x;
        assert forall i :: 0 <= i < |a| ==> (a + b)[i] == a[i];
      }
    }
    if NoRepeats(a) && NoRepeats(b) && forall x :: x in b ==> x !in a {
      forall i, j | 0 <= i < j < |a + b| ensures (a + b)[i] != (a + b)[j] {
        if i < |a| <= j {
          assert b[j - |a|] in b && a[i] in a;
        }
      }
    }
  }

  lemma {:induction false} NothingRepeats()
    ensures NoRepeats<Id>([])
  {
  }

  /** What the log holds has been applied. */
  lemma {:induction false} LogWithin<H>(start: State<H>, runs: seq<Invocation>, apply: (H, seq<Record>) -> H)
    ensures forall x :: x in Log(start, runs, apply) ==> x in Everything(start.applied, runs)
  {
    if runs != [] {
      hide Sort, Fold, Identities, FreshIds, Invoke;
      var n := |runs| - 1;
      var before, run := StateAfter(start, runs[..n], apply), runs[n];
      LogWithin(start, runs[..n], apply);
      SortedReadable(run.args);
      FoldDoes(Sort(run.args, PathLess), before, apply);
      FreshIdsOnly(Sort(run.args, PathLess), before.applied);
    }
  }

  /** One more run folds nothing a second time exactly when it is like that. */
  lemma {:induction false} FoldsAnewIff<H>(start: State<H>, runs: seq<Invocation>, k: nat, apply: (H, seq<Record>) -> H)
    requires k < |runs| && start.applied == Kept(start.applied)
    ensures var before, log := StateAfter(start, runs[..k], apply), Log(start, runs[..k], apply);
            var folded := FoldedBy(runs[k].args, before, runs[k].dryRun, apply);
            FoldsAnew(start, runs, k, apply) <==> NoRepeats(folded) && forall x :: x in folded ==> x !in log
  {
    hide Sort, Fold, Kept, FreshIds, Identity, Everything, StateAfter, Log, NoRepeats, NewOnce, Greater;
    var run, before, log := runs[k], StateAfter(start, runs[..k], apply), Log(start, runs[..k], apply);
    var so := Everything(start.applied, runs[..k]);
    RemembersGreatest(start, runs[..k], apply);
    LogWithin(start, runs[..k], apply);
    forall x ensures x in before.applied <==> Remembered(x, Elements(so)) {
      KeptExactly(so, x);
    }
    SortedReadable(run.args);
    var ordered := Sort(run.args, PathLess);
    FoldDoes(ordered, before, apply);
    assert NoRepeats<Id>([]) by { NothingRepeats(); }
    if Writes(run) {
      OncePerInvocation(run.args, before, apply);
      FreshOnce(run.args, before.applied, Elements(so));
      FreshIdsOnly(ordered, before.applied);
      var folded := FreshIds(ordered, before.applied);
      if NoneForgotten(run.args, log, Elements(so)) {
        forall x | x in folded ensures x !in log {
          var a :| a in ordered && IsFresh(a, before.applied) && Identity(a.doc.value) == x;
          assert a in run.args && Counts(a);
          assert x in log ==> Remembered(x, Elements(so));
        }
      }
      if forall x :: x in folded ==> x !in log {
        forall a | a in run.args && Counts(a) && Identity(a.doc.value) in log
          ensures |Greater(Identity(a.doc.value), Elements(so))| < APPLIED_RUNS_KEPT
        {
          assert a in ordered && !IsFresh(a, before.applied);
        }
      }
    }
  }

  /**
   * Over any sequence of invocations, every identity is folded into the history at most once
   * exactly when no invocation lists one new sweep twice, and none lists a sweep that was folded
   * before and has 64 or more greater identities among all that were applied so far.
   */
  lemma {:induction false} FoldedAtMostOnce<H>(start: State<H>, runs: seq<Invocation>, apply: (H, seq<Record>) -> H)
    requires start.applied == Kept(start.applied)
    ensures NoRepeats(Log(start, runs, apply)) <==>
              forall k :: 0 <= k < |runs| ==> FoldsAnew(start, runs, k, apply)
  {
    hide FoldedBy, FoldsAnew, Kept, Invoke;
    if runs != [] {
      var n := |runs| - 1;
      LogStep(start, runs, apply);
      hide Log, NoRepeats, StateAfter;
      FoldedAtMostOnce(start, runs[..n], apply);
      AllButLast(start, runs, apply);
      FoldsAnewIff(start, runs, n, apply);
      ConcatRepeats(Log(start, runs[..n], apply),
                    FoldedBy(runs[n].args, StateAfter(start, runs[..n], apply), runs[n].dryRun, apply));
    }
  }

  lemma {:induction false} LogStep<H>(start: State<H>, runs: seq<Invocation>, apply: (H, seq<Record>) -> H)
    requires runs != []
    ensures var n := |runs| - 1;
            Log(start, runs, apply) == Log(start, runs[..n], apply)
              + FoldedBy(runs[n].args, StateAfter(start, runs[..n], apply), runs[n].dryRun, apply)
  {
    hide FoldedBy, StateAfter;
  }

  lemma {:induction false} AllButLast<H>(start: State<H>, runs: seq<Invocation>, apply: (H, seq<Record>) -> H)
    requires runs != []
    ensures var n := |runs| - 1;
            (forall k :: 0 <= k < |runs| ==> FoldsAnew(start, runs, k, apply)) <==>
              (forall k :: 0 <= k < n ==> FoldsAnew(start, runs[..n], k, apply)) && FoldsAnew(start, runs, n, apply)
  {
    hide FoldsAnew;
    var n := |runs| - 1;
    forall k | 0 <= k < n ensures FoldsAnew(start, runs[..n], k, apply) <==> FoldsAnew(start, runs, k, apply) {
      SamePrefix(start, runs, k, apply);
    }
  }

  lemma {:induction false} SamePrefix<H>(start: State<H>, runs: seq<Invocation>, k: nat, apply: (H, seq<Record>) -> H)
    requires k < |runs| - 1
    ensures FoldsAnew(start, runs[..|runs| - 1], k, apply) <==> FoldsAnew(start, runs, k, apply)
  {
    hide Log, Everything, Writes, NewOnce, NoneForgotten;
    assert runs[..|runs| - 1][..k] == runs[..k];
  }

  /** Within each invocation the sweeps that can be read have distinct identities. */
  ghost predicate DistinctIdentities(args: seq<Arg>) {
    forall i, j :: 0 <= i < j < |args| ==> Differ(args[i], args[j])
  }

  /** With distinct identities in each invocation, forgetting is the only way to fold twice. */
  lemma {:induction false} OnlyForgettingFoldsTwice<H>(start: State<H>, runs: seq<Invocation>,
                                                       apply: (H, seq<Record>) -> H)
    requires start.applied == Kept(start.applied)
    requires forall r :: r in runs && Writes(r) ==> DistinctIdentities(r.args)
    ensures NoRepeats(Log(start, runs, apply)) <==>
              forall k :: 0 <= k < |runs| && Writes(runs[k]) ==>
                NoneForgotten(runs[k].args, Log(start, runs[..k], apply),
                              Elements(Everything(start.applied, runs[..k])))
  {
    hide Log, Everything, NoneForgotten, NoRepeats, Kept, Differ, IsNew;
    FoldedAtMostOnce(start, runs, apply);
    forall k | 0 <= k < |runs|
      ensures FoldsAnew(start, runs, k, apply) <==> (Writes(runs[k]) ==>
        NoneForgotten(runs[k].args, Log(start, runs[..k], apply), Elements(Everything(start.applied, runs[..k]))))
    {
      assert runs[k] in runs;
    }
  }

  // ---- running again ------------------------------------------------------------------------------------------

  /** A run repeated: what is folded a second time is what the first run's list had no room for. */
  lemma {:induction false} ForgottenFoldsAgain<H>(args: seq<Arg>, before: State<H>, apply: (H, seq<Record>) -> H,
                                                  a: Arg)
    requires Readable(args) && a in args && Counts(a)
    ensures var after := Invoke(args, before, false, apply).1;
            Identity(a.doc.value) in FoldedBy(args, after, false, apply) <==>
              |Greater(Identity(a.doc.value), Elements(AppliedBy(args, before, apply)))| >= APPLIED_RUNS_KEPT
  {
    hide Sort, Kept, Identity, Fold, FreshIds, Greater;
    SortedReadable(args);
    var ordered := Sort(args, PathLess);
    var after := Invoke(args, before, false, apply).1;
    var id := Identity(a.doc.value);
    AppliedByIs(args, before, apply);
    KeptExactly(AppliedBy(args, before, apply), id);
    assert id in Elements(AppliedBy(args, before, apply));
    FoldDoes(ordered, after, apply);
    FreshIdsOnly(ordered, after.applied);
    assert id !in after.applied ==> IsFresh(a, after.applied);
  }

  /**
   * Running the same arguments again folds nothing exactly when every sweep listed has fewer than
   * 64 greater identities among all the first run ended with; and then it leaves the file as it is.
   */
  lemma {:induction false} RerunChangesNothing<H>(args: seq<Arg>, before: State<H>, apply: (H, seq<Record>) -> H)
    requires Readable(args)
    ensures var after := Invoke(args, before, false, apply).1;
            FoldedBy(args, after, false, apply) == [] <==>
              forall a :: a in args && Counts(a) ==>
                |Greater(Identity(a.doc.value), Elements(AppliedBy(args, before, apply)))| < APPLIED_RUNS_KEPT
    ensures var after := Invoke(args, before, false, apply).1;
            FoldedBy(args, after, false, apply) == [] ==> Invoke(args, after, false, apply) == (0, after)
  {
    hide Sort, Kept, Identity, Fold, FreshIds, Greater, AppliedBy;
    SortedReadable(args);
    var ordered := Sort(args, PathLess);
    var after := Invoke(args, before, false, apply).1;
    FoldDoes(ordered, after, apply);
    forall a | a in args && Counts(a)
      ensures Identity(a.doc.value) in FoldedBy(args, after, false, apply) <==>
                |Greater(Identity(a.doc.value), Elements(AppliedBy(args, before, apply)))| >= APPLIED_RUNS_KEPT
    {
      ForgottenFoldsAgain(args, before, apply, a);
    }
    NothingFresh(ordered, after.applied);
    RerunKeeps(args, before, apply);
  }

  lemma {:induction false} RerunKeeps<H>(args: seq<Arg>, before: State<H>, apply: (H, seq<Record>) -> H)
    requires Readable(args)
    ensures var after := Invoke(args, before, false, apply).1;
            Invoke(args, after, false, apply).1.applied == after.applied
  {
    hide Kept, AppliedBy, Identities, Invoke;
    var after := Invoke(args, before, false, apply).1;
    var all, ids := AppliedBy(args, before, apply), Identities(args);
    AppliedByIs(args, before, apply);
    InvocationKeeps(Invocation(args, false), after, all, apply);
    assert Elements(all + ids) == Elements(all);
    KeptByElements(all + ids, all);
  }

  lemma {:induction false} NothingFresh(args: seq<Arg>, already: seq<Id>)
    ensures FreshIds(args, already) == [] <==> forall a :: a in args ==> !IsFresh(a, already)
  {
    FreshIdsOnly(args, already);
    if FreshIds(args, already) != [] {
      assert FreshIds(args, already)[0] in FreshIds(args, already);
    }
  }

  // ---- a history that folds a sweep twice -----------------------------------------------------------------------

  /** A sweep of one record at the instant `t`; everything else is as when it is not given. */
  function SweepAt(t: byte): (s: Sweep)
    ensures s.records != []
  {
    Sweep([t], [45], [45], [45], [[]])
  }

  function ArgAt(t: byte): Arg { Arg([t], Some(SweepAt(t))) }

  /** Sixty-four sweeps at instants after the thirty-second. */
  function SixtyFour(): seq<Arg> { seq(64, i requires 0 <= i < 64 => ArgAt(33 + i)) }

  lemma {:induction false} ClocksOrder(s: byte, t: byte)
    requires s < t
    ensures IdLess(Identity(SweepAt(s)), Identity(SweepAt(t)))
  {
    hide Identity;
    IdentityIs(SweepAt(s));
    IdentityIs(SweepAt(t));
    assert Identity(SweepAt(s))[0] == s && Identity(SweepAt(t))[0] == t;
  }

  lemma {:induction false} SixtyFourIdentities()
    ensures Readable(SixtyFour())
    ensures var ids := Identities(SixtyFour());
            |Elements(ids)| == APPLIED_RUNS_KEPT && forall x :: x in ids ==> IdLess(Identity(SweepAt(32)), x)
  {
    hide Identity, IdLess;
    IdsAreOrdered();
    var args := SixtyFour();
    var ids := Identities(args);
    assert |ids| == 64 && forall i :: 0 <= i < 64 ==> ids[i] == Identity(SweepAt(33 + i));
    hide Identities, SweepAt;
    forall i, j | 0 <= i < j < 64 ensures ids[i] != ids[j] {
      ClocksOrder(33 + i, 33 + j);
    }
    ElementsCount(ids);
    forall x | x in ids ensures IdLess(Identity(SweepAt(32)), x) {
      var i :| 0 <= i < 64 && ids[i] == x;
      ClocksOrder(32, 33 + i);
    }
  }

  /** A sweep that is not remembered is folded. */
  lemma {:induction false} NotRememberedFolds<H>(a: Arg, before: State<H>, apply: (H, seq<Record>) -> H)
    requires Counts(a) && Identity(a.doc.value) !in before.applied
    ensures Identity(a.doc.value) in FoldedBy([a], before, false, apply)
  {
    hide Identity, Sort, Fold, FreshIds;
    SortedReadable([a]);
    FoldDoes(Sort([a], PathLess), before, apply);
    assert a in [a] && IsFresh(a, before.applied);
  }

  /**
   * From an empty file: sixty-four sweeps are folded, then an earlier one, and the same command folds
   * that one again.
   */
  lemma {:induction false} SixtyFifthFoldedTwice<H>(history: H, apply: (H, seq<Record>) -> H)
    ensures var start := State(history, []);
            var full := Invoke(SixtyFour(), start, false, apply).1;
            var once := Invoke([ArgAt(32)], full, false, apply).1;
            && Identity(SweepAt(32)) in FoldedBy([ArgAt(32)], full, false, apply)
            && Identity(SweepAt(32)) in FoldedBy([ArgAt(32)], once, false, apply)
  {
    hide Identity, Kept, IdLess, SixtyFour, SweepAt, Identities, FoldedBy, Invoke;
    IdsAreOrdered();
    var first, again := Invocation(SixtyFour(), false), Invocation([ArgAt(32)], false);
    var start := State(history, []);
    assert Readable([ArgAt(32)]);
    SixtyFourIdentities();
    var id, ids := Identity(SweepAt(32)), Identities(SixtyFour());
    assert id !in ids;
    assert [] == Kept([]) by { NothingKept(); }
    InvocationKeeps(first, start, [], apply);
    var full := Invoke(SixtyFour(), start, false, apply).1;
    assert [] + ids == ids && full.applied == Kept(ids);
    KeptExactly(ids, id);
    NotRememberedFolds(ArgAt(32), full, apply);
    InvocationKeeps(again, full, ids, apply);
    var all := ids + Identities([ArgAt(32)]);
    KeptExactly(all, id);
    assert Elements(ids) <= Greater(id, Elements(all));
    SubsetSize(Elements(ids), Greater(id, Elements(all)));
    NotRememberedFolds(ArgAt(32), Invoke([ArgAt(32)], full, false, apply).1, apply);
  }

  lemma {:induction false} NothingKept()
    ensures Kept([]) == []
  {
  }
}
