/**
 * Carrying plans out, run after run (`scripts/raise-issues.py`): what the open automated issues
 * are after any number of actions, and after any sequence of runs.
 */
module IssueRuns {
  import opened Collections
  import opened Text
  import opened IssueText
  import opened Issues
  import opened Keys
  import Order

  /** What the three loops do, one `gh` call each. */
  datatype Action = Create(condition: Condition) | Comment(number: nat, condition: Condition) | Close(number: nat)

  function Creates(cs: seq<Condition>): (r: seq<Action>)
    ensures |r| == |cs| && forall i :: 0 <= i < |cs| ==> r[i] == Create(cs[i])
  {
    seq(|cs|, i requires 0 <= i < |cs| => Create(cs[i]))
  }

  function Comments(us: seq<(nat, Condition)>): (r: seq<Action>)
    ensures |r| == |us| && forall i :: 0 <= i < |us| ==> r[i] == Comment(us[i].0, us[i].1)
  {
    seq(|us|, i requires 0 <= i < |us| => Comment(us[i].0, us[i].1))
  }

  function Closes(ns: seq<nat>): (r: seq<Action>)
    ensures |r| == |ns| && forall i :: 0 <= i < |ns| ==> r[i] == Close(ns[i])
  {
    seq(|ns|, i requires 0 <= i < |ns| => Close(ns[i]))
  }

  function Actions(plan: Plan): seq<Action> {
    Creates(plan.openNew) + Comments(plan.update) + Closes(plan.close)
  }

  function Do(repo: Repo, action: Action): Repo {
    match action
    case Create(c) => Repo(repo.issues[repo.next := Issue(Body(c, ""), true)], repo.next + 1)
    case Comment(_, _) => repo
    case Close(n) =>
      if n in repo.issues then Repo(repo.issues[n := Issue(repo.issues[n].body, false)], repo.next) else repo
  }

  function DoAll(repo: Repo, actions: seq<Action>): Repo {
    if actions == [] then repo else Do(DoAll(repo, actions[..|actions| - 1]), actions[|actions| - 1])
  }

  class Tracker {
    var issues: map<nat, Issue>
    var next: nat

    function Contents(): Repo
      reads this
    {
      Repo(issues, next)
    }

    method Act(action: Action)
      modifies this
      ensures Contents() == Do(old(Contents()), action)
    {
      match action {
        case Create(c) =>
          issues := issues[next := Issue(Body(c, ""), true)];
          next := next + 1;
        case Comment(_, _) =>
        case Close(n) =>
          if n in issues {
            issues := issues[n := Issue(issues[n].body, false)];
          }
      }
    }

    method ActAll(actions: seq<Action>)
      modifies this
      ensures Contents() == DoAll(old(Contents()), actions)
    {
      hide Do;
      for i := 0 to |actions|
        invariant Contents() == DoAll(old(Contents()), actions[..i])
      {
        assert actions[..i + 1][..i] == actions[..i];
        Act(actions[i]);
      }
      assert actions[..|actions|] == actions;
    }

    /** One run with `--apply`, from the listing it read: open, then comment, then close. */
    method Reconcile(conditions: seq<Condition>, existing: seq<ExistingIssue>)
      modifies this
      ensures Contents() == DoAll(old(Contents()), Actions(PlanOf(conditions, existing)))
    {
      hide PlanOf, DoAll;
      var plan := MakePlan(conditions, existing);
      ghost var start := Contents();
      DoConcat(start, Creates(plan.openNew), Comments(plan.update));
      DoConcat(start, Creates(plan.openNew) + Comments(plan.update), Closes(plan.close));
      ActAll(Creates(plan.openNew));
      ActAll(Comments(plan.update));
      ActAll(Closes(plan.close));
    }
  }

  lemma {:induction false} DoConcat(repo: Repo, a: seq<Action>, b: seq<Action>)
    ensures DoAll(repo, a + b) == DoAll(DoAll(repo, a), b)
  {
    hide Do;
    if b == [] {
      assert a + b == a;
    } else {
      var n := |b| - 1;
      DoConcat(repo, a, b[..n]);
      assert (a + b)[..|a + b| - 1] == a + b[..n];
    }
  }

  // ---- one action, one key -----------------------------------------------------------------

  /** The body a condition is filed under is read back as that condition. */
  predicate WellKeyed(c: Condition) { KeyOf(Body(c, "")) == Some(c.key) }

  lemma {:induction false} CreateOpens(repo: Repo, c: Condition, key: string)
    requires Valid(repo) && WellKeyed(c)
    ensures OpenWith(Do(repo, Create(c)), key) == OpenWith(repo, key) + (if c.key == key then {repo.next} else {})
    ensures Valid(Do(repo, Create(c))) && Do(repo, Create(c)).next == repo.next + 1
  {
    hide KeyOf, Body;
    assert repo.next !in repo.issues;
  }

  lemma {:induction false} CloseCloses(repo: Repo, n: nat, key: string)
    ensures OpenWith(Do(repo, Close(n)), key) == OpenWith(repo, key) - {n}
  {
    hide KeyOf;
  }

  // ---- the lists in a plan --------------------------------------------------------------------

  lemma {:induction false} OpensExactly(keys: seq<string>, wanted: map<string, Condition>, open: map<string, nat>)
    requires forall k :: k in keys ==> k in wanted && wanted[k].key == k
    requires forall i, j :: 0 <= i < j < |keys| ==> keys[i] != keys[j]
    ensures var r := ToOpen(keys, wanted, open);
            && (forall c :: c in r <==> c.key in keys && c.key !in open && wanted[c.key] == c)
            && (forall i, j :: 0 <= i < j < |r| ==> r[i].key != r[j].key)
  {
    if keys != [] {
      var n := |keys| - 1;
      assert keys == keys[..n] + [keys[n]];
      OpensExactly(keys[..n], wanted, open);
      assert keys[n] in keys && keys[n] !in keys[..n];
      var r, earlier := ToOpen(keys, wanted, open), ToOpen(keys[..n], wanted, open);
      assert forall i :: 0 <= i < |earlier| ==> earlier[i] in earlier;
      assert forall k :: k in keys <==> k in keys[..n] || k == keys[n];
    }
  }

  lemma {:induction false} ClosesExactly(keys: seq<string>, wanted: map<string, Condition>, open: map<string, nat>)
    requires forall k :: k in keys ==> k in open
    ensures forall n :: n in ToClose(keys, wanted, open) <==> exists k :: k in keys && k !in wanted && open[k] == n
  {
    if keys != [] {
      var n := |keys| - 1;
      assert keys == keys[..n] + [keys[n]];
      ClosesExactly(keys[..n], wanted, open);
      assert forall k :: k in keys <==> k in keys[..n] || k == keys[n];
    }
  }

  /** Keys, each before the next. */
  ghost predicate InOrder(keys: seq<string>) {
    forall i, j :: 0 <= i < j < |keys| ==> KeyLess(keys[i], keys[j])
  }

  /** The keys some test lets through, in their order. */
  function Filtered(keys: seq<string>, pass: string -> bool): (r: seq<string>)
    ensures forall k :: k in r <==> k in keys && pass(k)
  {
    if keys == [] then []
    else
      var n := |keys| - 1;
      assert keys == keys[..n] + [keys[n]];
      Filtered(keys[..n], pass) + (if pass(keys[n]) then [keys[n]] else [])
  }

  lemma {:induction false} FilteredInOrder(keys: seq<string>, pass: string -> bool)
    requires InOrder(keys)
    ensures InOrder(Filtered(keys, pass))
  {
    hide KeyLess;
    if keys != [] {
      var n := |keys| - 1;
      var earlier := Filtered(keys[..n], pass);
      FilteredInOrder(keys[..n], pass);
      forall i | 0 <= i < |earlier| ensures KeyLess(earlier[i], keys[n]) {
        assert earlier[i] in earlier;
      }
    }
  }

  function KeysOpened(plan: Plan): (r: seq<string>)
    ensures |r| == |plan.openNew| && forall i :: 0 <= i < |r| ==> r[i] == plan.openNew[i].key
  {
    seq(|plan.openNew|, i requires 0 <= i < |plan.openNew| => plan.openNew[i].key)
  }

  function KeysUpdated(plan: Plan): (r: seq<string>)
    ensures |r| == |plan.update| && forall i :: 0 <= i < |r| ==> r[i] == plan.update[i].1.key
  {
    seq(|plan.update|, i requires 0 <= i < |plan.update| => plan.update[i].1.key)
  }

  lemma {:induction false} ListsFiltered(keys: seq<string>, wanted: map<string, Condition>, open: map<string, nat>)
    requires forall k :: k in keys ==> k in wanted && wanted[k].key == k
    ensures KeysOpened(Plan(ToOpen(keys, wanted, open), [], [])) == Filtered(keys, k => k !in open)
    ensures KeysUpdated(Plan([], ToUpdate(keys, wanted, open), [])) == Filtered(keys, k => k in open)
  {
    if keys != [] {
      var n := |keys| - 1;
      assert keys == keys[..n] + [keys[n]];
      ListsFiltered(keys[..n], wanted, open);
      assert keys[n] in keys;
    }
  }

  lemma {:induction false} ClosedFiltered(keys: seq<string>, wanted: map<string, Condition>, open: map<string, nat>)
    requires forall k :: k in keys ==> k in open
    ensures var r := Filtered(keys, k => k !in wanted);
            |ToClose(keys, wanted, open)| == |r|
            && forall i :: 0 <= i < |r| ==> r[i] in open && ToClose(keys, wanted, open)[i] == open[r[i]]
  {
    if keys != [] {
      var n := |keys| - 1;
      assert keys == keys[..n] + [keys[n]];
      ClosedFiltered(keys[..n], wanted, open);
      assert keys[n] in keys;
    }
  }

  /** Each list of a plan goes by keys, in their order; the closures by the keys of what they close. */
  lemma {:induction false} PlanInKeyOrder(conditions: seq<Condition>, existing: seq<ExistingIssue>)
    returns (closed: seq<string>)
    ensures var plan := PlanOf(conditions, existing);
            && InOrder(KeysOpened(plan)) && InOrder(KeysUpdated(plan)) && InOrder(closed)
            && |closed| == |plan.close|
            && forall i :: 0 <= i < |closed| ==>
                 closed[i] in OpenIssues(existing) && plan.close[i] == OpenIssues(existing)[closed[i]]
  {
    hide KeyLess, SortedKeys, ToOpen, ToUpdate, ToClose, OpenIssues, Wanted, Filtered;
    var wanted, open := Wanted(conditions), OpenIssues(existing);
    var asked, marked := SortedKeys(wanted.Keys), SortedKeys(open.Keys);
    SortedKeysAscend(wanted.Keys);
    SortedKeysAscend(open.Keys);
    ListsFiltered(asked, wanted, open);
    ClosedFiltered(marked, wanted, open);
    FilteredInOrder(asked, k => k !in open);
    FilteredInOrder(asked, k => k in open);
    FilteredInOrder(marked, k => k !in wanted);
    closed := Filtered(marked, k => k !in wanted);
    var plan := PlanOf(conditions, existing);
    assert KeysOpened(plan) == KeysOpened(Plan(plan.openNew, [], []));
    assert KeysUpdated(plan) == KeysUpdated(Plan([], plan.update, []));
  }

  // ---- part of a run, one key --------------------------------------------------------------------

  /** The numbers the first creations about a key get. */
  function Fresh(cs: seq<Condition>, next: nat, key: string): set<nat> {
    if cs == [] then {}
    else Fresh(cs[..|cs| - 1], next, key) + (if cs[|cs| - 1].key == key then {next + |cs| - 1} else {})
  }

  lemma {:induction false} DoCreates(repo: Repo, cs: seq<Condition>)
    requires cs != []
    ensures DoAll(repo, Creates(cs)) == Do(DoAll(repo, Creates(cs[..|cs| - 1])), Create(cs[|cs| - 1]))
  {
    hide Do;
    assert Creates(cs)[..|cs| - 1] == Creates(cs[..|cs| - 1]);
  }

  lemma {:induction false} CreatesOpen(repo: Repo, cs: seq<Condition>, key: string)
    requires Valid(repo) && forall c :: c in cs ==> WellKeyed(c)
    ensures var t := DoAll(repo, Creates(cs));
            && Valid(t) && t.next == repo.next + |cs|
            && OpenWith(t, key) == OpenWith(repo, key) + Fresh(cs, repo.next, key)
  {
    hide OpenWith, WellKeyed, Do, Valid;
    if cs != [] {
      hide DoAll, Creates;
      var n := |cs| - 1;
      DoCreates(repo, cs);
      CreatesOpen(repo, cs[..n], key);
      assert cs[n] in cs;
      CreateOpens(DoAll(repo, Creates(cs[..n])), cs[n], key);
    }
  }

  lemma {:induction false} CommentsChangeNothing(repo: Repo, us: seq<(nat, Condition)>)
    ensures DoAll(repo, Comments(us)) == repo
  {
    if us != [] {
      assert Comments(us)[..|us| - 1] == Comments(us[..|us| - 1]);
      CommentsChangeNothing(repo, us[..|us| - 1]);
    }
  }

  lemma {:induction false} ClosesClose(repo: Repo, ns: seq<nat>, key: string)
    ensures OpenWith(DoAll(repo, Closes(ns)), key) == OpenWith(repo, key) - Elements(ns)
  {
    if ns != [] {
      hide OpenWith;
      var m := |ns| - 1;
      assert ns == ns[..m] + [ns[m]];
      assert Closes(ns)[..m] == Closes(ns[..m]);
      ClosesClose(repo, ns[..m], key);
      CloseCloses(DoAll(repo, Closes(ns[..m])), ns[m], key);
    }
  }

  /** How far into each of its three lists a run stopped after `j` actions has come. */
  function Reach(j: nat, from: nat, length: nat): nat {
    if j <= from then 0 else if j <= from + length then j - from else length
  }

  lemma {:induction false} PrefixOfActions(plan: Plan, j: nat)
    requires j <= |Actions(plan)|
    ensures var (a, b) := (|plan.openNew|, |plan.update|);
            Actions(plan)[..j] == Creates(plan.openNew[..Reach(j, 0, a)])
              + Comments(plan.update[..Reach(j, a, b)]) + Closes(plan.close[..Reach(j, a + b, |plan.close|)])
  {
  }

  lemma {:induction false} AfterPrefix(repo: Repo, plan: Plan, j: nat, key: string)
    requires Valid(repo) && (forall c :: c in plan.openNew ==> WellKeyed(c)) && j <= |Actions(plan)|
    ensures var (a, b) := (|plan.openNew|, |plan.update|);
            OpenWith(DoAll(repo, Actions(plan)[..j]), key)
              == OpenWith(repo, key) + Fresh(plan.openNew[..Reach(j, 0, a)], repo.next, key)
                 - Elements(plan.close[..Reach(j, a + b, |plan.close|)])
  {
    hide OpenWith, WellKeyed, Fresh, DoAll, Actions;
    var a, b := |plan.openNew|, |plan.update|;
    var cs, us := plan.openNew[..Reach(j, 0, a)], plan.update[..Reach(j, a, b)];
    var ns := plan.close[..Reach(j, a + b, |plan.close|)];
    PrefixOfActions(plan, j);
    DoConcat(repo, Creates(cs) + Comments(us), Closes(ns));
    DoConcat(repo, Creates(cs), Comments(us));
    CreatesOpen(repo, cs, key);
    CommentsChangeNothing(DoAll(repo, Creates(cs)), us);
    ClosesClose(DoAll(repo, Creates(cs)), ns, key);
  }

  /** Distinct keys: at most one creation is about a key. */
  lemma {:induction false} FreshOnce(cs: seq<Condition>, next: nat, key: string)
    requires forall i, j :: 0 <= i < j < |cs| ==> cs[i].key != cs[j].key
    ensures |Fresh(cs, next, key)| <= 1
    ensures Fresh(cs, next, key) != {} <==> exists c :: c in cs && c.key == key
    ensures var f := Fresh(cs, next, key); forall n: nat :: n in f ==> next <= n
  {
    if cs != [] {
      var n := |cs| - 1;
      assert cs == cs[..n] + [cs[n]];
      FreshOnce(cs[..n], next, key);
      if cs[n].key == key {
        assert forall c :: c in cs[..n] ==> c.key != key;
        assert Fresh(cs[..n], next, key) == {};
        assert cs[n] in cs;
      }
    }
  }

  // ---- a run -----------------------------------------------------------------------------------

  /** What a plan made from an honest listing opens and closes for one key. */
  lemma {:induction false} PlanFor(repo: Repo, conditions: seq<Condition>, existing: seq<ExistingIssue>, key: string)
    requires Lists(existing, repo)
    ensures var plan := PlanOf(conditions, existing);
            && (forall i, j :: 0 <= i < j < |plan.openNew| ==> plan.openNew[i].key != plan.openNew[j].key)
            && (forall c :: c in plan.openNew ==> c in conditions)
            && ((exists c :: c in plan.openNew && c.key == key) <==>
                  key in Wanted(conditions) && OpenWith(repo, key) == {})
    ensures var plan := PlanOf(conditions, existing);
            var before := OpenWith(repo, key);
            && (forall n: nat :: n in plan.close && n in before ==>
                  key !in Wanted(conditions) && IsLowest(n, before))
            && (key !in Wanted(conditions) && before != {} ==>
                  exists n :: n in plan.close && IsLowest(n, before))
  {
    hide OpenWith, KeyOf, ToOpen, ToUpdate, ToClose, SortedKeys, OpenIssues, Lists, IsLowest;
    var wanted, open := Wanted(conditions), OpenIssues(existing);
    OpensExactly(SortedKeys(wanted.Keys), wanted, open);
    ClosesExactly(SortedKeys(open.Keys), wanted, open);
    LowestWins(existing, repo, key);
    var plan := PlanOf(conditions, existing);
    if key in wanted && key !in open {
      assert wanted[key] in plan.openNew;
    }
    var before := OpenWith(repo, key);
    forall n: nat | n in plan.close && n in before
      ensures key !in wanted && IsLowest(n, before)
    {
      var k :| k in SortedKeys(open.Keys) && k !in wanted && open[k] == n;
      LowestWins(existing, repo, k);
      OneKeyEach(repo, n, k, key);
    }
  }

  lemma {:induction false} UpdatesExactly(keys: seq<string>, wanted: map<string, Condition>, open: map<string, nat>)
    requires forall k :: k in keys ==> k in wanted && wanted[k].key == k
    ensures forall n, c :: (n, c) in ToUpdate(keys, wanted, open) <==>
              c.key in keys && c.key in open && open[c.key] == n && wanted[c.key] == c
  {
    if keys != [] {
      var n := |keys| - 1;
      assert keys == keys[..n] + [keys[n]];
      UpdatesExactly(keys[..n], wanted, open);
      assert forall k :: k in keys <==> k in keys[..n] || k == keys[n];
    }
  }

  /** A condition that persists is a comment on its oldest issue, and only those are. */
  lemma {:induction false} UpdatesOldest(repo: Repo, conditions: seq<Condition>, existing: seq<ExistingIssue>,
                                         n: nat, c: Condition)
    requires Lists(existing, repo)
    ensures (n, c) in PlanOf(conditions, existing).update <==>
              c.key in Wanted(conditions) && Wanted(conditions)[c.key] == c && IsLowest(n, OpenWith(repo, c.key))
  {
    hide OpenWith, KeyOf, ToOpen, ToUpdate, ToClose, SortedKeys, OpenIssues, Lists;
    var wanted, open := Wanted(conditions), OpenIssues(existing);
    UpdatesExactly(SortedKeys(wanted.Keys), wanted, open);
    LowestWins(existing, repo, c.key);
  }

  lemma {:induction false} OneKeyEach(repo: Repo, n: nat, a: string, b: string)
    requires IsLowest(n, OpenWith(repo, a)) && n in OpenWith(repo, b)
    ensures a == b
  {
  }

  /** Stopped after any number of actions, a run has not made a second issue for any key. */
  lemma {:induction false} StoppedRun(repo: Repo, conditions: seq<Condition>, existing: seq<ExistingIssue>,
                                      j: nat, key: string)
    requires Valid(repo) && Lists(existing, repo) && forall c :: c in conditions ==> WellKeyed(c)
    requires j <= |Actions(PlanOf(conditions, existing))|
    ensures var before := OpenWith(repo, key);
            var after := OpenWith(DoAll(repo, Actions(PlanOf(conditions, existing))[..j]), key);
            && (before != {} ==> after <= before)
            && (before == {} ==> |after| <= 1 && (after != {} ==> key in Wanted(conditions)))
  {
    hide OpenWith, WellKeyed, Fresh, DoAll, Actions, PlanOf, Lists;
    var plan := PlanOf(conditions, existing);
    var cs := plan.openNew[..Reach(j, 0, |plan.openNew|)];
    PlanFor(repo, conditions, existing, key);
    AfterPrefix(repo, plan, j, key);
    FreshOnce(cs, repo.next, key);
    assert forall c :: c in cs ==> c in plan.openNew;
    var fresh_ := Fresh(cs, repo.next, key);
    var ns := Elements(plan.close[..Reach(j, |plan.openNew| + |plan.update|, |plan.close|)]);
    if OpenWith(repo, key) == {} {
      SubsetSize(fresh_ - ns, fresh_);
      assert OpenWith(repo, key) + fresh_ - ns == fresh_ - ns;
    } else {
      assert fresh_ == {};
    }
  }

  lemma {:induction false} AfterAll(repo: Repo, plan: Plan, key: string)
    requires Valid(repo) && (forall c :: c in plan.openNew ==> WellKeyed(c))
    ensures OpenWith(DoAll(repo, Actions(plan)), key)
         == OpenWith(repo, key) + Fresh(plan.openNew, repo.next, key) - Elements(plan.close)
  {
    hide OpenWith, WellKeyed, Fresh, DoAll, Elements, Valid;
    var all := Actions(plan);
    assert all[..|all|] == all && plan.close[..|plan.close|] == plan.close;
    assert plan.openNew[..|plan.openNew|] == plan.openNew;
    AfterPrefix(repo, plan, |all|, key);
  }

  /**
   * A completed run, from any number of open issues per key: a wanted key keeps its issues, or
   * gets one when it had none; a cleared key loses its oldest issue and only that one.
   */
  lemma {:induction false} CompletedRun(repo: Repo, conditions: seq<Condition>, existing: seq<ExistingIssue>,
                                        key: string)
    requires Valid(repo) && Lists(existing, repo) && forall c :: c in conditions ==> WellKeyed(c)
    ensures var before := OpenWith(repo, key);
            var after := OpenWith(DoAll(repo, Actions(PlanOf(conditions, existing))), key);
            if key in Wanted(conditions) then
              if before == {} then |after| == 1 else after == before
            else
              if before == {} then after == {} else exists n :: IsLowest(n, before) && after == before - {n}
  {
    hide OpenWith, WellKeyed, Fresh, DoAll, PlanOf, Lists, IsLowest, Wanted, Valid, Actions;
    var plan := PlanOf(conditions, existing);
    PlanFor(repo, conditions, existing, key);
    AfterAll(repo, plan, key);
    FreshOnce(plan.openNew, repo.next, key);
    NothingCreatedIsClosed(repo, conditions, existing);
    var before, fresh_, ns := OpenWith(repo, key), Fresh(plan.openNew, repo.next, key), Elements(plan.close);
    if key in Wanted(conditions) {
      assert before + fresh_ - ns == if before == {} then fresh_ else before;
      assert before == {} ==> fresh_ != {};
    } else {
      assert fresh_ == {};
      if before != {} {
        var n :| n in plan.close && IsLowest(n, before);
        OnlyOne(before, ns, n);
        assert before + fresh_ == before;
      }
    }
  }

  lemma {:induction false} OnlyOne(before: set<nat>, ns: set<nat>, n: nat)
    requires n in ns && IsLowest(n, before)
    requires forall m: nat :: m in before && m in ns ==> IsLowest(m, before)
    ensures before - ns == before - {n}
  {
    forall m: nat | m in before && m in ns ensures m == n {
      LowestIsOne(m, n, before);
    }
  }

  lemma {:induction false} LowestIsOne(m: nat, n: nat, of: set<nat>)
    requires IsLowest(m, of) && IsLowest(n, of)
    ensures m == n && n in of
  {
  }

  /** What a plan closes was there when the run began. */
  lemma {:induction false} NothingCreatedIsClosed(repo: Repo, conditions: seq<Condition>, existing: seq<ExistingIssue>)
    requires Valid(repo) && Lists(existing, repo)
    ensures forall n :: n in PlanOf(conditions, existing).close ==> n < repo.next
    ensures forall n :: n in PlanOf(conditions, existing).close ==>
              exists k :: k !in Wanted(conditions) && IsLowest(n, OpenWith(repo, k))
  {
    hide KeyOf, ToOpen, ToUpdate, ToClose, SortedKeys, OpenIssues;
    var wanted, open := Wanted(conditions), OpenIssues(existing);
    ClosesExactly(SortedKeys(open.Keys), wanted, open);
    forall n | n in PlanOf(conditions, existing).close
      ensures n < repo.next && exists k :: k !in wanted && IsLowest(n, OpenWith(repo, k))
    {
      var k :| k in SortedKeys(open.Keys) && k !in wanted && open[k] == n;
      LowestWins(existing, repo, k);
    }
  }

  // ---- what no run touches -----------------------------------------------------------------------

  lemma {:induction false} OthersKept(repo: Repo, actions: seq<Action>, n: nat)
    requires Valid(repo) && n in repo.issues && Close(n) !in actions
    ensures var t := DoAll(repo, actions);
            t.next >= repo.next && n in t.issues && t.issues[n] == repo.issues[n]
  {
    if actions != [] {
      var m := |actions| - 1;
      assert actions == actions[..m] + [actions[m]];
      assert actions[m] in actions;
      OthersKept(repo, actions[..m], n);
    }
  }

  /** Somebody's own issue, a closed one, and one whose condition persists come through untouched. */
  lemma {:induction false} Untouched(repo: Repo, conditions: seq<Condition>, existing: seq<ExistingIssue>, j: nat,
                                     n: nat)
    requires Valid(repo) && Lists(existing, repo) && j <= |Actions(PlanOf(conditions, existing))|
    requires n in repo.issues
    requires var issue := repo.issues[n];
             var key := KeyOf(issue.body);
             !issue.isOpen || key.None? || key.value in Wanted(conditions)
    ensures var t := DoAll(repo, Actions(PlanOf(conditions, existing))[..j]);
            n in t.issues && t.issues[n] == repo.issues[n]
  {
    hide KeyOf, PlanOf, Lists, Wanted, DoAll, Valid;
    var plan := PlanOf(conditions, existing);
    NothingCreatedIsClosed(repo, conditions, existing);
    assert Close(n) !in Actions(plan)[..j] by {
      assert Close(n) in Actions(plan) ==> n in plan.close;
      assert forall a :: a in Actions(plan)[..j] ==> a in Actions(plan);
    }
    OthersKept(repo, Actions(plan)[..j], n);
  }

  // ---- whole histories -----------------------------------------------------------------------------

  /** One run: the repository it found, what it listed and observed, and how many actions it took. */
  datatype Round = Round(repo: Repo, existing: seq<ExistingIssue>, conditions: seq<Condition>, taken: nat)

  function ActionsOf(r: Round): seq<Action> { Actions(PlanOf(r.conditions, r.existing)) }

  ghost predicate IsRound(r: Round) {
    && Valid(r.repo) && Lists(r.existing, r.repo) && (forall c :: c in r.conditions ==> WellKeyed(c))
    && r.taken <= |ActionsOf(r)|
  }

  function RepoAfter(r: Round): Repo
    requires r.taken <= |ActionsOf(r)|
  {
    DoAll(r.repo, ActionsOf(r)[..r.taken])
  }

  /** Between runs people may close, file and reopen issues, but give no key a second open one. */
  ghost predicate Quiet(before: Repo, after: Repo) {
    forall key :: |OpenWith(after, key)| <= AtLeastOne(|OpenWith(before, key)|)
  }

  function AtLeastOne(n: nat): nat { if n == 0 then 1 else n }

  ghost predicate NoDuplicates(repo: Repo) { forall key :: |OpenWith(repo, key)| <= 1 }

  ghost predicate IsHistory(rounds: seq<Round>) {
    && (forall k :: 0 <= k < |rounds| ==> IsRound(rounds[k]))
    && (forall k :: 0 <= k < |rounds| - 1 ==> Quiet(RepoAfter(rounds[k]), rounds[k + 1].repo))
  }

  lemma {:induction false} RoundAddsNoDuplicate(r: Round, j: nat)
    requires IsRound(r) && j <= |ActionsOf(r)|
    ensures Quiet(r.repo, DoAll(r.repo, ActionsOf(r)[..j]))
  {
    hide OpenWith, PlanOf, Actions, DoAll, WellKeyed, Lists, Valid;
    var t := DoAll(r.repo, ActionsOf(r)[..j]);
    forall key ensures |OpenWith(t, key)| <= AtLeastOne(|OpenWith(r.repo, key)|) {
      StoppedRun(r.repo, r.conditions, r.existing, j, key);
      if OpenWith(r.repo, key) != {} {
        SubsetSize(OpenWith(t, key), OpenWith(r.repo, key));
      }
    }
  }

  lemma {:induction false} RoundOf(rounds: seq<Round>, k: nat)
    requires IsHistory(rounds) && k < |rounds|
    ensures IsRound(rounds[k]) && rounds[k].taken <= |ActionsOf(rounds[k])|
    ensures k + 1 < |rounds| ==> Quiet(RepoAfter(rounds[k]), rounds[k + 1].repo)
  {
    hide OpenWith, Actions, PlanOf;
  }

  lemma {:induction false} QuietQuiet(a: Repo, b: Repo, c: Repo)
    requires Quiet(a, b) && Quiet(b, c)
    ensures Quiet(a, c)
  {
    hide OpenWith;
  }

  /** Over any runs, each stopped anywhere, no condition ever has more open issues than it began with, or than one. */
  lemma {:induction false} DuplicatesNeverGrow(rounds: seq<Round>, k: nat, j: nat)
    requires IsHistory(rounds) && k < |rounds| && j <= |ActionsOf(rounds[k])|
    ensures Quiet(rounds[0].repo, rounds[k].repo)
    ensures Quiet(rounds[0].repo, DoAll(rounds[k].repo, ActionsOf(rounds[k])[..j]))
  {
    hide OpenWith, ActionsOf, DoAll, IsRound, IsHistory, Quiet;
    RoundOf(rounds, k);
    if k > 0 {
      RoundOf(rounds, k - 1);
      DuplicatesNeverGrow(rounds, k - 1, rounds[k - 1].taken);
      QuietQuiet(rounds[0].repo, RepoAfter(rounds[k - 1]), rounds[k].repo);
    } else {
      QuietHere(rounds[0].repo);
    }
    RoundAddsNoDuplicate(rounds[k], j);
    QuietQuiet(rounds[0].repo, rounds[k].repo, DoAll(rounds[k].repo, ActionsOf(rounds[k])[..j]));
  }

  lemma {:induction false} QuietHere(repo: Repo)
    ensures Quiet(repo, repo)
  {
    hide OpenWith;
  }

  /** Without duplicates to begin with, no condition ever has two open issues. */
  lemma {:induction false} NeverTwice(rounds: seq<Round>, k: nat, j: nat)
    requires IsHistory(rounds) && k < |rounds| && j <= |ActionsOf(rounds[k])|
    requires NoDuplicates(rounds[0].repo)
    ensures NoDuplicates(rounds[k].repo) && NoDuplicates(DoAll(rounds[k].repo, ActionsOf(rounds[k])[..j]))
  {
    hide OpenWith, ActionsOf, DoAll, IsRound, IsHistory;
    DuplicatesNeverGrow(rounds, k, j);
  }

  /** What a completed run leaves open for a cleared key: one issue fewer. */
  lemma {:induction false} OneFewer(r: Round, key: string)
    requires IsRound(r) && r.taken == |ActionsOf(r)| && key !in Wanted(r.conditions)
    ensures |OpenWith(RepoAfter(r), key)| == Remaining(|OpenWith(r.repo, key)|, 1)
  {
    hide OpenWith, PlanOf, Actions, DoAll, WellKeyed, Lists, Valid, Wanted;
    CompletedRun(r.repo, r.conditions, r.existing, key);
    assert ActionsOf(r)[..r.taken] == ActionsOf(r);
    var before := OpenWith(r.repo, key);
    if before != {} {
      var n :| IsLowest(n, before) && OpenWith(RepoAfter(r), key) == before - {n};
      LowestIsOne(n, n, before);
    }
  }

  /** `max(0, d - runs)`. */
  function Remaining(d: nat, runs: nat): nat { if d <= runs then 0 else d - runs }

  /**
   * While a key stays cleared, each completed run takes one of its open issues away: `d` of them
   * are gone after `d` runs, whatever people reopen in between without making a second one. When
   * nobody else opens or closes any, each run takes exactly one.
   */
  lemma {:induction false} ClearedKeysDrain(rounds: seq<Round>, key: string)
    requires IsHistory(rounds) && rounds != []
    requires forall k :: 0 <= k < |rounds| ==>
               rounds[k].taken == |ActionsOf(rounds[k])| && key !in Wanted(rounds[k].conditions)
    ensures var left := |OpenWith(RepoAfter(rounds[|rounds| - 1]), key)|;
            var atMost := Remaining(|OpenWith(rounds[0].repo, key)|, |rounds|);
            && left <= atMost
            && ((forall k :: 0 < k < |rounds| ==>
                   |OpenWith(rounds[k].repo, key)| == |OpenWith(RepoAfter(rounds[k - 1]), key)|)
                ==> left == atMost)
  {
    hide OpenWith, ActionsOf, DoAll, IsRound, Wanted;
    var n := |rounds| - 1;
    OneFewer(rounds[n], key);
    if n > 0 {
      ClearedKeysDrain(rounds[..n], key);
      assert Quiet(RepoAfter(rounds[n - 1]), rounds[n].repo);
    }
  }

  /** And every run that completes leaves one open issue for each of its conditions, and no other. */
  lemma {:induction false} ConvergesEveryRun(rounds: seq<Round>, k: nat, key: string)
    requires IsHistory(rounds) && k < |rounds| && rounds[k].taken == |ActionsOf(rounds[k])|
    requires NoDuplicates(rounds[0].repo)
    ensures |OpenWith(RepoAfter(rounds[k]), key)|
         == if exists c :: c in rounds[k].conditions && c.key == key then 1 else 0
  {
    hide OpenWith, PlanOf, Actions, DoAll, WellKeyed, Lists, Valid, IsHistory;
    var r := rounds[k];
    assert IsRound(r) by { RoundOf(rounds, k); }
    NeverTwice(rounds, k, 0);
    CompletedRun(r.repo, r.conditions, r.existing, key);
    assert ActionsOf(r)[..r.taken] == ActionsOf(r);
    var before := OpenWith(r.repo, key);
    if before != {} {
      var n :| n in before;
      SubsetSize({n}, before);
      Single(before);
    }
  }

  lemma {:induction false} Single(s: set<nat>)
    requires |s| == 1
    ensures forall n :: n in s ==> s - {n} == {}
  {
    forall n | n in s ensures s - {n} == {} {
      assert s == {n} + (s - {n});
    }
  }

  // ---- order ------------------------------------------------------------------------------------------

  /** The order in which issues are listed and conditions observed never matters. */
  lemma {:induction false} OrderIrrelevant(repo: Repo, cs: seq<Condition>, ds: seq<Condition>,
                                           existing: seq<ExistingIssue>, listed: seq<ExistingIssue>)
    requires Lists(existing, repo) && Lists(listed, repo)
    requires multiset(cs) == multiset(ds)
    requires forall i, j :: 0 <= i < j < |cs| ==> cs[i].key != cs[j].key
    ensures PlanOf(cs, existing) == PlanOf(ds, listed)
  {
    hide OpenWith, OpenIssues, ToOpen, ToUpdate, ToClose, SortedKeys, Lists, Wanted;
    var open, other := OpenIssues(existing), OpenIssues(listed);
    forall key ensures key in open <==> key in other
      ensures key in open ==> open[key] == other[key]
    {
      LowestWins(existing, repo, key);
      LowestWins(listed, repo, key);
    }
    assert open == other;
    var wanted, same := Wanted(cs), Wanted(ds);
    Order.SameElements(cs, ds);
    forall key ensures key in wanted <==> key in same
      ensures key in wanted ==> wanted[key] == same[key]
    {
      if key in wanted {
        assert wanted[key] in ds;
      }
      if key in same {
        assert same[key] in cs;
      }
      if key in wanted && key in same {
        var i :| 0 <= i < |cs| && cs[i] == wanted[key];
        var j :| 0 <= j < |cs| && cs[j] == same[key];
      }
    }
    assert wanted == same;
  }
}
