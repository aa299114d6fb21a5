/**
 * Reconciling the open automated issues with the conditions of a run (`src/trackers/issues.py`
 * `plan`, and the loops of `scripts/raise-issues.py` that carry the plan out).
 */
module Issues {
  import opened Text
  import opened Lines
  import opened Order
  import opened Keys
  import opened IssueText

  // ---- the plan ------------------------------------------------------------------------------

  datatype ExistingIssue = ExistingIssue(number: nat, body: string, isOpen: bool)

  datatype Plan = Plan(openNew: seq<Condition>, update: seq<(nat, Condition)>, close: seq<nat>)

  /** The conditions by key; a repeated key keeps the last. */
  function Wanted(conditions: seq<Condition>): (m: map<string, Condition>)
    ensures forall k :: k in m ==> m[k].key == k && m[k] in conditions
    ensures forall c :: c in conditions ==> c.key in m
  {
    if conditions == [] then map[]
    else
      var n := |conditions| - 1;
      assert conditions == conditions[..n] + [conditions[n]];
      Wanted(conditions[..n])[conditions[n].key := conditions[n]]
  }

  /** Of several conditions with one key, the last is the one that counts. */
  lemma {:induction false} WantedIsLast(conditions: seq<Condition>, i: nat)
    requires i < |conditions| && forall j :: i < j < |conditions| ==> conditions[j].key != conditions[i].key
    ensures conditions[i].key in Wanted(conditions) && Wanted(conditions)[conditions[i].key] == conditions[i]
  {
    hide Wanted;
    var n := |conditions| - 1;
    WantedStep(conditions);
    if i < n {
      assert conditions[..n][i] == conditions[i];
      WantedIsLast(conditions[..n], i);
    }
  }

  lemma {:induction false} WantedStep(conditions: seq<Condition>)
    requires conditions != []
    ensures var last := conditions[|conditions| - 1];
            Wanted(conditions) == Wanted(conditions[..|conditions| - 1])[last.key := last]
  {
  }

  predicate IsMarked(e: ExistingIssue) { e.isOpen && KeyOf(e.body).Some? }

  /** The open issues that carry a marker. */
  function Marked(existing: seq<ExistingIssue>): (r: seq<ExistingIssue>)
    ensures forall e :: e in r <==> e in existing && IsMarked(e)
  {
    if existing == [] then []
    else
      var n := |existing| - 1;
      assert existing == existing[..n] + [existing[n]];
      Marked(existing[..n]) + (if IsMarked(existing[n]) then [existing[n]] else [])
  }

  predicate ByNumber(a: ExistingIssue, b: ExistingIssue) { a.number < b.number }

  /** `setdefault` over the issues in order: the first with a key stays. */
  function FirstWithKey(issues: seq<ExistingIssue>): map<string, nat>
    requires forall e :: e in issues ==> IsMarked(e)
  {
    if issues == [] then map[]
    else
      var n := |issues| - 1;
      var earlier := FirstWithKey(issues[..n]);
      assert IsMarked(issues[n]) by { assert issues[n] in issues; }
      var key := KeyOf(issues[n].body).value;
      if key in earlier then earlier else earlier[key := issues[n].number]
  }

  lemma {:induction false} SortedMarked(existing: seq<ExistingIssue>)
    ensures var s := Sort(Marked(existing), ByNumber);
            && Ascending(s, ByNumber)
            && forall e :: e in s <==> e in existing && IsMarked(e)
  {
    var s := Sort(Marked(existing), ByNumber);
    SortAscends(Marked(existing), ByNumber);
    SameElements(Marked(existing), s);
  }

  /** `open_issues`: the issue to keep for each key. */
  function OpenIssues(existing: seq<ExistingIssue>): map<string, nat> {
    SortedMarked(existing);
    FirstWithKey(Sort(Marked(existing), ByNumber))
  }

  function ToOpen(keys: seq<string>, wanted: map<string, Condition>, open: map<string, nat>): (r: seq<Condition>)
    requires forall k :: k in keys ==> k in wanted
  {
    if keys == [] then []
    else
      var n := |keys| - 1;
      assert keys == keys[..n] + [keys[n]];
      ToOpen(keys[..n], wanted, open) + (if keys[n] in open then [] else [wanted[keys[n]]])
  }

  function ToUpdate(keys: seq<string>, wanted: map<string, Condition>, open: map<string, nat>): seq<(nat, Condition)>
    requires forall k :: k in keys ==> k in wanted
  {
    if keys == [] then []
    else
      var n := |keys| - 1;
      assert keys == keys[..n] + [keys[n]];
      ToUpdate(keys[..n], wanted, open) + (if keys[n] in open then [(open[keys[n]], wanted[keys[n]])] else [])
  }

  function ToClose(keys: seq<string>, wanted: map<string, Condition>, open: map<string, nat>): seq<nat>
    requires forall k :: k in keys ==> k in open
  {
    if keys == [] then []
    else
      var n := |keys| - 1;
      assert keys == keys[..n] + [keys[n]];
      ToClose(keys[..n], wanted, open) + (if keys[n] in wanted then [] else [open[keys[n]]])
  }

  function PlanOf(conditions: seq<Condition>, existing: seq<ExistingIssue>): Plan {
    var wanted, open := Wanted(conditions), OpenIssues(existing);
    Plan(ToOpen(SortedKeys(wanted.Keys), wanted, open),
         ToUpdate(SortedKeys(wanted.Keys), wanted, open),
         ToClose(SortedKeys(open.Keys), wanted, open))
  }

  /** The dictionary of wanted conditions. */
  method CollectWanted(conditions: seq<Condition>) returns (wanted: map<string, Condition>)
    ensures wanted == Wanted(conditions)
  {
    wanted := map[];
    for i := 0 to |conditions|
      invariant wanted == Wanted(conditions[..i])
    {
      assert conditions[..i + 1][..i] == conditions[..i];
      wanted := wanted[conditions[i].key := conditions[i]];
    }
    assert conditions[..|conditions|] == conditions;
  }

  /** The dictionary of open issues, lowest number first. */
  method CollectOpen(existing: seq<ExistingIssue>) returns (open: map<string, nat>)
    ensures open == OpenIssues(existing)
  {
    hide Sort, Marked, IsMarked;
    SortedMarked(existing);
    var issues := Sort(Marked(existing), ByNumber);
    open := map[];
    for i := 0 to |issues|
      invariant forall e :: e in issues[..i] ==> IsMarked(e)
      invariant open == FirstWithKey(issues[..i])
    {
      assert issues[..i + 1][..i] == issues[..i];
      assert issues[i] in issues;
      assert KeyOf(issues[i].body).Some? by { Marks(issues[i]); }
      var key := KeyOf(issues[i].body).value;
      if key !in open {
        open := open[key := issues[i].number];
      }
    }
    assert issues[..|issues|] == issues;
  }

  lemma {:induction false} Marks(e: ExistingIssue)
    requires IsMarked(e)
    ensures e.isOpen && KeyOf(e.body).Some?
  {
  }

  /** The loop over the wanted keys. */
  method OpenOrUpdate(keys: seq<string>, wanted: map<string, Condition>, open: map<string, nat>)
    returns (openNew: seq<Condition>, update: seq<(nat, Condition)>)
    requires forall k :: k in keys ==> k in wanted
    ensures openNew == ToOpen(keys, wanted, open) && update == ToUpdate(keys, wanted, open)
  {
    openNew, update := [], [];
    for i := 0 to |keys|
      invariant openNew == ToOpen(keys[..i], wanted, open)
      invariant update == ToUpdate(keys[..i], wanted, open)
    {
      assert keys[..i + 1][..i] == keys[..i];
      if keys[i] in open {
        update := update + [(open[keys[i]], wanted[keys[i]])];
      } else {
        openNew := openNew + [wanted[keys[i]]];
      }
    }
    assert keys[..|keys|] == keys;
  }

  /** `plan`. */
  method MakePlan(conditions: seq<Condition>, existing: seq<ExistingIssue>) returns (plan: Plan)
    ensures plan == PlanOf(conditions, existing)
  {
    hide SortedKeys, OpenIssues, Wanted, ToOpen, ToUpdate, IsMarked, KeyOf;
    var wanted := CollectWanted(conditions);
    var open := CollectOpen(existing);
    var openNew, update := OpenOrUpdate(SortedKeys(wanted.Keys), wanted, open);
    var close: seq<nat> := [];
    var marked := SortedKeys(open.Keys);
    for i := 0 to |marked|
      invariant close == ToClose(marked[..i], wanted, open)
    {
      assert marked[..i + 1][..i] == marked[..i];
      if marked[i] !in wanted {
        close := close + [open[marked[i]]];
      }
    }
    assert marked[..|marked|] == marked;
    plan := Plan(openNew, update, close);
  }

  // ---- what a plan means for the repository ------------------------------------------------------

  datatype Issue = Issue(body: string, isOpen: bool)

  /** The issues of a repository by number; new ones are numbered from `next`. */
  datatype Repo = Repo(issues: map<nat, Issue>, next: nat)

  ghost predicate Valid(repo: Repo) { forall n :: n in repo.issues ==> n < repo.next }

  /** The open issues about a condition. */
  function OpenWith(repo: Repo, key: string): set<nat> {
    set n | n in repo.issues && repo.issues[n].isOpen && KeyOf(repo.issues[n].body) == Some(key)
  }

  /** A listing that shows every open issue, in any order, as it is. */
  ghost predicate Lists(existing: seq<ExistingIssue>, repo: Repo) {
    && (forall e :: e in existing ==> e.number in repo.issues && repo.issues[e.number] == Issue(e.body, e.isOpen))
    && (forall n :: n in repo.issues && repo.issues[n].isOpen ==>
          ExistingIssue(n, repo.issues[n].body, true) in existing)
  }

  /** The oldest of some issues, which is the one people follow. */
  ghost predicate IsLowest(n: nat, of: set<nat>) { n in of && forall m :: m in of ==> n <= m }

  /** The numbers of the listed issues about a condition. */
  function NumbersWith(issues: seq<ExistingIssue>, key: string): set<nat> {
    set e | e in issues && KeyOf(e.body) == Some(key) :: e.number
  }

  lemma {:induction false} NumbersStep(issues: seq<ExistingIssue>, key: string)
    requires issues != []
    ensures var n := |issues| - 1;
            NumbersWith(issues, key) == NumbersWith(issues[..n], key)
              + (if KeyOf(issues[n].body) == Some(key) then {issues[n].number} else {})
  {
    hide KeyOf;
    var n := |issues| - 1;
    assert issues == issues[..n] + [issues[n]];
    assert issues[n] in issues;
  }

  lemma {:induction false} LastIsGreatest(issues: seq<ExistingIssue>, key: string)
    requires issues != [] && Ascending(issues, ByNumber)
    ensures var earlier := NumbersWith(issues[..|issues| - 1], key);
            forall m: nat :: m in earlier ==> m <= issues[|issues| - 1].number
  {
    hide KeyOf;
    var n := |issues| - 1;
    var earlier := NumbersWith(issues[..n], key);
    forall m: nat | m in earlier ensures m <= issues[n].number {
      var e :| e in issues[..n] && KeyOf(e.body) == Some(key) && e.number == m;
      assert !ByNumber(issues[n], e);
    }
  }

  lemma {:induction false} FirstIsLowest(issues: seq<ExistingIssue>, key: string)
    requires forall e :: e in issues ==> IsMarked(e)
    requires Ascending(issues, ByNumber)
    ensures key in FirstWithKey(issues) <==> NumbersWith(issues, key) != {}
    ensures key in FirstWithKey(issues) ==> IsLowest(FirstWithKey(issues)[key], NumbersWith(issues, key))
  {
    if issues != [] {
      hide KeyOf, NumbersWith;
      var n := |issues| - 1;
      FirstIsLowest(issues[..n], key);
      NumbersStep(issues, key);
      LastIsGreatest(issues, key);
      assert IsMarked(issues[n]) by { assert issues[n] in issues; }
    } else {
      assert NumbersWith([], key) == {};
    }
  }

  /** Whatever the listing's order, each key keeps its oldest open issue. */
  lemma {:induction false} LowestWins(existing: seq<ExistingIssue>, repo: Repo, key: string)
    requires Lists(existing, repo)
    ensures key in OpenIssues(existing) <==> OpenWith(repo, key) != {}
    ensures key in OpenIssues(existing) ==> IsLowest(OpenIssues(existing)[key], OpenWith(repo, key))
  {
    hide KeyOf, FirstWithKey, Sort, Marked;
    SortedMarked(existing);
    var issues := Sort(Marked(existing), ByNumber);
    FirstIsLowest(issues, key);
    var listed, open := NumbersWith(issues, key), OpenWith(repo, key);
    forall n: nat ensures n in listed <==> n in open {
      if n in open {
        var e := ExistingIssue(n, repo.issues[n].body, true);
        assert e in existing && IsMarked(e) && e in issues;
      }
    }
    assert listed == open;
  }
}
