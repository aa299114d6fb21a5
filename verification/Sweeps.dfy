/**
 * Folding health sweeps into the history (`scripts/update-state.py`): what names a sweep, the
 * loop that folds each one not yet applied, and the bounded list that remembers them.
 */
module Sweeps {
  import opened Bytes
  import opened Text
  import opened Order

  type Id = seq<byte>
  type Record = seq<byte>

  const BAR: byte := 124
  const APPLIED_RUNS_KEPT := 64

  /** A sweep file: the clock, what it was pointed at, and what it measured. */
  datatype Sweep = Sweep(generatedAt: Id, mode: Id, place: Id, slice: Id, records: seq<Record>)

  /** `sweep_identity`. */
  function Identity(s: Sweep): Id {
    Join([s.generatedAt, s.mode, s.place, SLICE + s.slice, Digits(|s.records|)], BAR)
  }

  const SLICE := Ascii("slice")

  /** Everything a sweep's identity is made of. */
  ghost predicate SameSweep(a: Sweep, b: Sweep) {
    && a.generatedAt == b.generatedAt && a.mode == b.mode && a.place == b.place && a.slice == b.slice
    && |a.records| == |b.records|
  }

  /** No bar in the first three fields, and in the slice none that is followed by `slice`. */
  predicate Unambiguous(s: Sweep) {
    && BAR !in s.generatedAt && BAR !in s.mode && BAR !in s.place
    && forall j :: 0 <= j < |s.slice| && s.slice[j] == BAR ==> !(SLICE <= s.slice[j + 1..])
  }

  lemma {:induction false} IdentityIs(s: Sweep)
    ensures Identity(s) == s.generatedAt + [BAR] + (s.mode + [BAR] + (s.place + [BAR] +
                             (SLICE + s.slice + [BAR] + Digits(|s.records|))))
  {
    hide Digits;
    var a, b, c, d, e := s.generatedAt, s.mode, s.place, SLICE + s.slice, Digits(|s.records|);
    JoinCons(a, [b, c, d, e], BAR);
    JoinCons(b, [c, d, e], BAR);
    JoinCons(c, [d, e], BAR);
    JoinCons(d, [e], BAR);
    assert [a] + [b, c, d, e] == [a, b, c, d, e] && [b] + [c, d, e] == [b, c, d, e];
    assert [c] + [d, e] == [c, d, e] && [d] + [e] == [d, e];
  }

  /** An identity spelled: the fields between bars, the word `slice` before the slice, and the count. */
  lemma {:induction false} IdentitySpelled(s: Sweep)
    ensures Identity(s) == s.generatedAt + Ascii("|") + (s.mode + Ascii("|") + (s.place + Ascii("|") +
                             (Ascii("slice") + s.slice + Ascii("|") + Digits(|s.records|))))
  {
    hide Digits;
    IdentityIs(s);
    assert Ascii("|") == [BAR];
  }

  lemma {:induction false} DigitsHoldNoBar(n: nat)
    ensures BAR !in Digits(n)
    ensures Split(Digits(n), BAR) == [Digits(n)]
  {
    var ds := Digits(n);
    assert forall i :: 0 <= i < |ds| ==> IsDigit(ds[i]);
    FindIs(ds, BAR, |ds|);
  }

  /** The parts of an identity, field by field. */
  lemma {:induction false} IdentityParts(s: Sweep)
    ensures Split(Identity(s), BAR) == Split(s.generatedAt, BAR) + (Split(s.mode, BAR) + (Split(s.place, BAR) +
                                         (Split(SLICE + s.slice, BAR) + [Digits(|s.records|)])))
  {
    hide Digits, Split;
    var d, e := SLICE + s.slice, Digits(|s.records|);
    IdentityIs(s);
    DigitsHoldNoBar(|s.records|);
    SplitConcat(d, e, BAR);
    SplitConcat(s.place, d + [BAR] + e, BAR);
    SplitConcat(s.mode, s.place + [BAR] + (d + [BAR] + e), BAR);
    SplitConcat(s.generatedAt, s.mode + [BAR] + (s.place + [BAR] + (d + [BAR] + e)), BAR);
  }

  lemma {:induction false} OnePart(s: seq<byte>)
    ensures |Split(s, BAR)| == 1 <==> BAR !in s
    ensures |Split(s, BAR)| == 1 ==> Split(s, BAR)[0] == s
  {
    var n := Find(s, BAR);
    assert BAR !in s <==> n == |s|;
  }

  lemma {:induction false} SliceFirst(slice: Id)
    ensures SLICE <= Split(SLICE + slice, BAR)[0]
  {
    hide Find;
    var t := SLICE + slice;
    assert SLICE == [115, 108, 105, 99, 101];
    assert forall i :: 0 <= i < 5 ==> t[i] == SLICE[i] != BAR;
    var n := Find(t, BAR);
    assert n >= 5 && t[..n][..5] == SLICE;
  }

  lemma {:induction false} SliceParts(s: Sweep)
    ensures SLICE <= Split(SLICE + s.slice, BAR)[0]
    ensures Unambiguous(s) ==>
              forall k :: 0 < k < |Split(SLICE + s.slice, BAR)| ==> !(SLICE <= Split(SLICE + s.slice, BAR)[k])
  {
    hide Split;
    var t := SLICE + s.slice;
    SliceFirst(s.slice);
    assert |SLICE| == 5;
    forall k | Unambiguous(s) && 0 < k < |Split(t, BAR)| ensures !(SLICE <= Split(t, BAR)[k]) {
      var j := PartPosition(t, BAR, k);
      assert forall i :: 0 <= i < 5 ==> SLICE[i] != BAR;
      assert t[j + 1..] == s.slice[j - 5 + 1..] && s.slice[j - 5] == BAR;
    }
  }

  /** Where the slice part stands is decided by the identity. */
  lemma {:induction false} OneReading(a: Sweep, b: Sweep)
    requires Unambiguous(a) && Identity(a) == Identity(b)
    ensures SameSweep(a, b)
  {
    hide Digits, Identity, Split;
    IdentityParts(a);
    IdentityParts(b);
    SliceParts(a);
    SliceParts(b);
    OnePart(a.generatedAt);
    OnePart(a.mode);
    OnePart(a.place);
    OnePart(b.generatedAt);
    OnePart(b.mode);
    OnePart(b.place);
    var all := Split(Identity(a), BAR);
    var front := |Split(b.generatedAt, BAR)| + |Split(b.mode, BAR)| + |Split(b.place, BAR)|;
    var mine := Split(SLICE + a.slice, BAR);
    assert all[|all| - 1] == Digits(|a.records|) == Digits(|b.records|);
    DigitsInjective(|a.records|, |b.records|);
    assert all[front] == Split(SLICE + b.slice, BAR)[0];
    forall k | 3 < k < |all| - 1 ensures !(SLICE <= all[k]) {
      assert all[k] == mine[k - 3];
    }
    assert front == 3;
    assert all[0] == a.generatedAt == b.generatedAt && all[1] == a.mode == b.mode && all[2] == a.place == b.place;
    SameSlice(a, b);
  }

  lemma {:induction false} SameSlice(a: Sweep, b: Sweep)
    requires Identity(a) == Identity(b) && |a.records| == |b.records|
    requires a.generatedAt == b.generatedAt && a.mode == b.mode && a.place == b.place
    ensures a.slice == b.slice
  {
    hide Digits;
    IdentityIs(a);
    IdentityIs(b);
    var front := a.generatedAt + [BAR] + a.mode + [BAR] + a.place + [BAR] + SLICE;
    var back := [BAR] + Digits(|a.records|);
    assert Identity(a) == front + a.slice + back && Identity(b) == front + b.slice + back;
    assert |a.slice| == |b.slice|;
    assert Identity(a)[|front|..|front| + |a.slice|] == a.slice;
    assert Identity(b)[|front|..|front| + |b.slice|] == b.slice;
  }

  /** A bar inside a field moves what is behind it into the next one. */
  lemma {:induction false} Recut(a: seq<byte>, b: seq<byte>, n: nat)
    requires n < |a| && a[n] == BAR
    ensures a + [BAR] + b == a[..n] + [BAR] + (a[n + 1..] + [BAR] + b)
  {
    CutAt(a, n);
  }

  lemma {:induction false} Regroup(a: seq<byte>, b: seq<byte>, c: seq<byte>)
    ensures a + [BAR] + (b + [BAR] + c) == a + [BAR] + b + [BAR] + c
  {
  }

  /** Another sweep with the identity of an ambiguous one: its fields cut at another bar. */
  lemma {:induction false} AnotherReading(s: Sweep) returns (t: Sweep)
    requires !Unambiguous(s)
    ensures Identity(t) == Identity(s) && !SameSweep(s, t)
  {
    hide Digits, Identity, SLICE;
    var g, m, p := s.generatedAt, s.mode, s.place;
    var rest := SLICE + s.slice + [BAR] + Digits(|s.records|);
    IdentityIs(s);
    if BAR in g {
      var n := Find(g, BAR);
      t := s.(generatedAt := g[..n], mode := g[n + 1..], place := m + [BAR] + p);
      Recut(g, m + [BAR] + (p + [BAR] + rest), n);
      Regroup(m, p, rest);
    } else if BAR in m {
      var n := Find(m, BAR);
      t := s.(mode := m[..n], place := m[n + 1..] + [BAR] + p);
      Recut(m, p + [BAR] + rest, n);
      Regroup(m[n + 1..], p, rest);
    } else if BAR in p {
      var n := Find(p, BAR);
      t := s.(generatedAt := g + [BAR] + m, mode := p[..n], place := p[n + 1..]);
      Recut(p, rest, n);
      Regroup(g, m, p + [BAR] + rest);
    } else {
      var j :| 0 <= j < |s.slice| && s.slice[j] == BAR && SLICE <= s.slice[j + 1..];
      t := AnotherSlice(s, j);
    }
    IdentityIs(t);
  }

  lemma {:induction false} AnotherSlice(s: Sweep, j: nat) returns (t: Sweep)
    requires j < |s.slice| && s.slice[j] == BAR && SLICE <= s.slice[j + 1..]
    ensures Identity(t) == Identity(s) && t.place != s.place
  {
    hide Digits, Identity;
    var u, w, back := s.slice[..j], s.slice[j + 6..], [BAR] + Digits(|s.records|);
    CutAt(s.slice, j);
    assert s.slice[j + 1..] == SLICE + w;
    t := s.(place := s.place + [BAR] + (SLICE + u), slice := w);
    assert SLICE + s.slice == SLICE + u + [BAR] + (SLICE + w);
    IdentityIs(s);
    IdentityIs(t);
    Regroup(s.place, SLICE + u, SLICE + w + back);
    assert SLICE + s.slice + [BAR] + Digits(|s.records|) == SLICE + u + [BAR] + (SLICE + w + back);
    assert SLICE + w + back == SLICE + w + [BAR] + Digits(|s.records|);
    assert |t.place| > |s.place|;
  }

  /**
   * An identity means one clock, mode, target, slice and number of records exactly when no bar
   * stands in the first three fields, and none in the slice in front of the word `slice`.
   */
  lemma {:induction false} IdentityNamesSweep(s: Sweep)
    ensures (forall t: Sweep :: Identity(t) == Identity(s) ==> SameSweep(s, t)) <==> Unambiguous(s)
  {
    hide Identity, Unambiguous, SameSweep;
    if Unambiguous(s) {
      forall t: Sweep | Identity(t) == Identity(s) ensures SameSweep(s, t) {
        OneReading(s, t);
      }
    } else {
      var t := AnotherReading(s);
    }
  }

  // ---- one invocation --------------------------------------------------------------------------------

  /** A path on the command line and what reading it gave; `None` when it cannot be read. */
  datatype Arg = Arg(path: seq<int>, doc: Option<Sweep>)

  predicate PathLess(a: Arg, b: Arg) { LexLess(a.path, b.path) }

  /** The history, and the identities the file remembers. */
  datatype State<H> = State(history: H, applied: seq<Id>)

  /** What the loop has after some arguments: `folded` are the identities given to `apply_sweep`. */
  datatype Progress<H> = Progress(history: H, applied: seq<Id>, folded: seq<Id>)

  /** One turn of the loop; `already` is what the file remembered when the run began. */
  function Turn<H>(p: Progress<H>, s: Sweep, already: seq<Id>, apply: (H, seq<Record>) -> H): Progress<H> {
    var id := Identity(s);
    if id in already then p
    else if s.records == [] then Progress(p.history, p.applied + [id], p.folded)
    else Progress(apply(p.history, s.records), p.applied + [id], p.folded + [id])
  }

  /** The loop over the arguments in path order: `None` as soon as one cannot be read. */
  function Fold<H>(args: seq<Arg>, start: State<H>, apply: (H, seq<Record>) -> H): Option<Progress<H>> {
    if args == [] then Some(Progress(start.history, start.applied, []))
    else
      var n := |args| - 1;
      match Fold(args[..n], start, apply)
      case None => None
      case Some(p) =>
        if args[n].doc.None? then None else Some(Turn(p, args[n].doc.value, start.applied, apply))
  }

  predicate IdLess(a: Id, b: Id) { LexLess(a, b) }

  lemma {:induction false} IdsAreOrdered()
    ensures StrictTotal(IdLess)
  {
    hide LexLess;
    LexIsTotal();
  }

  /** `sorted(set(applied))[-APPLIED_RUNS_KEPT:]`. */
  function Kept(applied: seq<Id>): seq<Id> {
    var all := Sort(Unique(applied), IdLess);
    if |all| <= APPLIED_RUNS_KEPT then all else all[|all| - APPLIED_RUNS_KEPT..]
  }

  function Unique(s: seq<Id>): (r: seq<Id>)
    ensures forall x :: x in r <==> x in s
    ensures forall i, j :: 0 <= i < j < |r| ==> r[i] != r[j]
  {
    if s == [] then []
    else
      var n := |s| - 1;
      assert s == s[..n] + [s[n]];
      if s[n] in s[..n] then Unique(s[..n]) else Unique(s[..n]) + [s[n]]
  }

  /** An invocation: its exit code and the state file it leaves. */
  function Invoke<H>(args: seq<Arg>, before: State<H>, dryRun: bool, apply: (H, seq<Record>) -> H): (int, State<H>) {
    match Fold(Sort(args, PathLess), before, apply)
    case None => (2, before)
    case Some(p) => (0, if dryRun then before else State(p.history, Kept(p.applied)))
  }

  /** What an invocation gives to `apply_sweep`, in order; nothing counts unless it is written. */
  function FoldedBy<H>(args: seq<Arg>, before: State<H>, dryRun: bool, apply: (H, seq<Record>) -> H): seq<Id> {
    match Fold(Sort(args, PathLess), before, apply)
    case None => []
    case Some(p) => if dryRun then [] else p.folded
  }

  /** A dry run leaves the file alone, and so does one that cannot read a sweep; it says so with 2. */
  lemma {:induction false} DryRunWritesNothing<H>(args: seq<Arg>, before: State<H>, apply: (H, seq<Record>) -> H)
    ensures Invoke(args, before, true, apply).1 == before && FoldedBy(args, before, true, apply) == []
    ensures Invoke(args, before, true, apply).0 == Invoke(args, before, false, apply).0
  {
  }

  class StateFile<H> {
    var history: H
    var applied: seq<Id>
    /** Every identity folded into the history on disk, in order. */
    ghost var log: seq<Id>

    constructor (history: H)
      ensures this.history == history && applied == [] && log == []
    {
      this.history := history;
      applied, log := [], [];
    }

    function Contents(): State<H>
      reads this
    {
      State(history, applied)
    }

    /** `main`, from the fold loop on. */
    method Update(args: seq<Arg>, dryRun: bool, apply: (H, seq<Record>) -> H) returns (code: int)
      modifies this
      ensures (code, Contents()) == Invoke(args, old(Contents()), dryRun, apply)
      ensures log == old(log) + FoldedBy(args, old(Contents()), dryRun, apply)
    {
      hide Sort, Kept;
      var ordered := Sort(args, PathLess);
      ghost var start := Contents();
      var p := Progress(history, applied, []);
      for i := 0 to |ordered|
        invariant Fold(ordered[..i], start, apply) == Some(p)
        invariant Contents() == start && log == old(log)
      {
        assert ordered[..i + 1][..i] == ordered[..i];
        if ordered[i].doc.None? {
          FoldStops(ordered, i + 1, start, apply);
          assert log + [] == log;
          return 2;
        }
        p := Turn(p, ordered[i].doc.value, applied, apply);
      }
      assert ordered[..|ordered|] == ordered;
      if dryRun {
        assert log + [] == log;
        return 0;
      }
      history, applied := p.history, Kept(p.applied);
      log := log + p.folded;
      return 0;
    }
  }

  lemma {:induction false} FoldStops<H>(args: seq<Arg>, m: nat, start: State<H>, apply: (H, seq<Record>) -> H)
    requires m <= |args| && Fold(args[..m], start, apply) == None
    ensures Fold(args, start, apply) == None
    decreases |args|
  {
    if m == |args| {
      assert args[..m] == args;
    } else {
      var n := |args| - 1;
      assert args[..n][..m] == args[..m];
      FoldStops(args[..n], m, start, apply);
    }
  }
}
