/**
 * Pooling a series of rotations (`experiments/26-user-agent-block-rate.py`, `aggregate_series`):
 * the paired half, which compares the arms a subject was seen under.
 */
module Series {
  import opened Collections
  import opened Keys

  /** What one subject answered under each arm it was seen under: whether as a tracker does. */
  type Arms = map<string, bool>

  type Subjects = map<string, Arms>

  /** One comparison of two arms, over the subjects seen under both. */
  datatype Cell = Cell(both: nat, neither: nat, onlyFirst: nat, onlySecond: nat)

  const EMPTY := Cell(0, 0, 0, 0)

  type Cells = map<(string, string), Cell>

  function Add(c: Cell, first: bool, second: bool): Cell {
    if first && second then c.(both := c.both + 1)
    else if first then c.(onlyFirst := c.onlyFirst + 1)
    else if second then c.(onlySecond := c.onlySecond + 1)
    else c.(neither := c.neither + 1)
  }

  function Get(cells: Cells, a: string, b: string): Cell {
    if (a, b) in cells then cells[(a, b)] else EMPTY
  }

  /** One arm of a subject against others of its arms. */
  function AddRow(cells: Cells, arms: Arms, a: string, bs: seq<string>): Cells
    requires a in arms && forall b :: b in bs ==> b in arms
  {
    if bs == [] then cells
    else
      var n := |bs| - 1;
      assert bs == bs[..n] + [bs[n]];
      var out := AddRow(cells, arms, a, bs[..n]);
      if KeyLess(a, bs[n]) then out[(a, bs[n]) := Add(Get(out, a, bs[n]), arms[a], arms[bs[n]])] else out
  }

  function AddRows(cells: Cells, arms: Arms, firsts: seq<string>, bs: seq<string>): Cells
    requires (forall a :: a in firsts ==> a in arms) && (forall b :: b in bs ==> b in arms)
  {
    if firsts == [] then cells
    else
      var n := |firsts| - 1;
      assert firsts == firsts[..n] + [firsts[n]];
      AddRow(AddRows(cells, arms, firsts[..n], bs), arms, firsts[n], bs)
  }

  function AddSubject(cells: Cells, arms: Arms): Cells {
    AddRows(cells, arms, SortedKeys(arms.Keys), SortedKeys(arms.Keys))
  }

  /** The innermost loop. */
  method CountRow(cells: Cells, arms: Arms, a: string, bs: seq<string>) returns (out: Cells)
    requires a in arms && forall b :: b in bs ==> b in arms
    ensures out == AddRow(cells, arms, a, bs)
  {
    hide KeyLess, Add, Get;
    out := cells;
    for j := 0 to |bs|
      invariant out == AddRow(cells, arms, a, bs[..j])
    {
      assert bs[..j + 1][..j] == bs[..j];
      if !KeyLess(a, bs[j]) {
        continue;
      }
      out := out[(a, bs[j]) := Add(Get(out, a, bs[j]), arms[a], arms[bs[j]])];
    }
    assert bs[..|bs|] == bs;
  }

  /** The two inner loops: every pair of one subject's arms. */
  method CountPairs(cells: Cells, arms: Arms) returns (out: Cells)
    ensures out == AddSubject(cells, arms)
  {
    hide KeyLess, SortedKeys, Add, Get, AddRow;
    out := cells;
    var keys := SortedKeys(arms.Keys);
    for i := 0 to |keys|
      invariant out == AddRows(cells, arms, keys[..i], keys)
    {
      assert keys[..i + 1][..i] == keys[..i];
      out := CountRow(out, arms, keys[i], keys);
    }
    assert keys[..|keys|] == keys;
  }

  lemma {:induction false} RowAt(cells: Cells, arms: Arms, a: string, bs: seq<string>, c: string, b: string)
    requires a in arms && (forall x :: x in bs ==> x in arms) && NoRepeats(bs)
    ensures var (out, hit) := (AddRow(cells, arms, a, bs), c == a && b in bs && KeyLess(a, b));
            && Get(out, c, b) == (if hit then Add(Get(cells, c, b), arms[a], arms[b]) else Get(cells, c, b))
            && ((c, b) in out <==> (c, b) in cells || hit)
  {
    if bs != [] {
      hide KeyLess, Add;
      var n := |bs| - 1;
      assert bs == bs[..n] + [bs[n]];
      RowAt(cells, arms, a, bs[..n], c, b);
    }
  }

  lemma {:induction false} RowsAt(cells: Cells, arms: Arms, firsts: seq<string>, bs: seq<string>, c: string, b: string)
    requires (forall x :: x in firsts ==> x in arms) && (forall x :: x in bs ==> x in arms)
    requires NoRepeats(firsts) && NoRepeats(bs)
    ensures var (out, hit) := (AddRows(cells, arms, firsts, bs), c in firsts && b in bs && KeyLess(c, b));
            && Get(out, c, b) == (if hit then Add(Get(cells, c, b), arms[c], arms[b]) else Get(cells, c, b))
            && ((c, b) in out <==> (c, b) in cells || hit)
  {
    if firsts != [] {
      hide KeyLess, Add, Get, AddRow;
      var n := |firsts| - 1;
      assert firsts == firsts[..n] + [firsts[n]];
      RowsAt(cells, arms, firsts[..n], bs, c, b);
      RowAt(AddRows(cells, arms, firsts[..n], bs), arms, firsts[n], bs, c, b);
    }
  }

  predicate IsPair(arms: Arms, a: string, b: string) {
    a in arms && b in arms && KeyLess(a, b)
  }

  /** One subject: each pair of its arms is counted once, and nothing else changes. */
  lemma {:induction false} SubjectAt(cells: Cells, arms: Arms, a: string, b: string)
    ensures var out := AddSubject(cells, arms);
            && Get(out, a, b)
                 == (if IsPair(arms, a, b) then Add(Get(cells, a, b), arms[a], arms[b]) else Get(cells, a, b))
            && ((a, b) in out <==> (a, b) in cells || IsPair(arms, a, b))
  {
    hide KeyLess, Add, Get, AddRows, SortedKeys;
    RowsAt(cells, arms, SortedKeys(arms.Keys), SortedKeys(arms.Keys), a, b);
  }

  // ---- what a cell counts -------------------------------------------------------------------------

  /** The subjects, among some, seen under both arms. */
  function Together(seen: Subjects, urls: set<string>, a: string, b: string): set<string> {
    set u | u in urls && u in seen && a in seen[u] && b in seen[u]
  }

  function Answering(seen: Subjects, urls: set<string>, a: string, b: string, first: bool, second: bool): set<string> {
    set u | u in Together(seen, urls, a, b) && seen[u][a] == first && seen[u][b] == second
  }

  function CellOf(seen: Subjects, urls: set<string>, a: string, b: string): Cell {
    Cell(|Answering(seen, urls, a, b, true, true)|, |Answering(seen, urls, a, b, false, false)|,
         |Answering(seen, urls, a, b, true, false)|, |Answering(seen, urls, a, b, false, true)|)
  }

  lemma {:induction false} AnsweringNext(seen: Subjects, urls: set<string>, u: string, a: string, b: string,
                                         first: bool, second: bool)
    requires u in seen && u !in urls
    ensures |Answering(seen, urls + {u}, a, b, first, second)| == |Answering(seen, urls, a, b, first, second)|
              + (if a in seen[u] && b in seen[u] && seen[u][a] == first && seen[u][b] == second then 1 else 0)
  {
    var now, was := Answering(seen, urls + {u}, a, b, first, second), Answering(seen, urls, a, b, first, second);
    if a in seen[u] && b in seen[u] && seen[u][a] == first && seen[u][b] == second {
      assert now == was + {u};
    } else {
      assert now == was;
    }
  }

  lemma {:induction false} CellNext(seen: Subjects, urls: set<string>, u: string, a: string, b: string)
    requires u in seen && u !in urls
    ensures CellOf(seen, urls + {u}, a, b) ==
              if a in seen[u] && b in seen[u] then Add(CellOf(seen, urls, a, b), seen[u][a], seen[u][b])
              else CellOf(seen, urls, a, b)
    ensures Together(seen, urls + {u}, a, b) != {} <==>
              Together(seen, urls, a, b) != {} || (a in seen[u] && b in seen[u])
  {
    hide Answering;
    AnsweringNext(seen, urls, u, a, b, true, true);
    AnsweringNext(seen, urls, u, a, b, true, false);
    AnsweringNext(seen, urls, u, a, b, false, true);
    AnsweringNext(seen, urls, u, a, b, false, false);
    assert Together(seen, urls + {u}, a, b)
        == Together(seen, urls, a, b) + (if a in seen[u] && b in seen[u] then {u} else {});
  }

  lemma {:induction false} CellEmpty(seen: Subjects, a: string, b: string)
    ensures CellOf(seen, {}, a, b) == EMPTY && Together(seen, {}, a, b) == {}
  {
    assert Together(seen, {}, a, b) == {};
    assert forall p, q :: Answering(seen, {}, a, b, p, q) == {};
  }

  /** A cell is there exactly when some subject so far was seen under both arms, and counts those. */
  ghost predicate CellRight(cells: Cells, seen: Subjects, done: set<string>, a: string, b: string) {
    && ((a, b) in cells <==> KeyLess(a, b) && Together(seen, done, a, b) != {})
    && (KeyLess(a, b) ==> Get(cells, a, b) == CellOf(seen, done, a, b))
  }

  lemma {:induction false} SubjectRight(cells: Cells, seen: Subjects, done: set<string>, u: string, a: string,
                                        b: string)
    requires u in seen && u !in done && CellRight(cells, seen, done, a, b)
    ensures CellRight(AddSubject(cells, seen[u]), seen, done + {u}, a, b)
  {
    hide KeyLess, Add, CellOf, Together, AddSubject, Get;
    SubjectAt(cells, seen[u], a, b);
    CellNext(seen, done, u, a, b);
  }

  /** A subject seen under fewer than two arms is in no comparison, so passing it over changes nothing. */
  lemma {:induction false} OneArmNoPair(cells: Cells, seen: Subjects, done: set<string>, u: string, a: string,
                                        b: string)
    requires u in seen && u !in done && |seen[u]| <= 1 && CellRight(cells, seen, done, a, b)
    ensures CellRight(cells, seen, done + {u}, a, b)
  {
    hide KeyLess, Add, CellOf, Together, Get;
    CellNext(seen, done, u, a, b);
    var keys := seen[u].Keys;
    if KeyLess(a, b) {
      assert a != b by { KeysAreOrdered(); }
      SubsetSize({a, b} * keys, keys);
      assert a in keys && b in keys ==> {a, b} * keys == {a, b};
    }
  }

  /** The loop over the subjects. */
  method Paired(seen: Subjects) returns (cells: Cells)
    ensures forall a, b :: CellRight(cells, seen, seen.Keys, a, b)
  {
    hide KeyLess, CellOf, Together, CellRight, AddSubject;
    cells := map[];
    var left := seen.Keys;
    ghost var done: set<string> := {};
    forall a, b ensures CellRight(cells, seen, {}, a, b) {
      StartRight(seen, a, b);
    }
    while left != {}
      invariant done + left == seen.Keys && done !! left
      invariant forall a, b :: CellRight(cells, seen, done, a, b)
      decreases |left|
    {
      var u :| u in left;
      ghost var before := cells;
      if |seen[u]| > 1 {
        cells := CountPairs(cells, seen[u]);
        forall a, b ensures CellRight(cells, seen, done + {u}, a, b) {
          SubjectRight(before, seen, done, u, a, b);
        }
      } else {
        forall a, b ensures CellRight(cells, seen, done + {u}, a, b) {
          OneArmNoPair(cells, seen, done, u, a, b);
        }
      }
      left, done := left - {u}, done + {u};
    }
    assert done == seen.Keys;
  }

  lemma {:induction false} StartRight(seen: Subjects, a: string, b: string)
    ensures CellRight(map[], seen, {}, a, b)
  {
    hide KeyLess;
    CellEmpty(seen, a, b);
  }

  /** Every subject seen under both arms is counted in exactly one of the four ways. */
  lemma {:induction false} CellCountsEveryone(seen: Subjects, urls: set<string>, a: string, b: string)
    ensures var c := CellOf(seen, urls, a, b);
            c.both + c.neither + c.onlyFirst + c.onlySecond == |Together(seen, urls, a, b)|
  {
    var tt, ff := Answering(seen, urls, a, b, true, true), Answering(seen, urls, a, b, false, false);
    var tf, ft := Answering(seen, urls, a, b, true, false), Answering(seen, urls, a, b, false, true);
    assert Together(seen, urls, a, b) == tt + ff + tf + ft;
    assert tt !! ff && (tt + ff) !! tf && (tt + ff + tf) !! ft;
  }
}
