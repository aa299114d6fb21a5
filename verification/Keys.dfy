/** Text in Python's order, and the keys of a dictionary in that order. */
module Keys {
  import opened Order

  function Codes(s: string): (r: seq<int>)
    ensures |r| == |s|
  {
    seq(|s|, i requires 0 <= i < |s| => s[i] as int)
  }

  /** Python's order on text. */
  predicate KeyLess(a: string, b: string) { LexLess(Codes(a), Codes(b)) }

  lemma {:induction false} KeysAreOrdered()
    ensures StrictTotal(KeyLess)
  {
    hide LexLess, Codes;
    LexIsTotal();
    forall a: string, b: string ensures a == b || KeyLess(a, b) || KeyLess(b, a) {
      if Codes(a) == Codes(b) {
        SameCodes(a, b);
      }
    }
  }

  lemma {:induction false} SameCodes(a: string, b: string)
    requires Codes(a) == Codes(b)
    ensures a == b
  {
    forall i | 0 <= i < |a| ensures a[i] == b[i] {
      assert Codes(a)[i] == Codes(b)[i];
    }
  }

  lemma {:induction false} HasLeast(s: set<string>)
    requires s != {}
    ensures exists k :: k in s && forall j :: j in s ==> !KeyLess(j, k)
  {
    hide KeyLess;
    KeysAreOrdered();
    var x :| x in s;
    var rest := s - {x};
    if rest == {} {
      assert s == {x};
    } else {
      HasLeast(rest);
      var m :| m in rest && forall j :: j in rest ==> !KeyLess(j, m);
      var k := if KeyLess(x, m) then x else m;
      forall j | j in s ensures !KeyLess(j, k) {
        assert j == x || j in rest;
      }
    }
  }

  /** `sorted(keys)`. */
  function SortedKeys(keys: set<string>): (r: seq<string>)
    ensures forall k :: k in r <==> k in keys
    ensures forall i, j :: 0 <= i < j < |r| ==> r[i] != r[j]
    decreases |keys|
  {
    if keys == {} then []
    else
      assert (exists k :: k in keys && forall j :: j in keys ==> !KeyLess(j, k))
          && (forall a, b :: a in keys && b in keys && !KeyLess(a, b) && !KeyLess(b, a) ==> a == b)
        by { hide KeyLess; HasLeast(keys); KeysAreOrdered(); }
      var k :| k in keys && forall j :: j in keys ==> !KeyLess(j, k);
      [k] + SortedKeys(keys - {k})
  }

  lemma {:induction false} SortedKeysAscend(keys: set<string>)
    ensures StrictlyAscending(SortedKeys(keys), KeyLess)
    decreases |keys|
  {
    hide KeyLess;
    KeysAreOrdered();
    if keys != {} {
      var r := SortedKeys(keys);
      SortedKeysAscend(keys - {r[0]});
      assert r[1..] == SortedKeys(keys - {r[0]});
      forall i, j | 0 <= i < j < |r| ensures KeyLess(r[i], r[j]) {
        assert r[j] == r[1..][j - 1] && r[j] in keys;
        if i > 0 {
          assert r[i] == r[1..][i - 1];
        }
      }
    }
  }
}
