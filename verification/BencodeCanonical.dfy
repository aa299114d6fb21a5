/**
 * The hand-written bencode encoder of `experiments/23-client-list-compatibility.py` set
 * against the decoder: the round trip, and exactly which accepted bytes are canonical.
 */
module BencodeCanonical {
  import opened Bytes
  import opened Text
  import opened Order
  import opened Bencode

  /** `_bstr`. */
  function BStr(bs: seq<byte>): seq<byte> { Digits(|bs|) + ([COLON] + bs) }

  /** `str(n).encode()` for a number of either sign. */
  function IntText(n: int): seq<byte> {
    if n < 0 then [MINUS] + Digits(-n) else Digits(n)
  }

  function Encode(v: Bencode.Value): seq<byte> {
    match v
    case Int(n) => [INT] + (IntText(n) + [END])
    case Str(bs) => BStr(bs)
    case List(items) => [LIST] + EncodeItems(items)
    case Dict(entries) => [DICT] + EncodeEntries(entries)
  }

  /** The items, and the byte that ends them. */
  function EncodeItems(vs: seq<Bencode.Value>): seq<byte> {
    if vs == [] then [END] else Encode(vs[0]) + EncodeItems(vs[1..])
  }

  /** The entries, and the byte that ends them. */
  function EncodeEntries(es: seq<Entry>): seq<byte> {
    if es == [] then [END] else BStr(es[0].key) + (Encode(es[0].val) + EncodeEntries(es[1..]))
  }

  // ---- what decoded values look like ----------------------------------------

  ghost predicate KeysDiffer(es: seq<Entry>) {
    forall i, j :: 0 <= i < j < |es| ==> es[i].key != es[j].key
  }

  /** No dictionary at any depth repeats a key: what a Python dict cannot do. */
  ghost predicate UniqueKeys(v: Bencode.Value) {
    match v
    case Int(_) => true
    case Str(_) => true
    case List(items) => forall x :: x in items ==> UniqueKeys(x)
    case Dict(entries) => KeysDiffer(entries) && forall e :: e in entries ==> UniqueKeys(e.val)
  }

  predicate KeyLess(a: Entry, b: Entry) { LexLess(a.key, b.key) }

  /** BEP 3's canonical form: every dictionary lists its keys in strictly ascending order. */
  ghost predicate SortedKeys(v: Bencode.Value) {
    match v
    case Int(_) => true
    case Str(_) => true
    case List(items) => forall x :: x in items ==> SortedKeys(x)
    case Dict(entries) =>
      StrictlyAscending(entries, KeyLess) && forall e :: e in entries ==> SortedKeys(e.val)
  }

  // ---- an encoding standing in a buffer ---------------------------------------

  function LenStr(bs: seq<byte>): (n: nat)
    ensures n > 0
  {
    |Digits(|bs|)| + 1 + |bs|
  }

  /** `|Encode(v)|`, without building the bytes. */
  function Len(v: Bencode.Value): (n: nat)
    ensures n > 0
    decreases v, 1
  {
    match v
    case Int(n) => |IntText(n)| + 2
    case Str(bs) => LenStr(bs)
    case List(items) => LenItems(items) + 1
    case Dict(entries) => LenEntries(entries) + 1
  }

  function LenItems(vs: seq<Bencode.Value>): (n: nat)
    ensures n > 0
    decreases vs, 0
  {
    if vs == [] then 1 else Len(vs[0]) + LenItems(vs[1..])
  }

  function LenEntries(es: seq<Entry>): (n: nat)
    ensures n > 0
    decreases es, 0
  {
    if es == [] then 1 else LenStr(es[0].key) + Len(es[0].val) + LenEntries(es[1..])
  }

  ghost predicate HoldsInt(d: seq<byte>, i: nat, n: int) {
    var j := i + 1 + |IntText(n)|;
    j < |d| && d[i] == INT && At(d, i + 1, IntText(n)) && d[j] == END
  }

  ghost predicate HoldsStr(d: seq<byte>, i: nat, bs: seq<byte>) {
    var j := i + |Digits(|bs|)|;
    j < |d| && At(d, i, Digits(|bs|)) && d[j] == COLON && At(d, j + 1, bs)
  }

  /** The buffer holds the encoding of `v` at `i`, said part by part. */
  ghost predicate Holds(d: seq<byte>, i: nat, v: Bencode.Value)
    decreases v, 1
  {
    match v
    case Int(n) => HoldsInt(d, i, n)
    case Str(bs) => HoldsStr(d, i, bs)
    case List(items) => i < |d| && d[i] == LIST && HoldsItems(d, i + 1, items)
    case Dict(entries) => i < |d| && d[i] == DICT && HoldsEntries(d, i + 1, entries)
  }

  /** The items and the byte that ends them. */
  ghost predicate HoldsItems(d: seq<byte>, i: nat, vs: seq<Bencode.Value>)
    decreases vs, 0
  {
    if vs == [] then i < |d| && d[i] == END
    else Holds(d, i, vs[0]) && HoldsItems(d, i + Len(vs[0]), vs[1..])
  }

  /** The entries and the byte that ends them. */
  ghost predicate HoldsEntries(d: seq<byte>, i: nat, es: seq<Entry>)
    decreases es, 0
  {
    if es == [] then i < |d| && d[i] == END
    else
      && HoldsStr(d, i, es[0].key)
      && Holds(d, i + LenStr(es[0].key), es[0].val)
      && HoldsEntries(d, i + LenStr(es[0].key) + Len(es[0].val), es[1..])
  }

  lemma {:induction false} IntHolds(d: seq<byte>, i: nat, n: int)
    ensures |Encode(Int(n))| == Len(Int(n))
    ensures At(d, i, Encode(Int(n))) <==> HoldsInt(d, i, n)
  {
    var t := IntText(n);
    AtParts3(d, i, [INT], t, [END]);
    AtOne(d, i, INT);
    AtOne(d, i + 1 + |t|, END);
  }

  lemma {:induction false} StrHolds(d: seq<byte>, i: nat, bs: seq<byte>)
    ensures |BStr(bs)| == LenStr(bs)
    ensures At(d, i, BStr(bs)) <==> HoldsStr(d, i, bs)
  {
    var ds := Digits(|bs|);
    AtParts3(d, i, ds, [COLON], bs);
    AtOne(d, i + |ds|, COLON);
  }

  /** `Holds` says what it should: the bytes of `Encode(v)` stand at `i`. */
  lemma {:induction false} HoldsIsAt(d: seq<byte>, i: nat, v: Bencode.Value)
    ensures |Encode(v)| == Len(v)
    ensures At(d, i, Encode(v)) <==> Holds(d, i, v)
    decreases v, 1
  {
    hide Digits, IntText, BStr, At, HoldsInt, HoldsStr;
    match v {
      case Int(n) => IntHolds(d, i, n);
      case Str(bs) => StrHolds(d, i, bs);
      case List(items) =>
        ItemsHold(d, i + 1, items);
        AtParts(d, i, [LIST], EncodeItems(items));
        AtOne(d, i, LIST);
      case Dict(entries) =>
        EntriesHold(d, i + 1, entries);
        AtParts(d, i, [DICT], EncodeEntries(entries));
        AtOne(d, i, DICT);
    }
  }

  lemma {:induction false} ItemsHold(d: seq<byte>, i: nat, vs: seq<Bencode.Value>)
    ensures |EncodeItems(vs)| == LenItems(vs)
    ensures At(d, i, EncodeItems(vs)) <==> HoldsItems(d, i, vs)
    decreases vs, 0
  {
    hide Digits, IntText, BStr, At, HoldsInt, HoldsStr;
    if vs == [] {
      AtOne(d, i, END);
    } else {
      HoldsIsAt(d, i, vs[0]);
      ItemsHold(d, i + Len(vs[0]), vs[1..]);
      AtParts(d, i, Encode(vs[0]), EncodeItems(vs[1..]));
    }
  }

  lemma {:induction false} EntriesHold(d: seq<byte>, i: nat, es: seq<Entry>)
    ensures |EncodeEntries(es)| == LenEntries(es)
    ensures At(d, i, EncodeEntries(es)) <==> HoldsEntries(d, i, es)
    decreases es, 0
  {
    hide Digits, IntText, BStr, At, HoldsInt, HoldsStr;
    if es == [] {
      AtOne(d, i, END);
    } else {
      var j := i + LenStr(es[0].key);
      StrHolds(d, i, es[0].key);
      HoldsIsAt(d, j, es[0].val);
      EntriesHold(d, j + Len(es[0].val), es[1..]);
      AtParts3(d, i, BStr(es[0].key), Encode(es[0].val), EncodeEntries(es[1..]));
    }
  }

  // ---- round trip -----------------------------------------------------------

  lemma {:induction false} IntRoundTrip(n: int)
    ensures Integer(IntText(n)) == Number(n)
    ensures END !in IntText(n)
  {
    var ds := Digits(if n < 0 then -n else n);
    ValueDigits(if n < 0 then -n else n);
    assert ([MINUS] + ds)[1..] == ds;
  }

  lemma {:induction false} DecodesInt(d: seq<byte>, i: nat, n: int)
    requires HoldsInt(d, i, n)
    ensures i < |d| && d[i] == INT
    ensures DecInt(d, i) == Ok(Int(n), i + Len(Int(n)))
  {
    hide Integer, IntText;
    var j := i + 1 + |IntText(n)|;
    IntRoundTrip(n);
    AtSlice(d, i + 1, j, IntText(n));
    forall k | i <= k < j ensures d[k] != END {
      if k > i {
        assert d[k] == d[i + 1..j][k - i - 1];
      }
    }
    FindFromFirst(d, i, j, END);
  }

  lemma {:induction false} DigitsAreGrouped(raw: seq<byte>)
    requires raw != [] && AllDigits(raw)
    ensures GroupedDigits(raw)
  {
    if |raw| > 1 {
      DigitsAreGrouped(raw[1..]);
    }
  }

  lemma {:induction false} DigitsUntrimmed(raw: seq<byte>)
    requires raw != [] && AllDigits(raw)
    ensures GroupedDigits(raw) && TrimRight(raw) == raw
  {
    DigitsAreGrouped(raw);
  }

  /** A length prefix of digits alone is accepted exactly in its canonical spelling. */
  lemma {:induction false} PlainLength(raw: seq<byte>)
    requires raw != [] && AllDigits(raw)
    ensures Length(raw).Number? <==> Canonical(raw)
    ensures Length(raw).Number? ==> Digits(Length(raw).n) == raw
  {
    DigitsUntrimmed(raw);
    if Canonical(raw) {
      DigitsValue(raw);
    }
  }

  lemma {:induction false} LengthOf(n: nat)
    ensures Length(Digits(n)) == Number(n)
  {
    DigitsUntrimmed(Digits(n));
    ValueDigits(n);
  }

  lemma {:induction false} ColonAfter(d: seq<byte>, i: nat, j: nat)
    requires i < j < |d| && AllDigits(d[i..j]) && d[j] == COLON
    ensures IsDigit(d[i]) && FindFrom(d, i, COLON) == j
  {
    forall k | i <= k < j ensures IsDigit(d[k]) {
      assert d[k] == d[i..j][k - i];
    }
    FindFromFirst(d, i, j, COLON);
  }

  lemma {:induction false} DecodesStr(d: seq<byte>, i: nat, bs: seq<byte>)
    requires HoldsStr(d, i, bs)
    ensures i < |d| && IsDigit(d[i]) && DecStr(d, i) == Ok(Str(bs), i + LenStr(bs))
    ensures AllDigits(d[i..FindFrom(d, i, COLON)])
  {
    var j := i + |Digits(|bs|)|;
    LengthOf(|bs|);
    AtSlice(d, i, j, Digits(|bs|));
    ColonAfter(d, i, j);
    AtSlice(d, j + 1, j + 1 + |bs|, bs);
  }

  lemma {:induction false} DecIsStr(d: seq<byte>, i: nat)
    requires i < |d| && IsDigit(d[i])
    ensures Dec(d, i) == DecStr(d, i)
  {
    hide DecInt, DecStr;
  }

  lemma {:induction false} DecIsInt(d: seq<byte>, i: nat)
    requires i < |d| && d[i] == INT
    ensures Dec(d, i) == DecInt(d, i)
  {
    hide DecInt, DecStr;
  }

  lemma {:induction false} DecIsList(d: seq<byte>, i: nat, vs: seq<Bencode.Value>, n: nat)
    requires i < |d| && d[i] == LIST && DecItems(d, i + 1, []) == Ok([] + vs, n)
    ensures Dec(d, i) == Ok(List(vs), n)
  {
    hide DecInt, DecStr;
    assert [] + vs == vs;
  }

  lemma {:induction false} DecIsDict(d: seq<byte>, i: nat, es: seq<Entry>, n: nat)
    requires i < |d| && d[i] == DICT && DecEntries(d, i + 1, []) == Ok([] + es, n)
    ensures Dec(d, i) == Ok(Dict(es), n)
  {
    hide DecInt, DecStr;
    assert [] + es == es;
  }

  lemma {:induction false} DecItemsStep(d: seq<byte>, i: nat, n: nat, out: seq<Bencode.Value>, v: Bencode.Value)
    requires i < |d| && d[i] != END && Dec(d, i) == Ok(v, n)
    ensures DecItems(d, i, out) == DecItems(d, n, out + [v])
  {
    hide DecInt, DecStr;
  }

  lemma {:induction false} DecEntriesStep(d: seq<byte>, i: nat, j: nat, n: nat, out: seq<Entry>, e: Entry)
    requires i < |d| && d[i] != END && Dec(d, i) == Ok(Str(e.key), j) && Dec(d, j) == Ok(e.val, n)
    ensures DecEntries(d, i, out) == DecEntries(d, n, Put(out, e.key, e.val))
  {
    hide DecInt, DecStr;
  }

  /** No encoding begins with the byte that ends a list. */
  lemma {:induction false} HoldsStart(d: seq<byte>, i: nat, v: Bencode.Value)
    requires Holds(d, i, v)
    ensures i < |d| && d[i] != END
  {
    if v.Str? {
      DecodesStr(d, i, v.bytes);
    }
  }

  lemma {:induction false} LeafRoundTrip(d: seq<byte>, i: nat, v: Bencode.Value)
    requires Holds(d, i, v) && (v.Int? || v.Str?)
    ensures Dec(d, i) == Ok(v, i + Len(v))
  {
    hide Digits, IntText, DecInt, DecStr, At;
    if v.Int? {
      DecodesInt(d, i, v.i);
      DecIsInt(d, i);
    } else {
      DecodesStr(d, i, v.bytes);
      DecIsStr(d, i);
    }
  }

  /** What it means for a value to stand somewhere, one level deep. */
  lemma {:induction false} Parts(d: seq<byte>, i: nat, v: Bencode.Value)
    requires UniqueKeys(v) && Holds(d, i, v)
    ensures v.List? ==>
              && i < |d| && d[i] == LIST && HoldsItems(d, i + 1, v.items) && Len(v) == LenItems(v.items) + 1
              && forall x :: x in v.items ==> UniqueKeys(x)
    ensures v.Dict? ==>
              && i < |d| && d[i] == DICT && HoldsEntries(d, i + 1, v.entries) && Len(v) == LenEntries(v.entries) + 1
              && KeysDiffer(v.entries) && forall e :: e in v.entries ==> UniqueKeys(e.val)
  {
    hide HoldsInt, HoldsStr, HoldsItems, HoldsEntries, LenItems, LenEntries, LenStr, KeysDiffer;
  }

  /** Every value without repeated keys decodes from its encoding, wherever that stands. */
  lemma {:induction false} RoundTrip(d: seq<byte>, i: nat, v: Bencode.Value)
    requires UniqueKeys(v) && Holds(d, i, v)
    ensures Dec(d, i) == Ok(v, i + Len(v))
    decreases v, 1
  {
    hide Dec, DecItems, DecEntries, Holds, HoldsItems, HoldsEntries, UniqueKeys, KeysDiffer, Len, LenItems, LenEntries;
    Parts(d, i, v);
    match v {
      case Int(_) => LeafRoundTrip(d, i, v);
      case Str(_) => LeafRoundTrip(d, i, v);
      case List(items) =>
        ItemsRoundTrip(d, i + 1, [], items);
        DecIsList(d, i, items, i + Len(v));
      case Dict(entries) =>
        assert [] + entries == entries;
        EntriesRoundTrip(d, i + 1, [], entries);
        DecIsDict(d, i, entries, i + Len(v));
    }
  }

  lemma {:induction false} Regroup<T>(out: seq<T>, s: seq<T>)
    requires s != []
    ensures out + s == out + [s[0]] + s[1..]
  {
  }

  lemma {:induction false} ItemsRoundTrip(d: seq<byte>, i: nat, out: seq<Bencode.Value>, vs: seq<Bencode.Value>)
    requires (forall x :: x in vs ==> UniqueKeys(x)) && HoldsItems(d, i, vs)
    ensures DecItems(d, i, out) == Ok(out + vs, i + LenItems(vs))
    decreases vs, 0
  {
    hide HoldsInt, HoldsStr, LenStr, IntText, DecInt, DecStr;
    if vs == [] {
      assert out + vs == out;
    } else {
      var n := i + Len(vs[0]);
      HoldsStart(d, i, vs[0]);
      RoundTrip(d, i, vs[0]);
      DecItemsStep(d, i, n, out, vs[0]);
      ItemsRoundTrip(d, n, out + [vs[0]], vs[1..]);
      Regroup(out, vs);
    }
  }

  lemma {:induction false} PutFresh(es: seq<Entry>, k: seq<byte>, v: Bencode.Value)
    requires forall e :: e in es ==> e.key != k
    ensures Put(es, k, v) == es + [Entry(k, v)]
  {
    assert forall n :: 0 <= n < |es| ==> es[n].key != k;
  }

  lemma {:induction false} FirstKeyFresh(out: seq<Entry>, es: seq<Entry>)
    requires KeysDiffer(out + es) && es != []
    ensures Put(out, es[0].key, es[0].val) == out + [es[0]]
    ensures out + es == out + [es[0]] + es[1..]
  {
    forall n | 0 <= n < |out| ensures out[n].key != es[0].key {
      assert (out + es)[n] == out[n] && (out + es)[|out|] == es[0];
    }
    PutFresh(out, es[0].key, es[0].val);
    Regroup(out, es);
  }

  lemma {:induction false} EntriesRoundTrip(d: seq<byte>, i: nat, out: seq<Entry>, es: seq<Entry>)
    requires forall e :: e in es ==> UniqueKeys(e.val)
    requires KeysDiffer(out + es) && HoldsEntries(d, i, es)
    ensures DecEntries(d, i, out) == Ok(out + es, i + LenEntries(es))
    decreases es, 0
  {
    hide HoldsInt, HoldsStr, LenStr, IntText, DecInt, DecStr;
    if es == [] {
      assert out + es == out;
    } else {
      var j := i + LenStr(es[0].key);
      var n := j + Len(es[0].val);
      DecodesStr(d, i, es[0].key);
      DecIsStr(d, i);
      RoundTrip(d, j, es[0].val);
      DecEntriesStep(d, i, j, n, out, es[0]);
      FirstKeyFresh(out, es);
      EntriesRoundTrip(d, n, out + [es[0]], es[1..]);
    }
  }

  /** `bdecode(encode(v)) == (v, len(encode(v)))`. */
  lemma {:induction false} DecodeEncode(v: Bencode.Value)
    requires UniqueKeys(v)
    ensures BDecode(Encode(v)) == Ok(v, |Encode(v)|)
  {
    hide Encode, Holds, Dec, At;
    AtSelf(Encode(v));
    HoldsIsAt(Encode(v), 0, v);
    RoundTrip(Encode(v), 0, v);
  }

  // ---- exactly which accepted bytes are canonical ----------------------------

  /**
   * What the decoder does not check: length prefixes spelled with digits alone, and
   * dictionary keys in strictly ascending order. Everything else here is what it does check.
   */
  predicate Strict(d: seq<byte>, i: nat)
    decreases |d| - i, 1
  {
    && i < |d|
    && if d[i] == INT then DecInt(d, i).Ok?
       else if d[i] == LIST then StrictItems(d, i + 1)
       else if d[i] == DICT then StrictEntries(d, i + 1, None)
       else IsDigit(d[i]) && DecStr(d, i).Ok? && AllDigits(d[i..FindFrom(d, i, COLON)])
  }

  predicate StrictItems(d: seq<byte>, i: nat)
    decreases |d| - i, 2
  {
    && i < |d|
    && (d[i] != END ==> Dec(d, i).Ok? && Strict(d, i) && StrictItems(d, Dec(d, i).next))
  }

  predicate StrictEntries(d: seq<byte>, i: nat, last: Option<seq<byte>>)
    decreases |d| - i, 2
  {
    && i < |d|
    && (d[i] != END ==>
          && Dec(d, i).Ok? && Dec(d, i).value.Str? && Strict(d, i)
          && var k, j := Dec(d, i).value.bytes, Dec(d, i).next;
             && (last.Some? ==> LexLess(last.value, k))
             && Dec(d, j).Ok? && Strict(d, j)
             && StrictEntries(d, Dec(d, j).next, Some(k)))
  }

  lemma {:induction false} DecUnique(d: seq<byte>, i: nat)
    requires Dec(d, i).Ok?
    ensures UniqueKeys(Dec(d, i).value)
    decreases |d| - i, 1
  {
    if d[i] == LIST {
      ItemsUnique(d, i + 1, []);
    } else if d[i] == DICT {
      EntriesUnique(d, i + 1, []);
    }
  }

  lemma {:induction false} ItemsUnique(d: seq<byte>, i: nat, out: seq<Bencode.Value>)
    requires DecItems(d, i, out).Ok? && forall v :: v in out ==> UniqueKeys(v)
    ensures forall v :: v in DecItems(d, i, out).value ==> UniqueKeys(v)
    decreases |d| - i, 2
  {
    if d[i] != END {
      DecUnique(d, i);
      ItemsUnique(d, Dec(d, i).next, out + [Dec(d, i).value]);
    }
  }

  lemma {:induction false} PutKeepsUnique(es: seq<Entry>, k: seq<byte>, v: Bencode.Value)
    requires KeysDiffer(es) && UniqueKeys(v) && forall e :: e in es ==> UniqueKeys(e.val)
    ensures KeysDiffer(Put(es, k, v)) && forall e :: e in Put(es, k, v) ==> UniqueKeys(e.val)
  {
    var n := IndexOfKey(es, k);
    if n == |es| {
      assert forall i :: 0 <= i < |es| ==> es[i].key != k;
    } else {
      assert forall e :: e in Put(es, k, v) ==> e == Entry(k, v) || e in es;
    }
  }

  lemma {:induction false} EntriesUnique(d: seq<byte>, i: nat, out: seq<Entry>)
    requires DecEntries(d, i, out).Ok?
    requires KeysDiffer(out) && forall e :: e in out ==> UniqueKeys(e.val)
    ensures KeysDiffer(DecEntries(d, i, out).value)
    ensures forall e :: e in DecEntries(d, i, out).value ==> UniqueKeys(e.val)
    decreases |d| - i, 2
  {
    if d[i] != END {
      var k := Dec(d, i);
      var v := Dec(d, k.next);
      DecUnique(d, k.next);
      PutKeepsUnique(out, k.value.bytes, v.value);
      EntriesUnique(d, v.next, Put(out, k.value.bytes, v.value));
    }
  }

  // strict bytes re-encode to themselves

  lemma {:induction false} IntegerRespells(raw: seq<byte>)
    requires Integer(raw).Number?
    ensures IntText(Integer(raw).n) == raw
  {
    hide Digits, Text.Value;
    if raw[0] == MINUS {
      DigitsValue(raw[1..]);
      assert raw == [MINUS] + raw[1..];
    } else {
      DigitsValue(raw);
    }
  }

  lemma {:induction false} IntReencodes(d: seq<byte>, i: nat)
    requires i < |d| && d[i] == INT && DecInt(d, i).Ok?
    ensures var v := DecInt(d, i).value; Holds(d, i, v) && i + Len(v) == DecInt(d, i).next
  {
    var j := FindFrom(d, i, END);
    IntegerRespells(d[i + 1..j]);
    AtSlice(d, i + 1, j, d[i + 1..j]);
  }

  lemma {:induction false} StrReencodes(d: seq<byte>, i: nat)
    requires i < |d| && IsDigit(d[i]) && DecStr(d, i).Ok? && AllDigits(d[i..FindFrom(d, i, COLON)])
    ensures var v := DecStr(d, i).value; Holds(d, i, v) && i + Len(v) == DecStr(d, i).next
  {
    hide Digits, Length, Canonical;
    var j := FindFrom(d, i, COLON);
    assert i < j by { assert d[i] != COLON; }
    PlainLength(d[i..j]);
    AtSlice(d, i, j, d[i..j]);
    AtSlice(d, j + 1, DecStr(d, i).next, DecStr(d, i).value.bytes);
  }

  lemma {:induction false} StrictReencodes(d: seq<byte>, i: nat) returns (v: Bencode.Value, n: nat)
    requires Strict(d, i)
    ensures Dec(d, i) == Ok(v, n) && SortedKeys(v)
    ensures Holds(d, i, v) && n == i + Len(v)
    decreases |d| - i, 1
  {
    hide HoldsInt, HoldsStr, LenStr, IntText, DecInt, DecStr;
    if d[i] == INT {
      IntReencodes(d, i);
      DecIsInt(d, i);
      v, n := DecInt(d, i).value, DecInt(d, i).next;
    } else if d[i] == LIST {
      var vs;
      vs, n := StrictItemsReencode(d, i + 1, []);
      DecIsList(d, i, vs, n);
      v := List(vs);
    } else if d[i] == DICT {
      var es;
      es, n := StrictEntriesReencode(d, i + 1, []);
      DecIsDict(d, i, es, n);
      assert [] + es == es;
      v := Dict(es);
    } else {
      StrReencodes(d, i);
      DecIsStr(d, i);
      v, n := DecStr(d, i).value, DecStr(d, i).next;
    }
  }

  lemma {:induction false} StrictItemsReencode(d: seq<byte>, i: nat, out: seq<Bencode.Value>)
    returns (vs: seq<Bencode.Value>, n: nat)
    requires StrictItems(d, i)
    ensures DecItems(d, i, out) == Ok(out + vs, n)
    ensures HoldsItems(d, i, vs) && n == i + LenItems(vs)
    ensures forall v :: v in vs ==> SortedKeys(v)
    decreases |d| - i, 2
  {
    hide HoldsInt, HoldsStr, LenStr, IntText, DecInt, DecStr;
    if d[i] == END {
      vs, n := [], i + 1;
      assert out + [] == out;
    } else {
      var v, j := StrictReencodes(d, i);
      var rest;
      rest, n := StrictItemsReencode(d, j, out + [v]);
      vs := [v] + rest;
      DecItemsStep(d, i, j, out, v);
      assert vs[1..] == rest;
      Regroup(out, vs);
    }
  }

  /** The key the next entry must exceed. */
  function LastKey(out: seq<Entry>): Option<seq<byte>> {
    if out == [] then None else Some(out[|out| - 1].key)
  }

  lemma {:induction false} AppendAscends(out: seq<Entry>, e: Entry)
    requires StrictlyAscending(out, KeyLess)
    requires out != [] ==> LexLess(out[|out| - 1].key, e.key)
    ensures StrictlyAscending(out + [e], KeyLess)
    ensures Put(out, e.key, e.val) == out + [e]
  {
    LexIsTotal();
    forall k | 0 <= k < |out| ensures LexLess(out[k].key, e.key) {
      if k < |out| - 1 {
        LexTransitive(out[k].key, out[|out| - 1].key, e.key);
      }
    }
    forall x | x in out ensures x.key != e.key {
      LexTrichotomy(x.key, e.key);
    }
    PutFresh(out, e.key, e.val);
  }

  lemma {:induction false} StrictEntriesUnfold(d: seq<byte>, i: nat, last: Option<seq<byte>>)
    returns (e: Entry, j: nat, n: nat)
    requires StrictEntries(d, i, last) && d[i] != END
    ensures Dec(d, i) == Ok(Str(e.key), j) && Strict(d, i) && i < j < n <= |d|
    ensures Dec(d, j) == Ok(e.val, n) && Strict(d, j)
    ensures last.Some? ==> LexLess(last.value, e.key)
    ensures StrictEntries(d, n, Some(e.key))
  {
    hide HoldsInt, HoldsStr, LenStr, IntText, DecInt, DecStr, LexLess;
    j := Dec(d, i).next;
    n := Dec(d, j).next;
    e := Entry(Dec(d, i).value.bytes, Dec(d, j).value);
  }

  lemma {:induction false} StrictEntriesFold(d: seq<byte>, i: nat, last: Option<seq<byte>>, e: Entry, j: nat, n: nat)
    requires i < |d| && Dec(d, i) == Ok(Str(e.key), j) && Strict(d, i)
    requires Dec(d, j) == Ok(e.val, n) && Strict(d, j)
    requires last.Some? ==> LexLess(last.value, e.key)
    requires StrictEntries(d, n, Some(e.key))
    ensures StrictEntries(d, i, last)
  {
    hide HoldsInt, HoldsStr, LenStr, IntText, DecInt, DecStr, LexLess;
  }

  lemma {:induction false} HoldsOneMore(d: seq<byte>, i: nat, e: Entry, rest: seq<Entry>)
    requires Holds(d, i, Str(e.key)) && Holds(d, i + Len(Str(e.key)), e.val)
    requires HoldsEntries(d, i + Len(Str(e.key)) + Len(e.val), rest)
    ensures HoldsEntries(d, i, [e] + rest)
    ensures LenEntries([e] + rest) == Len(Str(e.key)) + Len(e.val) + LenEntries(rest)
  {
    hide HoldsStr, LenStr, IntText, HoldsInt, At, Digits;
    assert ([e] + rest)[1..] == rest;
  }

  lemma {:induction false} StrictEntriesWithin(d: seq<byte>, i: nat, last: Option<seq<byte>>)
    requires StrictEntries(d, i, last)
    ensures i < |d|
  {
    hide Dec, Strict, LexLess;
  }

  lemma {:induction false} NoEntries(d: seq<byte>, i: nat, out: seq<Entry>)
    requires i < |d| && d[i] == END
    ensures DecEntries(d, i, out) == Ok(out, i + 1)
    ensures HoldsEntries(d, i, []) && LenEntries([]) == 1
  {
    hide Dec;
  }

  lemma {:induction false} OneEntryMore(d: seq<byte>, i: nat, j: nat, m: nat, n: nat, out: seq<Entry>, e: Entry,
                                        rest: seq<Entry>)
    requires i < |d| && d[i] != END && Dec(d, i) == Ok(Str(e.key), j) && Dec(d, j) == Ok(e.val, m)
    requires Put(out, e.key, e.val) == out + [e] && DecEntries(d, m, out + [e]) == Ok(out + [e] + rest, n)
    ensures DecEntries(d, i, out) == Ok(out + ([e] + rest), n)
    ensures out + [e] + rest == out + ([e] + rest)
  {
    hide Dec, DecEntries;
    DecEntriesStep(d, i, j, m, out, e);
    Regroup(out, [e] + rest);
    assert ([e] + rest)[1..] == rest;
  }

  lemma {:induction false} StrictEntriesReencode(d: seq<byte>, i: nat, out: seq<Entry>)
    returns (es: seq<Entry>, n: nat)
    requires StrictlyAscending(out, KeyLess) && StrictEntries(d, i, LastKey(out))
    ensures DecEntries(d, i, out) == Ok(out + es, n)
    ensures HoldsEntries(d, i, es) && n == i + LenEntries(es)
    ensures StrictlyAscending(out + es, KeyLess) && forall e :: e in es ==> SortedKeys(e.val)
    decreases |d| - i, 2
  {
    hide Dec, DecEntries, Strict, StrictEntries, SortedKeys, StrictlyAscending, LexLess, KeyLess;
    hide Holds, HoldsEntries, LenEntries, Len, Put;
    StrictEntriesWithin(d, i, LastKey(out));
    if d[i] == END {
      es, n := [], i + 1;
      NoEntries(d, i, out);
      assert out + [] == out;
    } else {
      var e, j, m := StrictEntriesUnfold(d, i, LastKey(out));
      var k, _ := StrictReencodes(d, i);
      var v, _ := StrictReencodes(d, j);
      AppendAscends(out, e);
      var rest;
      rest, n := StrictEntriesReencode(d, m, out + [e]);
      es := [e] + rest;
      OneEntryMore(d, i, j, m, n, out, e, rest);
      HoldsOneMore(d, i, e, rest);
    }
  }

  // what the canonical encoder prints is strict

  lemma {:induction false} SortedIsUnique(v: Bencode.Value)
    requires SortedKeys(v)
    ensures UniqueKeys(v)
  {
    match v {
      case Int(_) =>
      case Str(_) =>
      case List(items) =>
        forall x | x in items ensures UniqueKeys(x) { SortedIsUnique(x); }
      case Dict(entries) =>
        forall e | e in entries ensures UniqueKeys(e.val) { SortedIsUnique(e.val); }
        forall i, j | 0 <= i < j < |entries| ensures entries[i].key != entries[j].key {
          LexTrichotomy(entries[i].key, entries[j].key);
        }
    }
  }

  lemma {:induction false} EncodingStrict(d: seq<byte>, i: nat, v: Bencode.Value)
    requires SortedKeys(v) && Holds(d, i, v)
    ensures Strict(d, i) && Dec(d, i) == Ok(v, i + Len(v))
    decreases v, 1
  {
    hide HoldsInt, HoldsStr, LenStr, IntText, DecInt, DecStr, LexLess, Dec, UniqueKeys, Len;
    SortedIsUnique(v);
    RoundTrip(d, i, v);
    match v {
      case Int(n) => DecodesInt(d, i, n);
      case Str(bs) => DecodesStr(d, i, bs);
      case List(items) => ItemsEncodingStrict(d, i + 1, items);
      case Dict(entries) => EntriesEncodingStrict(d, i + 1, entries, None);
    }
  }

  lemma {:induction false} ItemsEncodingStrict(d: seq<byte>, i: nat, vs: seq<Bencode.Value>)
    requires (forall v :: v in vs ==> SortedKeys(v)) && HoldsItems(d, i, vs)
    ensures StrictItems(d, i)
    decreases vs, 0
  {
    hide HoldsInt, HoldsStr, LenStr, IntText, DecInt, DecStr, LexLess;
    if vs != [] {
      HoldsStart(d, i, vs[0]);
      EncodingStrict(d, i, vs[0]);
      ItemsEncodingStrict(d, i + Len(vs[0]), vs[1..]);
    }
  }

  lemma {:induction false} EntriesEncodingStrict(d: seq<byte>, i: nat, es: seq<Entry>, last: Option<seq<byte>>)
    requires StrictlyAscending(es, KeyLess) && forall e :: e in es ==> SortedKeys(e.val)
    requires last.Some? && es != [] ==> LexLess(last.value, es[0].key)
    requires HoldsEntries(d, i, es)
    ensures StrictEntries(d, i, last)
    decreases es, 0
  {
    hide HoldsInt, HoldsStr, LenStr, IntText, DecInt, DecStr, LexLess;
    if es != [] {
      var j := i + LenStr(es[0].key);
      var n := j + Len(es[0].val);
      DecodesStr(d, i, es[0].key);
      DecIsStr(d, i);
      EncodingStrict(d, j, es[0].val);
      assert |es| > 1 ==> KeyLess(es[0], es[1]);
      EntriesEncodingStrict(d, n, es[1..], Some(es[0].key));
      StrictEntriesFold(d, i, last, es[0], j, n);
    }
  }

  // the canonical encoder

  /** The value with every dictionary's entries in key order. */
  function Sorted(v: Bencode.Value): Bencode.Value {
    match v
    case Int(_) => v
    case Str(_) => v
    case List(items) => List(SortedItems(items))
    case Dict(entries) => Dict(Sort(SortedEntries(entries), KeyLess))
  }

  function SortedItems(vs: seq<Bencode.Value>): (r: seq<Bencode.Value>)
    ensures |r| == |vs| && forall i :: 0 <= i < |vs| ==> r[i] == Sorted(vs[i])
  {
    if vs == [] then [] else [Sorted(vs[0])] + SortedItems(vs[1..])
  }

  function SortedEntries(es: seq<Entry>): (r: seq<Entry>)
    ensures |r| == |es| && forall i :: 0 <= i < |es| ==> r[i] == Entry(es[i].key, Sorted(es[i].val))
  {
    if es == [] then [] else [Entry(es[0].key, Sorted(es[0].val))] + SortedEntries(es[1..])
  }

  lemma {:induction false} KeyLessIsWeak()
    ensures StrictWeak(KeyLess)
  {
    LexIsTotal();
  }

  lemma {:induction false} SortByDistinctKeys(es: seq<Entry>)
    requires KeysDiffer(es)
    ensures StrictlyAscending(Sort(es, KeyLess), KeyLess)
  {
    KeyLessIsWeak();
    SortAscends(es, KeyLess);
    var r := Sort(es, KeyLess);
    DistinctMultiset(es);
    forall i, j | 0 <= i < j < |r| ensures KeyLess(r[i], r[j]) {
      if r[i] == r[j] {
        RepeatCounts(r, i, j);
        assert false;
      }
      assert r[i] in multiset(es) && r[j] in multiset(es);
      LexTrichotomy(r[i].key, r[j].key);
    }
  }

  lemma {:induction false} SortedSorts(v: Bencode.Value)
    requires UniqueKeys(v)
    ensures SortedKeys(Sorted(v))
  {
    match v {
      case Int(_) =>
      case Str(_) =>
      case List(items) =>
        forall x | x in items ensures SortedKeys(Sorted(x)) { SortedSorts(x); }
      case Dict(entries) =>
        forall e | e in entries ensures SortedKeys(Sorted(e.val)) { SortedSorts(e.val); }
        var es := SortedEntries(entries);
        SortByDistinctKeys(es);
        SameElements(es, Sort(es, KeyLess));
    }
  }

  lemma {:induction false} SortedFixed(v: Bencode.Value)
    requires SortedKeys(v)
    ensures Sorted(v) == v
  {
    match v {
      case Int(_) =>
      case Str(_) =>
      case List(items) =>
        forall i | 0 <= i < |items| ensures Sorted(items[i]) == items[i] { SortedFixed(items[i]); }
        assert SortedItems(items) == items;
      case Dict(entries) =>
        forall i | 0 <= i < |entries| ensures Sorted(entries[i].val) == entries[i].val {
          SortedFixed(entries[i].val);
        }
        assert SortedEntries(entries) == entries;
        KeyLessIsWeak();
        SortFixed(entries, KeyLess);
    }
  }

  /** BEP 3's encoder: dictionaries are printed in key order. */
  function CanonicalEncode(v: Bencode.Value): seq<byte> { Encode(Sorted(v)) }

  /**
   * Re-encoding an accepted value gives back the bytes it was read from exactly when
   * those bytes spell every length with digits alone and every dictionary in key order.
   */
  lemma {:induction false} CanonicalIff(d: seq<byte>)
    requires BDecode(d).Ok?
    ensures CanonicalEncode(BDecode(d).value) == d[..BDecode(d).next] <==> Strict(d, 0)
  {
    var v, n := BDecode(d).value, BDecode(d).next;
    if Strict(d, 0) {
      var _, _ := StrictReencodes(d, 0);
      HoldsIsAt(d, 0, v);
      AtSlice(d, 0, n, Encode(v));
      SortedFixed(v);
    }
    if Encode(Sorted(v)) == d[..n] {
      DecUnique(d, 0);
      SortedSorts(v);
      HoldsIsAt(d, 0, Sorted(v));
      AtSlice(d, 0, n, Encode(Sorted(v)));
      EncodingStrict(d, 0, Sorted(v));
    }
  }

  /** On strict input the decoder keeps its promise: one encoding per value, and key order is no part of a value. */
  lemma {:induction false} OneEncodingPerValue(a: seq<byte>, b: seq<byte>)
    requires Strict(a, 0) && Strict(b, 0)
    requires BDecode(a).Ok? && BDecode(b).Ok? && Sorted(BDecode(a).value) == Sorted(BDecode(b).value)
    ensures a[..BDecode(a).next] == b[..BDecode(b).next]
  {
    CanonicalIff(a);
    CanonicalIff(b);
  }
}
