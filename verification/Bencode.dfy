/**
 * The strict bencode decoder of `src/trackers/bencode.py`: what `bdecode` accepts, what it
 * returns, and why a truncated answer can never be read as a whole one.
 */
module Bencode {
  import opened Bytes
  import opened Text

  /** A Python dict keeps insertion order, so a decoded dictionary is a sequence of
      entries whose keys do not repeat. */
  datatype Value =
    | Int(i: int)
    | Str(bytes: seq<byte>)
    | List(items: seq<Value>)
    | Dict(entries: seq<Entry>)

  datatype Entry = Entry(key: seq<byte>, val: Value)

  /** Every way `bdecode` raises `BencodeError`. */
  datatype Error =
    | Truncated | UnexpectedByte
    | UnterminatedInteger | EmptyInteger | NonNumericInteger | NonCanonicalInteger
    | UnterminatedList | UnterminatedDict | KeyNotString
    | NoColon | NonCanonicalLength | BadLength | RunsPastEnd

  /** A decoded value and the offset after it. */
  datatype Result<+T> = Ok(value: T, next: nat) | Err(error: Error)

  /** A number read from the text that spells it. */
  datatype Numeral = Number(n: int) | Refused(error: Error)

  const INT: byte := 105  // i
  const LIST: byte := 108  // l
  const DICT: byte := 100  // d
  const END: byte := 101  // e
  const COLON: byte := 58  // :
  const MINUS: byte := 45  // -
  const ZERO: byte := 48  // 0
  const UNDERSCORE: byte := 95  // _

  // ---- scalars --------------------------------------------------------------

  /** `data.find(needle, i)`; the length of the data stands for -1. */
  function FindFrom(d: seq<byte>, i: nat, needle: byte): (j: nat)
    requires i <= |d|
    ensures i <= j <= |d|
    ensures j < |d| ==> d[j] == needle
    decreases |d| - i
  {
    if i == |d| || d[i] == needle then i else FindFrom(d, i + 1, needle)
  }

  /** `find` reports the first occurrence. */
  lemma {:induction false} FindFromFirst(d: seq<byte>, i: nat, j: nat, needle: byte)
    requires i <= j <= |d| && (j < |d| ==> d[j] == needle)
    ensures FindFrom(d, i, needle) == j <==> forall k :: i <= k < j ==> d[k] != needle
    decreases j - i
  {
    if i < j && d[i] != needle {
      FindFromFirst(d, i + 1, j, needle);
    }
  }

  function Integer(raw: seq<byte>): Numeral {
    if raw == [] || raw == [MINUS] then Refused(EmptyInteger)
    else
      var body := if raw[0] == MINUS then raw[1..] else raw;
      if !AllDigits(body) then Refused(NonNumericInteger)
      else if raw == [MINUS, ZERO] || (|body| > 1 && body[0] == ZERO) then Refused(NonCanonicalInteger)
      else
        var n: int := Text.Value(body);
        Number(if raw[0] == MINUS then -n else n)
  }

  predicate IsSpace(b: byte) { b == 32 || 9 <= b <= 13 }

  /** Digits with single underscores between them: what `int` takes inside a numeral. */
  predicate GroupedDigits(raw: seq<byte>) {
    && raw != [] && IsDigit(raw[0])
    && (|raw| == 1
        || GroupedDigits(raw[1..])
        || (|raw| > 2 && raw[1] == UNDERSCORE && GroupedDigits(raw[2..])))
  }

  function TrimRight(raw: seq<byte>): (t: seq<byte>)
    ensures t <= raw
  {
    if raw != [] && IsSpace(raw[|raw| - 1]) then TrimRight(raw[..|raw| - 1]) else raw
  }

  function OnlyDigits(raw: seq<byte>): (ds: seq<byte>)
    ensures AllDigits(ds)
    ensures AllDigits(raw) ==> ds == raw
  {
    if raw == [] then []
    else if IsDigit(raw[0]) then [raw[0]] + OnlyDigits(raw[1..])
    else OnlyDigits(raw[1..])
  }

  /**
   * `int(raw_len)`. The decoder looks only at the first byte, so `int` sees whatever stands
   * between it and the colon, and `int` takes trailing whitespace and grouping underscores.
   */
  function Length(raw: seq<byte>): (r: Numeral)
    ensures r.Number? ==> r.n >= 0
  {
    if |raw| > 1 && raw[0] == ZERO then Refused(NonCanonicalLength)
    else if !GroupedDigits(TrimRight(raw)) then Refused(BadLength)
    else Number(Text.Value(OnlyDigits(TrimRight(raw))))
  }

  // ---- what `int` makes of a length ------------------------------------------

  /** Digits in groups, none of them empty. */
  ghost predicate Groups(groups: seq<seq<byte>>) {
    groups != [] && forall g :: g in groups ==> g != [] && forall i :: 0 <= i < |g| ==> 48 <= g[i] <= 57
  }

  predicate White(s: seq<byte>) { forall i :: 0 <= i < |s| ==> s[i] == 32 || 9 <= s[i] <= 13 }

  lemma {:induction false} DigitsGrouped(ds: seq<byte>, rest: seq<byte>)
    requires ds != [] && AllDigits(ds)
    requires rest == [] || (|rest| > 1 && rest[0] == 95 && GroupedDigits(rest[1..]))
    ensures GroupedDigits(ds + rest)
  {
    var s := ds + rest;
    assert s[0] == ds[0];
    if |ds| > 1 {
      assert s[1..] == ds[1..] + rest;
      DigitsGrouped(ds[1..], rest);
    } else {
      assert s[1..] == rest;
      assert |rest| > 1 ==> s[2..] == rest[1..];
    }
  }

  lemma {:induction false} OnlyDigitsOf(ds: seq<byte>, rest: seq<byte>)
    requires AllDigits(ds)
    ensures OnlyDigits(ds + rest) == ds + OnlyDigits(rest)
  {
    if ds == [] {
      assert ds + rest == rest;
    } else {
      assert (ds + rest)[1..] == ds[1..] + rest;
      OnlyDigitsOf(ds[1..], rest);
      assert ds == [ds[0]] + ds[1..];
    }
  }

  lemma {:induction false} DigitsThen(ds: seq<byte>, rest: seq<byte>)
    requires ds != [] && AllDigits(ds)
    requires rest == [] || (|rest| > 1 && rest[0] == 95 && GroupedDigits(rest[1..]))
    ensures GroupedDigits(ds + rest) && OnlyDigits(ds + rest) == ds + OnlyDigits(rest)
  {
    DigitsGrouped(ds, rest);
    OnlyDigitsOf(ds, rest);
  }

  lemma {:induction false} Underscored(t: seq<byte>)
    ensures OnlyDigits([95] + t) == OnlyDigits(t)
  {
    assert ([95] + t)[1..] == t;
  }

  lemma {:induction false} GroupsParts(groups: seq<seq<byte>>)
    requires Groups(groups)
    ensures groups[0] != [] && AllDigits(groups[0]) && groups == [groups[0]] + groups[1..]
    ensures groups[1..] != [] ==> Groups(groups[1..])
    ensures Concat(groups) == groups[0] + Concat(groups[1..])
    ensures groups[1..] == [] ==> Join<byte>(groups, 95) == groups[0] && Concat(groups) == groups[0]
  {
    assert groups[0] in groups && forall g :: g in groups[1..] ==> g in groups;
  }

  lemma {:induction false} GroupsAreGrouped(groups: seq<seq<byte>>)
    requires Groups(groups)
    ensures GroupedDigits(Join<byte>(groups, 95)) && OnlyDigits(Join<byte>(groups, 95)) == Concat(groups)
    ensures |Join<byte>(groups, 95)| > 0
  {
    hide GroupedDigits, OnlyDigits, Groups, Concat, Join, AllDigits;
    GroupsParts(groups);
    var ds, later := groups[0], groups[1..];
    if later == [] {
      DigitsThen(ds, []);
      NoDigits();
      assert ds + [] == ds;
    } else {
      GroupsAreGrouped(later);
      JoinCons<byte>(ds, later, 95);
      var t := Join<byte>(later, 95);
      var rest := [95] + t;
      assert rest[1..] == t;
      DigitsThen(ds, rest);
      Underscored(t);
      assert ds + [95] + t == ds + rest;
    }
  }

  lemma {:induction false} NoDigits()
    ensures OnlyDigits([]) == []
  {
  }

  lemma {:induction false} GroupedEnds(t: seq<byte>)
    requires GroupedDigits(t)
    ensures IsDigit(t[|t| - 1])
  {
    if |t| > 1 {
      if GroupedDigits(t[1..]) {
        GroupedEnds(t[1..]);
      } else {
        GroupedEnds(t[2..]);
      }
    }
  }

  lemma {:induction false} WhiteTrims(t: seq<byte>, white: seq<byte>)
    requires t != [] && IsDigit(t[|t| - 1]) && White(white)
    ensures TrimRight(t + white) == t
  {
    if white == [] {
      assert t + white == t;
    } else {
      assert (t + white)[..|t + white| - 1] == t + white[..|white| - 1];
      WhiteTrims(t, white[..|white| - 1]);
    }
  }

  /** Any groups of digits joined by underscores, with white space behind, count as the digits alone... */
  lemma {:induction false} LengthTaken(groups: seq<seq<byte>>, white: seq<byte>)
    requires Groups(groups) && White(white)
    ensures var raw := Join<byte>(groups, 95) + white;
            && AllDigits(Concat(groups))
            && Length(raw) == if |raw| > 1 && raw[0] == 48 then Refused(NonCanonicalLength)
                              else Number(Text.Value(Concat(groups)))
  {
    hide Join, Concat, Text.Value;
    var t := Join<byte>(groups, 95);
    GroupsAreGrouped(groups);
    GroupedEnds(t);
    WhiteTrims(t, white);
  }

  lemma {:induction false} OneGroup(t: seq<byte>)
    requires t != [] && forall i :: 0 <= i < |t| ==> 48 <= t[i] <= 57
    ensures Groups([t]) && Join<byte>([t], 95) == t
  {
  }

  lemma {:induction false} LongerJoin(d: byte, first: seq<byte>, later: seq<seq<byte>>)
    ensures Join<byte>([[d] + first] + later, 95) == [d] + Join<byte>([first] + later, 95)
  {
    if later == [] {
      assert [first] + later == [first] && [[d] + first] + later == [[d] + first];
    } else {
      JoinCons<byte>([d] + first, later, 95);
      JoinCons<byte>(first, later, 95);
    }
  }

  lemma {:induction false} LongerGroup(d: byte, rest: seq<seq<byte>>)
    requires 48 <= d <= 57 && Groups(rest)
    ensures Groups([[d] + rest[0]] + rest[1..])
    ensures Join<byte>([[d] + rest[0]] + rest[1..], 95) == [d] + Join<byte>(rest, 95)
  {
    hide Join;
    LongerJoin(d, rest[0], rest[1..]);
    assert rest == [rest[0]] + rest[1..];
    assert rest[0] in rest && forall g :: g in rest[1..] ==> g in rest;
  }

  lemma {:induction false} NewGroup(d: byte, rest: seq<seq<byte>>)
    requires 48 <= d <= 57 && Groups(rest)
    ensures Groups([[d]] + rest) && Join<byte>([[d]] + rest, 95) == [d] + [95] + Join<byte>(rest, 95)
  {
    JoinCons<byte>([d], rest, 95);
  }

  lemma {:induction false} InGroups(t: seq<byte>) returns (groups: seq<seq<byte>>)
    requires GroupedDigits(t)
    ensures Groups(groups) && groups != [] && t == Join<byte>(groups, 95)
  {
    hide Groups, Join;
    if |t| == 1 {
      OneGroup(t);
      groups := [t];
    } else if GroupedDigits(t[1..]) {
      var rest := InGroups(t[1..]);
      LongerGroup(t[0], rest);
      groups := [[t[0]] + rest[0]] + rest[1..];
      assert t == [t[0]] + t[1..];
    } else {
      var rest := InGroups(t[2..]);
      NewGroup(t[0], rest);
      groups := [[t[0]]] + rest;
      assert t == [t[0]] + [95] + t[2..];
    }
  }

  lemma {:induction false} TrimmedOff(raw: seq<byte>)
    ensures White(raw[|TrimRight(raw)|..])
  {
    if raw != [] && IsSpace(raw[|raw| - 1]) {
      TrimmedOff(raw[..|raw| - 1]);
      var n := |TrimRight(raw)|;
      assert raw[n..] == raw[..|raw| - 1][n..] + [raw[|raw| - 1]];
    }
  }

  /** ...and no other length does. */
  lemma {:induction false} LengthShape(raw: seq<byte>) returns (groups: seq<seq<byte>>, white: seq<byte>)
    requires Length(raw).Number?
    ensures Groups(groups) && White(white) && raw == Join<byte>(groups, 95) + white
  {
    hide Join;
    var t := TrimRight(raw);
    groups := InGroups(t);
    white := raw[|t|..];
    TrimmedOff(raw);
  }

  /** A refusal is for a zero in front of others, and otherwise for anything `int` does not take. */
  lemma {:induction false} LengthRefused(raw: seq<byte>)
    ensures Length(raw) == Refused(NonCanonicalLength) <==> |raw| > 1 && raw[0] == 48
    ensures Length(raw).Refused? ==> Length(raw).error in {NonCanonicalLength, BadLength}
  {
  }

  // ---- the decoder ----------------------------------------------------------

  function IndexOfKey(es: seq<Entry>, k: seq<byte>): (n: nat)
    ensures n <= |es|
    ensures n < |es| ==> es[n].key == k
    ensures forall i :: 0 <= i < n ==> es[i].key != k
  {
    if es == [] || es[0].key == k then 0 else 1 + IndexOfKey(es[1..], k)
  }

  /** `out_d[k] = v`: a repeated key keeps its place and loses its old value. */
  function Put(es: seq<Entry>, k: seq<byte>, v: Value): (r: seq<Entry>)
    ensures |r| >= 1
  {
    var n := IndexOfKey(es, k);
    if n < |es| then es[n := Entry(k, v)] else es + [Entry(k, v)]
  }

  function DecInt(d: seq<byte>, i: nat): (r: Result<Value>)
    requires i < |d| && d[i] == INT
    ensures r.Ok? ==> i < r.next <= |d|
  {
    var j := FindFrom(d, i, END);
    if j == |d| then Err(UnterminatedInteger)
    else match Integer(d[i + 1..j])
      case Refused(e) => Err(e)
      case Number(n) => Ok(Int(n), j + 1)
  }

  function DecStr(d: seq<byte>, i: nat): (r: Result<Value>)
    requires i < |d| && IsDigit(d[i])
    ensures r.Ok? ==> i < r.next <= |d|
  {
    var j := FindFrom(d, i, COLON);
    if j == |d| then Err(NoColon)
    else match Length(d[i..j])
      case Refused(e) => Err(e)
      case Number(n) =>
        if j + 1 + n > |d| then Err(RunsPastEnd) else Ok(Str(d[j + 1..j + 1 + n]), j + 1 + n)
  }

  /** Both ends of a string: the first colon behind its length, and as many bytes behind that. */
  lemma {:induction false} StringIs(d: seq<byte>, i: nat, j: nat)
    requires i < |d| && IsDigit(d[i])
    ensures (forall k :: i <= k < |d| ==> d[k] != 58) ==> DecStr(d, i) == Err(NoColon)
    ensures i < j < |d| && d[j] == 58 && (forall k :: i <= k < j ==> d[k] != 58) ==>
              DecStr(d, i) == match Length(d[i..j])
                              case Refused(e) => Err(e)
                              case Number(n) =>
                                if |d| - j - 1 < n then Err(RunsPastEnd)
                                else Ok(Str(d[j + 1..j + 1 + n]), j + 1 + n)
  {
    hide Length;
    var first := FindFrom(d, i, COLON);
    if i < j < |d| && d[j] == 58 {
      FindFromFirst(d, i, j, COLON);
    }
  }

  /** An integer: a minus sign or none, and digits with no zero in front of others and no minus zero. */
  lemma {:induction false} IntegerIs(ds: seq<byte>)
    requires ds != [] && forall i :: 0 <= i < |ds| ==> 48 <= ds[i] <= 57
    ensures Integer(ds) == if |ds| > 1 && ds[0] == 48 then Refused(NonCanonicalInteger) else Number(Text.Value(ds))
    ensures Integer([45] + ds) == if ds[0] == 48 then Refused(NonCanonicalInteger) else Number(0 - Text.Value(ds))
  {
    var signed := [45] + ds;
    assert signed[1..] == ds && AllDigits(ds);
    assert signed == [MINUS, ZERO] <==> |ds| == 1 && ds[0] == 48;
  }

  /** And nothing else is an integer. */
  lemma {:induction false} OnlyIntegers(raw: seq<byte>)
    ensures Integer(raw).Number? ==>
              var ds := if raw != [] && raw[0] == 45 then raw[1..] else raw;
              ds != [] && forall i :: 0 <= i < |ds| ==> 48 <= ds[i] <= 57
  {
  }

  /** The inner `_dec`, as a recursive specification. */
  function Dec(d: seq<byte>, i: nat): (r: Result<Value>)
    ensures r.Ok? ==> i < r.next <= |d|
    decreases |d| - i, 1
  {
    if i >= |d| then Err(Truncated)
    else if d[i] == INT then DecInt(d, i)
    else if d[i] == LIST then
      match DecItems(d, i + 1, [])
      case Err(e) => Err(e)
      case Ok(vs, j) => Ok(List(vs), j)
    else if d[i] == DICT then
      match DecEntries(d, i + 1, [])
      case Err(e) => Err(e)
      case Ok(es, j) => Ok(Dict(es), j)
    else if IsDigit(d[i]) then DecStr(d, i)
    else Err(UnexpectedByte)
  }

  /** The list loop, from one of its iterations on: `out` is what it has gathered. */
  function DecItems(d: seq<byte>, i: nat, out: seq<Value>): (r: Result<seq<Value>>)
    ensures r.Ok? ==> i < r.next <= |d|
    decreases |d| - i, 2
  {
    if i >= |d| then Err(UnterminatedList)
    else if d[i] == END then Ok(out, i + 1)
    else match Dec(d, i)
      case Err(e) => Err(e)
      case Ok(v, j) => DecItems(d, j, out + [v])
  }

  /** The dictionary loop, from one of its iterations on. */
  function DecEntries(d: seq<byte>, i: nat, out: seq<Entry>): (r: Result<seq<Entry>>)
    ensures r.Ok? ==> i < r.next <= |d|
    decreases |d| - i, 2
  {
    if i >= |d| then Err(UnterminatedDict)
    else if d[i] == END then Ok(out, i + 1)
    else match Dec(d, i)
      case Err(e) => Err(e)
      case Ok(k, j) =>
        if !k.Str? then Err(KeyNotString)
        else match Dec(d, j)
          case Err(e) => Err(e)
          case Ok(v, m) => DecEntries(d, m, Put(out, k.bytes, v))
  }

  /** `_dec` as it runs: recursive, with the list and dictionary loops advancing `i`. */
  method Decode(d: seq<byte>, start: nat) returns (r: Result<Value>)
    ensures r == Dec(d, start)
    decreases |d| - start
  {
    var i := start;
    if i >= |d| {
      return Err(Truncated);
    }
    if d[i] == INT {
      return DecInt(d, i);
    }
    if d[i] == LIST {
      i := i + 1;
      var out: seq<Value> := [];
      while true
        invariant start < i <= |d|
        invariant DecItems(d, i, out) == DecItems(d, start + 1, [])
        decreases |d| - i
      {
        if i >= |d| {
          return Err(UnterminatedList);
        }
        if d[i] == END {
          return Ok(List(out), i + 1);
        }
        var item := Decode(d, i);
        if item.Err? {
          return Err(item.error);
        }
        i := item.next;
        out := out + [item.value];
      }
    }
    if d[i] == DICT {
      i := i + 1;
      var out: seq<Entry> := [];
      while true
        invariant start < i <= |d|
        invariant DecEntries(d, i, out) == DecEntries(d, start + 1, [])
        decreases |d| - i
      {
        if i >= |d| {
          return Err(UnterminatedDict);
        }
        if d[i] == END {
          return Ok(Dict(out), i + 1);
        }
        var k := Decode(d, i);
        if k.Err? {
          return Err(k.error);
        }
        if !k.value.Str? {
          return Err(KeyNotString);
        }
        var v := Decode(d, k.next);
        if v.Err? {
          return Err(v.error);
        }
        i := v.next;
        out := Put(out, k.value.bytes, v.value);
      }
    }
    if IsDigit(d[i]) {
      return DecStr(d, i);
    }
    return Err(UnexpectedByte);
  }

  // ---- a prefix code --------------------------------------------------------

  /** Both buffers hold the same bytes up to `n`. */
  ghost predicate Agree(a: seq<byte>, b: seq<byte>, n: nat) {
    n <= |a| && n <= |b| && a[..n] == b[..n]
  }

  lemma {:induction false} SlicesAgree(a: seq<byte>, b: seq<byte>, i: nat, j: nat, n: nat)
    requires Agree(a, b, n) && i <= j <= n
    ensures a[i..j] == b[i..j]
  {
    assert a[i..j] == a[..n][i..j];
    assert b[i..j] == b[..n][i..j];
  }

  lemma {:induction false} FindFromAgrees(a: seq<byte>, b: seq<byte>, i: nat, needle: byte)
    requires i <= |a|
    requires FindFrom(a, i, needle) < |a| && Agree(a, b, FindFrom(a, i, needle) + 1)
    ensures FindFrom(b, i, needle) == FindFrom(a, i, needle)
  {
    var j := FindFrom(a, i, needle);
    FindFromFirst(a, i, j, needle);
    assert forall k :: 0 <= k <= j ==> a[k] == a[..j + 1][k] == b[..j + 1][k] == b[k];
    FindFromFirst(b, i, j, needle);
  }

  lemma {:induction false} IntAgrees(a: seq<byte>, b: seq<byte>, i: nat)
    requires i < |a| && a[i] == INT && i < |b| && b[i] == INT
    requires DecInt(a, i).Ok? && Agree(a, b, DecInt(a, i).next)
    ensures DecInt(b, i) == DecInt(a, i)
  {
    var n := DecInt(a, i).next;
    FindFromAgrees(a, b, i, END);
    SlicesAgree(a, b, i + 1, n - 1, n);
  }

  lemma {:induction false} StrAgrees(a: seq<byte>, b: seq<byte>, i: nat)
    requires i < |a| && IsDigit(a[i]) && i < |b| && b[i] == a[i]
    requires DecStr(a, i).Ok? && Agree(a, b, DecStr(a, i).next)
    ensures DecStr(b, i) == DecStr(a, i)
  {
    var n := DecStr(a, i).next;
    var j := FindFrom(a, i, COLON);
    assert a[..j + 1] == a[..n][..j + 1] == b[..j + 1];
    FindFromAgrees(a, b, i, COLON);
    SlicesAgree(a, b, i, j, n);
    SlicesAgree(a, b, j + 1, n, n);
  }

  /** A decoding depends only on the bytes it consumed. */
  lemma {:induction false} DecAgrees(a: seq<byte>, b: seq<byte>, i: nat)
    requires Dec(a, i).Ok? && Agree(a, b, Dec(a, i).next)
    ensures Dec(b, i) == Dec(a, i)
    decreases |a| - i, 1
  {
    var n := Dec(a, i).next;
    assert a[i] == a[..n][i] == b[..n][i] == b[i];
    if a[i] == INT {
      IntAgrees(a, b, i);
    } else if a[i] == LIST {
      ItemsAgree(a, b, i + 1, []);
    } else if a[i] == DICT {
      EntriesAgree(a, b, i + 1, []);
    } else {
      StrAgrees(a, b, i);
    }
  }

  lemma {:induction false} ItemsAgree(a: seq<byte>, b: seq<byte>, i: nat, out: seq<Value>)
    requires DecItems(a, i, out).Ok? && Agree(a, b, DecItems(a, i, out).next)
    ensures DecItems(b, i, out) == DecItems(a, i, out)
    decreases |a| - i, 2
  {
    var n := DecItems(a, i, out).next;
    assert a[i] == a[..n][i] == b[..n][i] == b[i];
    if a[i] != END {
      var item := Dec(a, i);
      assert a[..item.next] == a[..n][..item.next] == b[..item.next];
      DecAgrees(a, b, i);
      ItemsAgree(a, b, item.next, out + [item.value]);
    }
  }

  lemma {:induction false} EntriesAgree(a: seq<byte>, b: seq<byte>, i: nat, out: seq<Entry>)
    requires DecEntries(a, i, out).Ok? && Agree(a, b, DecEntries(a, i, out).next)
    ensures DecEntries(b, i, out) == DecEntries(a, i, out)
    decreases |a| - i, 2
  {
    var n := DecEntries(a, i, out).next;
    assert a[i] == a[..n][i] == b[..n][i] == b[i];
    if a[i] != END {
      var k := Dec(a, i);
      var v := Dec(a, k.next);
      assert a[..k.next] == a[..n][..k.next] == b[..k.next];
      assert a[..v.next] == a[..n][..v.next] == b[..v.next];
      DecAgrees(a, b, i);
      DecAgrees(a, b, k.next);
      EntriesAgree(a, b, v.next, Put(out, k.value.bytes, v.value));
    }
  }

  /** `bdecode(data)`. */
  function BDecode(d: seq<byte>): Result<Value> { Dec(d, 0) }

  /**
   * `bdecode` is a prefix code: an accepted value is decided by the bytes it consumed, any
   * suffix leaves it alone, and no proper prefix of those bytes is accepted.
   */
  lemma {:induction false} PrefixCode(d: seq<byte>, suffix: seq<byte>, cut: nat)
    requires BDecode(d).Ok?
    ensures 0 < BDecode(d).next <= |d|
    ensures BDecode(d[..BDecode(d).next] + suffix) == BDecode(d)
    ensures cut < BDecode(d).next ==> BDecode(d[..cut]).Err?
  {
    var n := BDecode(d).next;
    var e := d[..n] + suffix;
    assert e[..n] == d[..n];
    DecAgrees(d, e, 0);
    if cut < n && BDecode(d[..cut]).Ok? {
      var short := d[..cut];
      var m := BDecode(short).next;
      assert short[..m] == d[..m];
      DecAgrees(short, d, 0);
      assert false;
    }
  }
}
