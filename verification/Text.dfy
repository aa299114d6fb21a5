/** Joining, splitting and decimal numerals: the text operations the codecs share. */
module Text {
  import opened Bytes

  datatype Option<+T> = None | Some(value: T)

  // ---- join and split on one separator --------------------------------------

  function Join<T>(parts: seq<seq<T>>, sep: T): seq<T> {
    if parts == [] then []
    else if |parts| == 1 then parts[0]
    else parts[0] + [sep] + Join(parts[1..], sep)
  }

  /** The index of the first `sep`, or the length when there is none. */
  function Find<T(==)>(s: seq<T>, sep: T): (n: nat)
    ensures n <= |s|
    ensures n < |s| ==> s[n] == sep
    ensures forall i :: 0 <= i < n ==> s[i] != sep
  {
    if s == [] || s[0] == sep then 0 else 1 + Find(s[1..], sep)
  }

  /** `s.split(sep)`: always at least one part, none holding the separator. */
  function Split<T(==)>(s: seq<T>, sep: T): (parts: seq<seq<T>>)
    ensures |parts| >= 1
    ensures forall p :: p in parts ==> sep !in p
  {
    var n := Find(s, sep);
    if n == |s| then [s] else [s[..n]] + Split(s[n + 1..], sep)
  }

  lemma {:induction false} CutAt<T>(s: seq<T>, n: nat)
    requires n < |s|
    ensures s == s[..n] + [s[n]] + s[n + 1..]
  {
  }

  lemma {:induction false} JoinCons<T>(p: seq<T>, rest: seq<seq<T>>, sep: T)
    requires rest != []
    ensures Join([p] + rest, sep) == p + [sep] + Join(rest, sep)
  {
    assert ([p] + rest)[1..] == rest;
  }

  lemma {:induction false} JoinSplit<T>(s: seq<T>, sep: T)
    ensures Join(Split(s, sep), sep) == s
  {
    var n := Find(s, sep);
    if n < |s| {
      JoinSplit(s[n + 1..], sep);
      assert Split(s, sep) == [s[..n]] + Split(s[n + 1..], sep);
      JoinCons(s[..n], Split(s[n + 1..], sep), sep);
      CutAt(s, n);
    }
  }

  lemma {:induction false} FindIs<T>(s: seq<T>, sep: T, n: nat)
    requires n <= |s| && sep !in s[..n]
    requires n < |s| ==> s[n] == sep
    ensures Find(s, sep) == n
  {
    assert forall i :: 0 <= i < n ==> s[..n][i] == s[i];
  }

  lemma {:induction false} SplitJoin<T>(parts: seq<seq<T>>, sep: T)
    requires parts != [] && forall p :: p in parts ==> sep !in p
    ensures Split(Join(parts, sep), sep) == parts
  {
    var s := Join(parts, sep);
    var n := |parts[0]|;
    if |parts| == 1 {
      FindIs(s, sep, n);
    } else {
      assert s[..n] == parts[0];
      FindIs(s, sep, n);
      assert s[n + 1..] == Join(parts[1..], sep);
      SplitJoin(parts[1..], sep);
    }
  }

  lemma {:induction false} SplitConcat<T>(a: seq<T>, b: seq<T>, sep: T)
    ensures Split(a + [sep] + b, sep) == Split(a, sep) + Split(b, sep)
  {
    var s := a + [sep] + b;
    var n := Find(a, sep);
    FindIs(s, sep, n);
    assert s[..n] == a[..n];
    if n < |a| {
      assert s[n + 1..] == a[n + 1..] + [sep] + b;
      SplitConcat(a[n + 1..], b, sep);
      assert [a[..n]] + (Split(a[n + 1..], sep) + Split(b, sep)) == [a[..n]] + Split(a[n + 1..], sep) + Split(b, sep);
    } else {
      assert s[n + 1..] == b && s[..n] == a;
    }
  }

  /** A part behind the first stands behind a separator. */
  lemma {:induction false} PartPosition<T>(s: seq<T>, sep: T, k: nat) returns (j: nat)
    requires 0 < k < |Split(s, sep)|
    ensures j < |s| && s[j] == sep && Split(s, sep)[k] <= s[j + 1..]
  {
    hide Find;
    var n := Find(s, sep);
    var rest := s[n + 1..];
    if k == 1 {
      j := n;
    } else {
      var i := PartPosition(rest, sep, k - 1);
      j := n + 1 + i;
      assert rest[i + 1..] == s[j + 1..];
    }
  }

  function Concat<T>(parts: seq<seq<T>>): seq<T> {
    if parts == [] then [] else parts[0] + Concat(parts[1..])
  }

  /** `bs.lower()`, of ASCII letters. */
  function Lower(bs: seq<byte>): (r: seq<byte>)
    ensures |r| == |bs|
  {
    seq(|bs|, i requires 0 <= i < |bs| => if 65 <= bs[i] <= 90 then bs[i] + 32 else bs[i])
  }

  /** `A` to `Z` become `a` to `z`; every other byte is itself. */
  lemma {:induction false} LowerIs(bs: seq<byte>, i: nat)
    requires i < |bs|
    ensures 'A' as int <= bs[i] <= 'Z' as int ==> Lower(bs)[i] == bs[i] + 32
    ensures bs[i] < 'A' as int || bs[i] > 'Z' as int ==> Lower(bs)[i] == bs[i]
  {
  }

  // ---- decimal numerals -----------------------------------------------------

  predicate IsDigit(b: byte) { 48 <= b <= 57 }

  predicate AllDigits(ds: seq<byte>) {
    forall i :: 0 <= i < |ds| ==> IsDigit(ds[i])
  }

  /** No leading zero: the one spelling `str(n)` gives a number. */
  predicate Canonical(ds: seq<byte>) {
    ds != [] && AllDigits(ds) && (|ds| > 1 ==> ds[0] != 48)
  }

  /** `str(n).encode()`. */
  function Digits(n: nat): (ds: seq<byte>)
    ensures Canonical(ds)
    ensures n > 0 ==> ds[0] != 48
  {
    if n < 10 then [48 + n] else Digits(n / 10) + [48 + n % 10]
  }

  /** `int(ds)` of a string of digits. */
  function Value(ds: seq<byte>): nat
    requires AllDigits(ds)
  {
    if ds == [] then 0 else 10 * Value(ds[..|ds| - 1]) + (ds[|ds| - 1] - 48)
  }

  function Pow10(n: nat): nat { if n == 0 then 1 else 10 * Pow10(n - 1) }

  /** Decimal: the first digit counts for ten to the number of those behind it. */
  lemma {:induction false} FirstDigitHighest(d: byte, ds: seq<byte>)
    requires AllDigits([d] + ds)
    ensures AllDigits(ds) && Value([d] + ds) == (d - 48) * Pow10(|ds|) + Value(ds)
  {
    var all := [d] + ds;
    var n := |ds|;
    assert forall i :: 0 <= i < n ==> ds[i] == all[i + 1];
    if n == 0 {
      assert all[..0] == [] && Value([]) == 0;
    } else {
      assert all[..n] == [d] + ds[..n - 1];
      FirstDigitHighest(d, ds[..n - 1]);
      var x: int := d - 48;
      assert 10 * (x * Pow10(n - 1)) == x * (10 * Pow10(n - 1));
    }
  }

  lemma {:induction false} ValueDigits(n: nat)
    ensures Value(Digits(n)) == n
  {
    var ds := Digits(n);
    if n >= 10 {
      ValueDigits(n / 10);
      assert ds[..|ds| - 1] == Digits(n / 10);
    } else {
      assert ds[..0] == [];
    }
  }

  lemma {:induction false} DigitsValue(ds: seq<byte>)
    requires Canonical(ds)
    ensures Digits(Value(ds)) == ds
    ensures ds[0] != 48 ==> Value(ds) > 0
  {
    var init := ds[..|ds| - 1];
    if |ds| == 1 {
      assert init == [];
    } else {
      DigitsValue(init);
      assert Value(ds) / 10 == Value(init);
      assert ds == init + [ds[|ds| - 1]];
    }
  }

  /** Two numbers with the same numeral are the same number. */
  lemma {:induction false} DigitsInjective(a: nat, b: nat)
    requires Digits(a) == Digits(b)
    ensures a == b
  {
    ValueDigits(a);
    ValueDigits(b);
  }
}
