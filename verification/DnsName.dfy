/**
 * Domain names on the wire (RFC 1035 sections 2.3.4, 3.1 and 4.1.4): the encoder and the
 * compressed-name reader of `src/trackers/bep34.py`.
 */
module DnsName {
  import opened Bytes
  import opened Text

  type Label = seq<byte>

  /** Every way these routines raise `_Malformed`. */
  datatype Error =
    | NamePastEnd | TruncatedPointer | PointerNotBackwards | TooManyPointers
    | ReservedLabel | LabelPastEnd | TooManyLabels
    | EmptyHost | BadLabelLength | NameTooLong

  datatype Result<+T> = Ok(value: T) | Malformed(error: Error)

  /** A name as text, and the offset after it. */
  datatype Name = Name(text: seq<byte>, next: nat)

  const MAX_POINTER_JUMPS := 64
  const MAX_LABELS := 128
  const DOT: byte := 46

  // The source tests the two top bits of a length byte with masks; on a byte, both set
  // is 192 and up, and either set is 64 and up.
  const COMPRESSED: byte := 192
  const RESERVED: byte := 64

  function Target(hi: byte, lo: byte): nat { (hi % 64) * 256 + lo }

  lemma {:induction false} TargetIs(hi: byte, lo: byte)
    requires hi >= 192
    ensures Target(hi, lo) == (hi as int - 192) * 256 + lo
  {
  }

  // ---- the reader -------------------------------------------------------------

  /** The labels the reader gathers from `here` on, with what it has used of its two caps. */
  function Walk(buf: seq<byte>, here: nat, jumps: nat, labels: seq<Label>): Result<seq<Label>>
    requires jumps <= MAX_POINTER_JUMPS
    decreases MAX_POINTER_JUMPS - jumps, |buf| - here
  {
    if here >= |buf| then Malformed(NamePastEnd)
    else
      var length := buf[here];
      if length == 0 then Ok(labels)
      else if length >= COMPRESSED then
        if here + 1 >= |buf| then Malformed(TruncatedPointer)
        else if Target(length, buf[here + 1]) >= here then Malformed(PointerNotBackwards)
        else if jumps + 1 > MAX_POINTER_JUMPS then Malformed(TooManyPointers)
        else Walk(buf, Target(length, buf[here + 1]), jumps + 1, labels)
      else if length >= RESERVED then Malformed(ReservedLabel)
      else if here + 1 + length > |buf| then Malformed(LabelPastEnd)
      else if |labels| + 1 > MAX_LABELS then Malformed(TooManyLabels)
      else Walk(buf, here + 1 + length, jumps, labels + [buf[here + 1..here + 1 + length]])
  }

  /** The offset after the first byte that ends the name in place: its zero or its pointer. */
  function After(buf: seq<byte>, here: nat): (n: nat)
    ensures n > here
    decreases |buf| - here
  {
    if here >= |buf| || buf[here] == 0 then here + 1
    else if buf[here] >= COMPRESSED then here + 2
    else After(buf, here + 1 + buf[here])
  }

  /** What `_read_name` returns. */
  function Read(buf: seq<byte>, offset: nat): Result<Name> {
    match Walk(buf, offset, 0, [])
    case Malformed(e) => Malformed(e)
    case Ok(labels) => Ok(Name(Lower(Join(labels, DOT)), After(buf, offset)))
  }

  /** `_read_name`, loop and all. Neither counter alone bounds it: a jump moves backwards. */
  method ReadName(buf: seq<byte>, offset: nat) returns (r: Result<Name>)
    ensures r == Read(buf, offset)
  {
    var labels: seq<Label> := [];
    var jumps: nat := 0;
    var here: nat := offset;
    var after: Option<nat> := None;
    while true
      invariant jumps <= MAX_POINTER_JUMPS
      invariant Walk(buf, here, jumps, labels) == Walk(buf, offset, 0, [])
      invariant After(buf, offset) == if after.Some? then after.value else After(buf, here)
      decreases MAX_POINTER_JUMPS - jumps, |buf| - here
    {
      if here >= |buf| {
        return Malformed(NamePastEnd);
      }
      var length := buf[here];
      if length == 0 {
        here := here + 1;
        break;
      }
      if length >= COMPRESSED {
        if here + 1 >= |buf| {
          return Malformed(TruncatedPointer);
        }
        var target := Target(length, buf[here + 1]);
        if target >= here {
          return Malformed(PointerNotBackwards);
        }
        if jumps + 1 > MAX_POINTER_JUMPS {
          return Malformed(TooManyPointers);
        }
        jumps := jumps + 1;
        if after.None? {
          after := Some(here + 2);
        }
        here := target;
        continue;
      }
      if length >= RESERVED {
        return Malformed(ReservedLabel);
      }
      var end := here + 1 + length;
      if end > |buf| {
        return Malformed(LabelPastEnd);
      }
      if |labels| + 1 > MAX_LABELS {
        return Malformed(TooManyLabels);
      }
      labels := labels + [buf[here + 1..end]];
      here := end;
    }
    return Ok(Name(Lower(Join(labels, DOT)), if after.Some? then after.value else here));
  }

  // ---- what a compressed name means (RFC 1035 section 4.1.4) ---------------------

  /**
   * The name at `here` is `labels`, reached through `jumps` pointers. The RFC's definition,
   * with no caps: a label and the name after it, a pointer to a name that stands earlier,
   * or the root.
   */
  ghost predicate Denotes(buf: seq<byte>, here: nat, labels: seq<Label>, jumps: nat)
    decreases jumps, |labels|
  {
    && here < |buf|
    && if buf[here] == 0 then labels == [] && jumps == 0
       else if buf[here] >= 192 then
         && here + 1 < |buf| && jumps > 0
         && var target := (buf[here] as int - 192) * 256 + buf[here + 1];
            target < here && Denotes(buf, target, labels, jumps - 1)
       else
         && buf[here] < 64 && here + 1 + buf[here] <= |buf|
         && labels != [] && labels[0] == buf[here + 1..here + 1 + buf[here]]
         && Denotes(buf, here + 1 + buf[here], labels[1..], jumps)
  }

  /** A name has at most one meaning. */
  lemma {:induction false} DenotesOnce(buf: seq<byte>, here: nat, a: seq<Label>, i: nat, b: seq<Label>, j: nat)
    requires Denotes(buf, here, a, i) && Denotes(buf, here, b, j)
    ensures a == b && i == j
    decreases i, |a|
  {
    if buf[here] >= COMPRESSED {
      DenotesOnce(buf, Target(buf[here], buf[here + 1]), a, i - 1, b, j - 1);
    } else if buf[here] != 0 {
      DenotesOnce(buf, here + 1 + buf[here], a[1..], i, b[1..], j);
      assert a == [a[0]] + a[1..] && b == [b[0]] + b[1..];
    }
  }

  lemma {:induction false} WalkSound(buf: seq<byte>, here: nat, jumps: nat, acc: seq<Label>)
    returns (labels: seq<Label>, more: nat)
    requires jumps <= MAX_POINTER_JUMPS && |acc| <= MAX_LABELS
    requires Walk(buf, here, jumps, acc).Ok?
    ensures Walk(buf, here, jumps, acc) == Ok(acc + labels)
    ensures Denotes(buf, here, labels, more)
    ensures jumps + more <= MAX_POINTER_JUMPS && |acc| + |labels| <= MAX_LABELS
    decreases MAX_POINTER_JUMPS - jumps, |buf| - here
  {
    hide Target;
    if buf[here] == 0 {
      labels, more := [], 0;
      assert acc + [] == acc;
    } else if buf[here] >= COMPRESSED {
      TargetIs(buf[here], buf[here + 1]);
      labels, more := WalkSound(buf, Target(buf[here], buf[here + 1]), jumps + 1, acc);
      more := more + 1;
    } else {
      var head := buf[here + 1..here + 1 + buf[here]];
      var rest;
      rest, more := WalkSound(buf, here + 1 + buf[here], jumps, acc + [head]);
      labels := [head] + rest;
      assert labels[1..] == rest && acc + labels == acc + [head] + rest;
    }
  }

  lemma {:induction false} WalkComplete(buf: seq<byte>, here: nat, jumps: nat, acc: seq<Label>,
                                        labels: seq<Label>, more: nat)
    requires Denotes(buf, here, labels, more)
    requires jumps + more <= MAX_POINTER_JUMPS && |acc| + |labels| <= MAX_LABELS
    ensures Walk(buf, here, jumps, acc) == Ok(acc + labels)
    decreases more, |labels|
  {
    hide Target;
    if buf[here] == 0 {
      assert acc + [] == acc;
    } else if buf[here] >= COMPRESSED {
      TargetIs(buf[here], buf[here + 1]);
      WalkComplete(buf, Target(buf[here], buf[here + 1]), jumps + 1, acc, labels, more - 1);
    } else {
      WalkComplete(buf, here + 1 + buf[here], jumps, acc + [labels[0]], labels[1..], more);
      assert acc + labels == acc + [labels[0]] + labels[1..];
    }
  }

  lemma {:induction false} AfterWithin(buf: seq<byte>, here: nat, labels: seq<Label>, jumps: nat)
    requires Denotes(buf, here, labels, jumps)
    ensures After(buf, here) <= |buf|
    decreases |labels|
  {
    if buf[here] != 0 && buf[here] < COMPRESSED {
      AfterWithin(buf, here + 1 + buf[here], labels[1..], jumps);
    }
  }

  /** RFC 1035 gives the name at `here` a meaning, within the reader's caps of 128 labels and 64 pointers. */
  ghost predicate Meant(buf: seq<byte>, here: nat, labels: seq<Label>) {
    |labels| <= 128 && exists jumps: nat :: jumps <= 64 && Denotes(buf, here, labels, jumps)
  }

  /** The offset behind a name: behind the zero or the pointer that ends its labels there. */
  lemma {:induction false} AfterIs(buf: seq<byte>, here: nat)
    requires here < |buf|
    ensures buf[here] == 0 ==> After(buf, here) == here + 1
    ensures 0 < buf[here] < 64 ==> After(buf, here) == After(buf, here + 1 + buf[here])
    ensures buf[here] >= 192 ==> After(buf, here) == here + 2
  {
  }

  /** The error for what stands at the offset, when something is wrong there already. */
  lemma {:induction false} ErrorAt(buf: seq<byte>, offset: nat)
    ensures offset >= |buf| ==> Read(buf, offset) == Malformed(NamePastEnd)
    ensures offset < |buf| ==>
              var b := buf[offset];
              && (64 <= b < 192 ==> Read(buf, offset) == Malformed(ReservedLabel))
              && (0 < b < 64 && offset + 1 + b > |buf| ==> Read(buf, offset) == Malformed(LabelPastEnd))
              && (0 < b < 64 && offset + 1 + b == |buf| ==> Read(buf, offset) == Malformed(NamePastEnd))
              && (b >= 192 && offset + 1 == |buf| ==> Read(buf, offset) == Malformed(TruncatedPointer))
              && (b >= 192 && offset + 1 < |buf| && (b as int - 192) * 256 + buf[offset + 1] >= offset ==>
                    Read(buf, offset) == Malformed(PointerNotBackwards))
  {
    if offset < |buf| && 0 < buf[offset] < 64 && offset + 1 + buf[offset] == |buf| {
      assert Walk(buf, |buf|, 0, [] + [buf[offset + 1..|buf|]]) == Malformed(NamePastEnd);
    }
  }

  /**
   * `_read_name` succeeds on exactly the names that mean something, returns that meaning,
   * and leaves the next offset inside the buffer.
   */
  lemma {:induction false} ReadIff(buf: seq<byte>, offset: nat)
    ensures Read(buf, offset).Ok? <==> exists labels: seq<Label> :: Meant(buf, offset, labels)
    ensures Read(buf, offset).Ok? ==> offset < Read(buf, offset).value.next <= |buf|
    ensures forall labels: seq<Label> :: Meant(buf, offset, labels) ==>
              Read(buf, offset) == Ok(Name(Lower(Join(labels, 46)), After(buf, offset)))
  {
    if Walk(buf, offset, 0, []).Ok? {
      var labels, jumps := WalkSound(buf, offset, 0, []);
      assert Meant(buf, offset, labels);
      AfterWithin(buf, offset, labels, jumps);
    }
    forall labels: seq<Label> | Meant(buf, offset, labels)
      ensures Walk(buf, offset, 0, []) == Ok(labels)
    {
      var jumps: nat :| jumps <= 64 && Denotes(buf, offset, labels, jumps);
      WalkComplete(buf, offset, 0, [], labels, jumps);
      assert [] + labels == labels;
    }
  }

  // ---- the encoder ------------------------------------------------------------

  predicate IsSpace(b: byte) { b == 32 || 9 <= b <= 13 || 28 <= b <= 31 }

  function TrimLeft(s: seq<byte>): (r: seq<byte>)
    ensures |r| <= |s|
  {
    if s != [] && IsSpace(s[0]) then TrimLeft(s[1..]) else s
  }

  function TrimRight(s: seq<byte>): (r: seq<byte>)
    ensures |r| <= |s|
  {
    if s != [] && IsSpace(s[|s| - 1]) then TrimRight(s[..|s| - 1]) else s
  }

  function TrimDots(s: seq<byte>): (r: seq<byte>)
    ensures |r| <= |s|
  {
    if s != [] && s[|s| - 1] == DOT then TrimDots(s[..|s| - 1]) else s
  }

  /** `host.strip().rstrip(".")`. */
  function HostName(host: seq<byte>): seq<byte> { TrimDots(TrimRight(TrimLeft(host))) }

  predicate White(s: seq<byte>) {
    forall i :: 0 <= i < |s| ==> s[i] == 32 || 9 <= s[i] <= 13 || 28 <= s[i] <= 31
  }

  predicate Dots(s: seq<byte>) { forall i :: 0 <= i < |s| ==> s[i] == 46 }

  /**
   * All there is to a host's name: white space off both ends, and then dots off the end, up to a
   * character that is no dot.
   */
  lemma {:induction false} HostNameIs(front: seq<byte>, name: seq<byte>, dots: seq<byte>, back: seq<byte>)
    requires White(front) && Dots(dots) && White(back)
    requires name != [] ==> !White([name[0]]) && name[|name| - 1] != 46
    requires name != [] && dots == [] ==> !White([name[|name| - 1]])
    ensures HostName(front + (name + dots + back)) == name
  {
    var rest := name + dots + back;
    var whole := name + dots;
    if whole == [] {
      assert rest == back;
      WhiteOff(front + back);
      assert front + rest == front + back && White(front + back);
    } else {
      assert !IsSpace(rest[0]) by { NoWhite(whole[0]); }
      FrontOff(front, rest);
      assert !IsSpace(whole[|whole| - 1]) by {
        NoWhite(whole[|whole| - 1]);
        assert whole[|whole| - 1] == if dots == [] then name[|name| - 1] else dots[|dots| - 1];
      }
      BackOff(whole, back);
      assert rest == whole + back;
      DotsOff(name, dots);
    }
  }

  lemma {:induction false} NoWhite(b: byte)
    ensures White([b]) <==> IsSpace(b)
  {
    assert [b][0] == b;
  }

  lemma {:induction false} FrontOff(front: seq<byte>, rest: seq<byte>)
    requires White(front) && rest != [] && !IsSpace(rest[0])
    ensures TrimLeft(front + rest) == rest
  {
    if front == [] {
      assert front + rest == rest;
    } else {
      assert (front + rest)[1..] == front[1..] + rest;
      FrontOff(front[1..], rest);
    }
  }

  lemma {:induction false} BackOff(whole: seq<byte>, back: seq<byte>)
    requires White(back) && whole != [] && !IsSpace(whole[|whole| - 1])
    ensures TrimRight(whole + back) == whole
  {
    if back == [] {
      assert whole + back == whole;
    } else {
      assert (whole + back)[..|whole + back| - 1] == whole + back[..|back| - 1];
      BackOff(whole, back[..|back| - 1]);
    }
  }

  lemma {:induction false} DotsOff(name: seq<byte>, dots: seq<byte>)
    requires Dots(dots) && (name != [] ==> name[|name| - 1] != 46)
    ensures TrimDots(name + dots) == name
  {
    if dots == [] {
      assert name + dots == name;
    } else {
      assert (name + dots)[..|name + dots| - 1] == name + dots[..|dots| - 1];
      DotsOff(name, dots[..|dots| - 1]);
    }
  }

  lemma {:induction false} WhiteOff(s: seq<byte>)
    requires White(s)
    ensures TrimLeft(s) == [] && HostName(s) == []
  {
    if s != [] {
      WhiteOff(s[1..]);
    }
  }

  predicate GoodLabel(l: Label) { 0 < |l| < 64 }

  /** The labels on the wire, each behind its length, and the root's zero. */
  function Wire(labels: seq<Label>): (w: seq<byte>)
    requires forall l :: l in labels ==> GoodLabel(l)
  {
    if labels == [] then [0]
    else
      assert GoodLabel(labels[0]);
      var length: byte := |labels[0]|;
      [length] + (labels[0] + Wire(labels[1..]))
  }

  /** What `_encode_name` returns for an ASCII host. */
  function Encode(host: seq<byte>): Result<seq<byte>> {
    var name := HostName(host);
    if name == [] then Malformed(EmptyHost)
    else
      var labels := Split(name, DOT);
      if exists l :: l in labels && !GoodLabel(l) then Malformed(BadLabelLength)
      else if |Wire(labels)| > 255 then Malformed(NameTooLong)
      else Ok(Wire(labels))
  }

  lemma {:induction false} WireAppend(labels: seq<Label>, last: Label)
    requires (forall l :: l in labels ==> GoodLabel(l)) && GoodLabel(last)
    requires forall l :: l in labels + [last] ==> GoodLabel(l)
    ensures Wire(labels) != [] && |Wire(labels)| >= 1
    ensures Wire(labels + [last]) == Wire(labels)[..|Wire(labels)| - 1] + [|last|] + last + [0]
  {
    if labels == [] {
      assert labels + [last] == [last] && [last][1..] == [];
    } else {
      var rest := labels[1..];
      WireAppend(rest, last);
      assert (labels + [last])[1..] == rest + [last];
      var w := Wire(rest);
      assert Wire(labels)[..|Wire(labels)| - 1] == [|labels[0]|] + labels[0] + w[..|w| - 1];
    }
  }

  /** `_encode_name`, which checks each label as it appends it. */
  method EncodeName(host: seq<byte>) returns (r: Result<seq<byte>>)
    ensures r == Encode(host)
  {
    var name := HostName(host);
    if name == [] {
      return Malformed(EmptyHost);
    }
    var labels := Split(name, DOT);
    var out: seq<byte> := [];
    for i := 0 to |labels|
      invariant forall k :: 0 <= k < i ==> GoodLabel(labels[k])
      invariant forall l :: l in labels[..i] ==> GoodLabel(l)
      invariant out + [0] == Wire(labels[..i])
    {
      var raw := labels[i];
      if !GoodLabel(raw) {
        return Malformed(BadLabelLength);
      }
      assert labels[..i + 1] == labels[..i] + [raw];
      WireAppend(labels[..i], raw);
      assert out == (out + [0])[..|out|];
      out := out + [|raw|];
      out := out + raw;
    }
    assert labels[..|labels|] == labels;
    out := out + [0];
    if |out| > 255 {
      return Malformed(NameTooLong);
    }
    return Ok(out);
  }

  // ---- the round trip ----------------------------------------------------------

  /** The buffer holds these labels, uncompressed, and the root at `i`. */
  ghost predicate HoldsLabels(buf: seq<byte>, i: nat, labels: seq<Label>)
    decreases |labels|
  {
    && i < |buf|
    && if labels == [] then buf[i] == 0
       else
         && GoodLabel(labels[0]) && buf[i] == |labels[0]| && At(buf, i + 1, labels[0])
         && HoldsLabels(buf, i + 1 + |labels[0]|, labels[1..])
  }

  lemma {:induction false} WireHeld(buf: seq<byte>, i: nat, labels: seq<Label>)
    requires (forall l :: l in labels ==> GoodLabel(l)) && At(buf, i, Wire(labels))
    ensures HoldsLabels(buf, i, labels)
    decreases |labels|
  {
    if labels == [] {
      AtOne(buf, i, 0);
    } else {
      assert GoodLabel(labels[0]);
      AtParts3(buf, i, [|labels[0]|], labels[0], Wire(labels[1..]));
      AtOne(buf, i, |labels[0]|);
      WireHeld(buf, i + 1 + |labels[0]|, labels[1..]);
    }
  }

  lemma {:induction false} LabelsRead(buf: seq<byte>, i: nat, labels: seq<Label>)
    requires HoldsLabels(buf, i, labels) && forall l :: l in labels ==> GoodLabel(l)
    ensures Denotes(buf, i, labels, 0) && After(buf, i) == i + |Wire(labels)|
    decreases |labels|
  {
    if labels != [] {
      var next := i + 1 + |labels[0]|;
      AtSlice(buf, i + 1, next, labels[0]);
      LabelsRead(buf, next, labels[1..]);
    }
  }

  /** Each label takes at least two bytes, so 255 bytes hold at most 127 of them. */
  lemma {:induction false} WireLength(labels: seq<Label>)
    requires forall l :: l in labels ==> GoodLabel(l)
    ensures |Wire(labels)| >= 2 * |labels| + 1
    ensures labels != [] ==> |Wire(labels)| == |Join(labels, DOT)| + 2
  {
    if labels != [] {
      WireLength(labels[1..]);
      assert |labels| == 1 ==> labels[1..] == [];
      assert GoodLabel(labels[0]);
    }
  }

  /** A buffer that spells the wire form of `host` out at offset `i`. */
  ghost predicate NameAt(buf: seq<byte>, i: nat, host: seq<byte>) {
    Encode(host).Ok? && At(buf, i, Encode(host).value)
  }

  lemma {:induction false} NameAtDenotes(buf: seq<byte>, i: nat, host: seq<byte>) returns (labels: seq<Label>)
    requires NameAt(buf, i, host)
    ensures Denotes(buf, i, labels, 0) && |labels| <= 127
    ensures Lower(Join(labels, DOT)) == Lower(HostName(host))
    ensures After(buf, i) == i + |Encode(host).value|
  {
    labels := Split(HostName(host), DOT);
    WireHeld(buf, i, labels);
    LabelsRead(buf, i, labels);
    WireLength(labels);
    JoinSplit(HostName(host), DOT);
  }

  lemma {:induction false} NameRead(buf: seq<byte>, i: nat, host: seq<byte>)
    requires NameAt(buf, i, host)
    ensures Read(buf, i) == Ok(Name(Lower(HostName(host)), i + |Encode(host).value|))
  {
    var labels := NameAtDenotes(buf, i, host);
    WalkComplete(buf, i, 0, [], labels, 0);
    assert [] + labels == labels;
  }

  /**
   * The wire round trip: what `_encode_name` accepts, `_read_name` reads back wherever it
   * stands, as the name in lower case, with every byte of it consumed.
   */
  lemma {:induction false} EncodeRead(before: seq<byte>, host: seq<byte>, after: seq<byte>)
    requires Encode(host).Ok?
    ensures Read(before + Encode(host).value + after, |before|)
         == Ok(Name(Lower(HostName(host)), |before| + |Encode(host).value|))
  {
    var q := Encode(host).value;
    var buf := before + q + after;
    assert At(buf, |before|, q);
    NameRead(buf, |before|, host);
  }

  /** The protocol's limits, in terms of the name: 253 characters, labels of 1 to 63. */
  lemma {:induction false} EncodeIff(host: seq<byte>)
    ensures Encode(host).Ok? <==>
            && |HostName(host)| <= 253
            && forall l :: l in Split<byte>(HostName(host), 46) ==> 1 <= |l| <= 63
    ensures Encode(host).Ok? ==> |Encode(host).value| == |HostName(host)| + 2
    ensures Encode(host) == Malformed(EmptyHost) <==> HostName(host) == []
    ensures Encode(host) == Malformed(BadLabelLength) <==>
              HostName(host) != [] && exists l :: l in Split<byte>(HostName(host), 46) && !(1 <= |l| <= 63)
  {
    var name := HostName(host);
    var labels := Split(name, DOT);
    if name == [] {
      assert labels[0] in labels;
      assert !GoodLabel(labels[0]);
    } else if forall l :: l in labels ==> GoodLabel(l) {
      WireLength(labels);
      JoinSplit(name, DOT);
    }
  }

  /** A pointer to such a name, from anywhere after it, reads as the same name in two bytes. */
  lemma {:induction false} PointerRead(buf: seq<byte>, at: nat, target: nat, host: seq<byte>)
    requires NameAt(buf, target, host)
    requires target < at && at + 1 < |buf| && buf[at] >= 192
    requires (buf[at] as int - 192) * 256 + buf[at + 1] == target
    ensures Read(buf, at) == Ok(Name(Lower(HostName(host)), at + 2))
  {
    var labels := NameAtDenotes(buf, target, host);
    assert Denotes(buf, at, labels, 1);
    WalkComplete(buf, at, 0, [], labels, 1);
    assert [] + labels == labels;
  }

  // ---- backward pointers alone do not stop a loop ---------------------------------

  /** A label `a`, and a pointer back to it. */
  const CYCLE: seq<byte> := [1, 97, 192, 0]

  lemma {:induction false} CycleDenotesNothing(labels: seq<Label>, jumps: nat)
    ensures !Denotes(CYCLE, 0, labels, jumps)
    decreases jumps
  {
    if Denotes(CYCLE, 0, labels, jumps) {
      assert Denotes(CYCLE, 2, labels[1..], jumps);
      CycleDenotesNothing(labels[1..], jumps - 1);
    }
  }

  lemma {:induction false} CycleWalk(jumps: nat, acc: seq<Label>)
    requires jumps <= MAX_POINTER_JUMPS && |acc| == jumps
    ensures Walk(CYCLE, 0, jumps, acc) == Malformed(TooManyPointers)
    decreases MAX_POINTER_JUMPS - jumps
  {
    var acc' := acc + [CYCLE[1..2]];
    assert Walk(CYCLE, 0, jumps, acc) == Walk(CYCLE, 2, jumps, acc');
    if jumps < MAX_POINTER_JUMPS {
      CycleWalk(jumps + 1, acc');
    }
  }

  /** Every pointer of this name points backwards, it has no meaning, and only the cap says so. */
  lemma {:induction false} BackwardPointersCanCycle()
    ensures Read(CYCLE, 0) == Malformed(TooManyPointers)
    ensures forall labels, jumps: nat :: !Denotes(CYCLE, 0, labels, jumps)
  {
    CycleWalk(0, []);
    forall labels, jumps: nat ensures !Denotes(CYCLE, 0, labels, jumps) {
      CycleDenotesNothing(labels, jumps);
    }
  }
}
