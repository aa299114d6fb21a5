/**
 * The text of an automated issue (`src/trackers/issues.py`): the marker that names its
 * condition, and the cut that keeps a body under the cap without splitting a character.
 */
module IssueText {
  import opened Bytes
  import opened Text
  import opened Lines

  const MAX_BODY_BYTES := 8000
  const MARKER_PREFIX := "<!-- trackers-condition: "
  const NOTICE_LINE := "[truncated: the" + " evidence exceeded" + " the issue body cap]"
  const NOTICE := "\n" + ("\n" + NOTICE_LINE + "\n")

  // ---- UTF-8 (RFC 3629, section 3) ---------------------------------------------------------

  function EncodeChar(c: char): (bs: seq<byte>)
    ensures 1 <= |bs| <= 4
  {
    var p := c as int;
    var hi := p / 64;
    var top := hi / 64;
    if p < 0x80 then [p]
    else if p < 0x800 then [0xC0 + hi, 0x80 + p % 64]
    else if p < 0x10000 then [0xE0 + top, 0x80 + hi % 64, 0x80 + p % 64]
    else [0xF0 + top / 64, 0x80 + top % 64, 0x80 + hi % 64, 0x80 + p % 64]
  }

  /** `s.encode("utf-8")`. */
  function Encode(s: string): seq<byte> {
    if s == [] then [] else EncodeChar(s[0]) + Encode(s[1..])
  }

  predicate Tail(bs: seq<byte>, i: nat) { i < |bs| && 0x80 <= bs[i] <= 0xBF }

  /** One more continuation byte behind what was read. */
  function More(high: int, bs: seq<byte>, i: nat): int
    requires i < |bs|
  {
    high * 64 + ((bs[i] as int) - 0x80)
  }

  predicate IsScalar(p: int) { 0 <= p < 0xD800 || 0xE000 <= p < 0x110000 }

  /** A character and how many bytes spell it. */
  datatype Glyph = Glyph(ch: char, width: nat)

  /** The character the bytes start with, in the only form RFC 3629 allows it. */
  function Head(bs: seq<byte>): (r: Option<Glyph>)
    ensures r.Some? ==> 1 <= r.value.width <= |bs|
  {
    if bs == [] then None
    else
      var lead: int := bs[0];
      if lead < 0x80 then Some(Glyph(lead as char, 1))
      else if 0xC2 <= lead <= 0xDF && Tail(bs, 1) then Some(Glyph(More(lead - 0xC0, bs, 1) as char, 2))
      else if 0xE0 <= lead <= 0xEF && Tail(bs, 1) && Tail(bs, 2) then
        var p := More(More(lead - 0xE0, bs, 1), bs, 2);
        if p < 0x800 || !IsScalar(p) then None else Some(Glyph(p as char, 3))
      else if 0xF0 <= lead <= 0xF4 && Tail(bs, 1) && Tail(bs, 2) && Tail(bs, 3) then
        var p := More(More(More(lead - 0xF0, bs, 1), bs, 2), bs, 3);
        if p < 0x10000 || !IsScalar(p) then None else Some(Glyph(p as char, 4))
      else None
  }

  lemma {:induction false} HeadOfEncoded(c: char, rest: seq<byte>)
    ensures Head(EncodeChar(c) + rest) == Some(Glyph(c, |EncodeChar(c)|))
  {
    var p := c as int;
    var hi := p / 64;
    var top := hi / 64;
    var bs := EncodeChar(c) + rest;
    if 0x80 <= p < 0x800 {
      assert Tail(bs, 1) && More(hi, bs, 1) == p;
    } else if 0x800 <= p < 0x10000 {
      assert Tail(bs, 1) && More(top, bs, 1) == hi;
      assert Tail(bs, 2) && More(hi, bs, 2) == p;
    } else if 0x10000 <= p {
      assert Tail(bs, 1) && More(top / 64, bs, 1) == top;
      assert Tail(bs, 2) && More(top, bs, 2) == hi;
      assert Tail(bs, 3) && More(hi, bs, 3) == p;
    }
  }

  /** The table of RFC 3629: how many bytes, what the first may be, and the bits of each. */
  lemma {:induction false} Utf8Is(c: char)
    ensures var p, bs := c as int, EncodeChar(c);
            && (|bs| == 1 <==> p < 0x80) && (|bs| == 2 <==> 0x80 <= p < 0x800)
            && (|bs| == 3 <==> 0x800 <= p < 0x1_0000) && (|bs| == 4 <==> 0x1_0000 <= p)
            && (forall i :: 0 < i < |bs| ==> 0x80 <= bs[i] <= 0xBF)
            && (|bs| == 1 ==> bs[0] == p)
            && (|bs| == 2 ==> 0xC2 <= bs[0] <= 0xDF && p == (bs[0] as int - 0xC0) * 64 + (bs[1] as int - 0x80))
            && (|bs| == 3 ==> 0xE0 <= bs[0] <= 0xEF
                              && p == (bs[0] as int - 0xE0) * 4096 + (bs[1] as int - 0x80) * 64
                                        + (bs[2] as int - 0x80))
            && (|bs| == 4 ==> 0xF0 <= bs[0] <= 0xF4
                              && p == (bs[0] as int - 0xF0) * 262144 + (bs[1] as int - 0x80) * 4096
                                        + (bs[2] as int - 0x80) * 64 + (bs[3] as int - 0x80))
  {
  }

  /** The decoder sees a character exactly where the encoding of one stands. */
  lemma {:induction false} HeadIff(bs: seq<byte>)
    ensures Head(bs).Some? <==> exists c: char :: EncodeChar(c) <= bs
    ensures forall c: char :: EncodeChar(c) <= bs ==> Head(bs) == Some(Glyph(c, |EncodeChar(c)|))
  {
    forall c: char | EncodeChar(c) <= bs ensures Head(bs) == Some(Glyph(c, |EncodeChar(c)|)) {
      HeadOfEncoded(c, bs[|EncodeChar(c)|..]);
      assert bs == EncodeChar(c) + bs[|EncodeChar(c)|..];
    }
    if Head(bs).Some? {
      var g := Head(bs).value;
      HeadEncodes(bs);
      assert EncodeChar(g.ch) <= bs;
    }
  }

  lemma {:induction false} HeadEncodes(bs: seq<byte>)
    requires Head(bs).Some?
    ensures EncodeChar(Head(bs).value.ch) == bs[..Head(bs).value.width]
  {
    var g := Head(bs).value;
    if g.width == 1 {
      assert bs[..1] == [bs[0]];
    } else if g.width == 2 {
      TwoEncode(g.ch, bs[0], bs[1]);
      assert bs[..2] == [bs[0], bs[1]];
    } else if g.width == 3 {
      ThreeEncode(g.ch, bs[0], bs[1], bs[2]);
      assert bs[..3] == [bs[0], bs[1], bs[2]];
    } else {
      FourEncode(g.ch, bs[0], bs[1], bs[2], bs[3]);
      assert bs[..4] == [bs[0], bs[1], bs[2], bs[3]];
    }
  }

  lemma {:induction false} TwoEncode(ch: char, a: byte, b: byte)
    requires 0xC2 <= a <= 0xDF && 0x80 <= b <= 0xBF && ch as int == (a as int - 0xC0) * 64 + (b as int - 0x80)
    ensures EncodeChar(ch) == [a, b]
  {
  }

  lemma {:induction false} ThreeEncode(ch: char, a: byte, b: byte, c: byte)
    requires 0xE0 <= a <= 0xEF && 0x80 <= b <= 0xBF && 0x80 <= c <= 0xBF && ch as int >= 0x800
    requires ch as int == ((a as int - 0xE0) * 64 + (b as int - 0x80)) * 64 + (c as int - 0x80)
    ensures EncodeChar(ch) == [a, b, c]
  {
  }

  lemma {:induction false} FourEncode(ch: char, a: byte, b: byte, c: byte, d: byte)
    requires 0xF0 <= a <= 0xF4 && 0x80 <= b <= 0xBF && 0x80 <= c <= 0xBF && 0x80 <= d <= 0xBF
    requires ch as int >= 0x10000
    requires ch as int
          == (((a as int - 0xF0) * 64 + (b as int - 0x80)) * 64 + (c as int - 0x80)) * 64 + (d as int - 0x80)
    ensures EncodeChar(ch) == [a, b, c, d]
  {
    var first, second, third, fourth := a as int - 0xF0, b as int - 0x80, c as int - 0x80, d as int - 0x80;
    By64(first, second);
    By64(first * 64 + second, third);
    By64((first * 64 + second) * 64 + third, fourth);
  }

  lemma {:induction false} By64(q: int, r: int)
    requires 0 <= r < 64
    ensures (q * 64 + r) / 64 == q && (q * 64 + r) % 64 == r
  {
  }

  lemma {:induction false} HeadUnfinished(c: char, n: nat)
    requires 0 < n < |EncodeChar(c)|
    ensures Head(EncodeChar(c)[..n]) == None
    ensures forall i :: 0 < i < n ==> 0x80 <= EncodeChar(c)[i] <= 0xBF
  {
  }

  /** `bs.decode("utf-8", "ignore")`. */
  function DecodeIgnoring(bs: seq<byte>): string {
    if bs == [] then []
    else match Head(bs)
      case Some(g) => [g.ch] + DecodeIgnoring(bs[g.width..])
      case None => DecodeIgnoring(bs[1..])
  }

  lemma {:induction false} TailsDecodeToNothing(bs: seq<byte>)
    requires forall i :: 0 <= i < |bs| ==> 0x80 <= bs[i] <= 0xBF
    ensures DecodeIgnoring(bs) == []
  {
    if bs != [] {
      TailsDecodeToNothing(bs[1..]);
    }
  }

  /** How many whole characters fit in `n` bytes. */
  function Fits(s: string, n: nat): (k: nat)
    ensures k <= |s|
  {
    if s == [] || |EncodeChar(s[0])| > n then 0 else 1 + Fits(s[1..], n - |EncodeChar(s[0])|)
  }

  lemma {:induction false} FitsIsMost(s: string, n: nat)
    ensures |Encode(s[..Fits(s, n)])| <= n
    ensures Fits(s, n) < |s| ==> |Encode(s[..Fits(s, n) + 1])| > n
  {
    if s != [] {
      var m := |EncodeChar(s[0])|;
      if m <= n {
        var k := Fits(s[1..], n - m);
        FitsIsMost(s[1..], n - m);
        assert s[..k + 1][1..] == s[1..][..k];
        if k < |s[1..]| {
          assert s[..k + 2][1..] == s[1..][..k + 1];
        }
      } else {
        assert s[..1] == [s[0]] && [s[0]][1..] == [];
      }
    }
  }

  /** Bytes cut anywhere decode to the whole characters before the cut, and nothing else. */
  lemma {:induction false} DecodeCut(s: string, n: nat)
    requires n <= |Encode(s)|
    ensures DecodeIgnoring(Encode(s)[..n]) == s[..Fits(s, n)]
  {
    if s != [] && n > 0 {
      var e := EncodeChar(s[0]);
      var m := |e|;
      var cut := Encode(s)[..n];
      if m <= n {
        DecodeCut(s[1..], n - m);
        var rest := Encode(s[1..])[..n - m];
        assert cut == e + rest && cut[m..] == rest;
        HeadOfEncoded(s[0], rest);
        assert [s[0]] + s[1..][..Fits(s[1..], n - m)] == s[..Fits(s, n)];
      } else {
        assert cut == e[..n];
        HeadUnfinished(s[0], n);
        TailsDecodeToNothing(cut[1..]);
      }
    }
  }

  lemma {:induction false} EncodeAppend(a: string, b: string)
    ensures Encode(a + b) == Encode(a) + Encode(b)
  {
    hide EncodeChar;
    if a == [] {
      assert a + b == b;
    } else {
      EncodeAppend(a[1..], b);
      assert (a + b)[1..] == a[1..] + b;
    }
  }

  lemma {:induction false} EncodedLength(s: string)
    ensures |s| <= |Encode(s)| <= 4 * |s|
  {
    if s != [] {
      EncodedLength(s[1..]);
    }
  }

  // ---- the cut ---------------------------------------------------------------------------

  /** `bs[:n]`, where a negative `n` counts from the end. */
  function Take(bs: seq<byte>, n: int): seq<byte> {
    if n > |bs| then bs
    else if n >= 0 then bs[..n]
    else if |bs| + n > 0 then bs[..|bs| + n]
    else []
  }

  function Clamp(body: string, limit: int): string {
    var raw := Encode(body);
    if |raw| <= limit then body
    else
      var room := limit - |Encode(NOTICE)|;
      DecodeIgnoring(Take(raw, room)) + NOTICE
  }

  /** Bytes of the text that are kept: what the notice leaves, or, if it leaves less than none, all but so many. */
  function Kept(size: nat, limit: int, notice: nat): nat {
    if limit >= notice then limit - notice else if size + limit > notice then size + limit - notice else 0
  }

  /** A cut body is the most whole characters that fit in what is kept, then the notice, for every limit. */
  lemma {:induction false} ClampKeepsPrefix(body: string, limit: int)
    requires |Encode(body)| > limit
    ensures var room := Kept(|Encode(body)|, limit, |Encode(NOTICE)|);
            var k := Fits(body, room);
            && Clamp(body, limit) == body[..k] + NOTICE
            && |Encode(body[..k])| <= room
            && (k < |body| ==> |Encode(body[..k + 1])| > room)
  {
    hide Encode, Fits;
    var room := Kept(|Encode(body)|, limit, |Encode(NOTICE)|);
    assert room <= |Encode(body)|;
    assert Take(Encode(body), limit - |Encode(NOTICE)|) == Encode(body)[..room];
    DecodeCut(body, room);
    FitsIsMost(body, room);
  }

  /** The result is within the limit exactly when nothing was cut or the limit holds the notice. */
  lemma {:induction false} ClampWithinLimit(body: string, limit: int)
    ensures |Encode(Clamp(body, limit))| <= limit <==> |Encode(body)| <= limit || limit >= |Encode(NOTICE)|
  {
    hide Encode, Fits, DecodeIgnoring;
    if |Encode(body)| > limit {
      EncodeAppend(DecodeIgnoring(Take(Encode(body), limit - |Encode(NOTICE)|)), NOTICE);
      if limit >= |Encode(NOTICE)| {
        ClampKeepsPrefix(body, limit);
        EncodeAppend(body[..Fits(body, limit - |Encode(NOTICE)|)], NOTICE);
      }
    }
  }

  /** Two characters cut to one byte come out as the whole notice. */
  lemma {:induction false} ClampOvershoots()
    ensures Clamp("ab", 1) == NOTICE && |Encode(Clamp("ab", 1))| > 1
  {
    hide Encode;
    EncodedLength(NOTICE);
    EncodedLength("ab");
    assert 1 < |"ab"| <= |Encode("ab")| <= 8 && |NOTICE| > 20;
    assert Take(Encode("ab"), 1 - |Encode(NOTICE)|) == [];
    assert DecodeIgnoring([]) == "";
  }

  // ---- the marker -------------------------------------------------------------------------

  function MarkerFor(key: string): string { MARKER_PREFIX + key + " -->" }

  predicate EndsMarker(s: string) { |s| >= 3 && s[|s| - 3..] == "-->" }

  /** The key on a line that carries one. */
  function KeyOnLine(line: string): Option<string> {
    if !(MARKER_PREFIX <= line && EndsMarker(TrimRight(line))) then None
    else
      var rest := TrimRight(line[|MARKER_PREFIX|..]);
      Some(Trim(if |rest| < 3 then "" else rest[..|rest| - 3]))
  }

  lemma {:induction false} TrimRightBehind(a: string, b: string)
    ensures TrimRight(a + b) == if TrimRight(b) != [] then a + TrimRight(b) else TrimRight(a)
  {
    hide IsSpace;
    if b == [] {
      assert a + b == a;
    } else {
      var n := |b| - 1;
      assert (a + b)[..|a + b| - 1] == a + b[..n];
      TrimRightBehind(a, b[..n]);
    }
  }

  lemma {:induction false} PrefixEnds()
    ensures |MARKER_PREFIX| >= 3
    ensures MARKER_PREFIX[|MARKER_PREFIX| - 1] == ' '
    ensures TrimRight(MARKER_PREFIX) == MARKER_PREFIX[..|MARKER_PREFIX| - 1]
    ensures !EndsMarker(MARKER_PREFIX[..|MARKER_PREFIX| - 1])
  {
    var n := |MARKER_PREFIX|;
    var p := MARKER_PREFIX[..n - 1];
    assert MARKER_PREFIX[n - 1] == ' ' && p[n - 2] == ':' && IsSpace(' ') && !IsSpace(':');
    assert p[|p| - 3..][2] == ':';
  }

  lemma {:induction false} ShortNoMarker(a: string, r: string)
    requires |a| >= 3 && a[|a| - 1] == ' ' && 0 < |r| < 3
    ensures !EndsMarker(a + r) && !EndsMarker(r)
  {
    var whole := a + r;
    assert whole[|whole| - 3..][2 - |r|] == ' ';
  }

  lemma {:induction false} LongMarker(a: string, r: string)
    requires |r| >= 3
    ensures EndsMarker(a + r) <==> EndsMarker(r)
  {
    assert (a + r)[|a + r| - 3..] == r[|r| - 3..];
  }

  /** What stands behind the prefix of a line that ends as a marker does. */
  lemma {:induction false} MarkerBehind(rest: string)
    ensures EndsMarker(TrimRight(MARKER_PREFIX + rest)) <==> EndsMarker(TrimRight(rest))
  {
    hide TrimRight, EndsMarker;
    var r := TrimRight(rest);
    TrimRightBehind(MARKER_PREFIX, rest);
    PrefixEnds();
    if r == [] {
      NothingEnds();
    } else if |r| < 3 {
      ShortNoMarker(MARKER_PREFIX, r);
    } else {
      LongMarker(MARKER_PREFIX, r);
    }
  }

  lemma {:induction false} NothingEnds()
    ensures !EndsMarker([])
  {
  }

  lemma {:induction false} PrefixSpelled()
    ensures MARKER_PREFIX == "<!-- " + ("trackers-" + ("condition: "))
  {
  }

  /** A line that is a marker: the prefix, some text, the closing arrow, and white space behind it. */
  ghost predicate MarkerLine(line: string, middle: string, white: string) {
    AllWhite(white) && line == MARKER_PREFIX + (middle + "-->" + white)
  }

  /** A line with a key is a marker, and the key is its text, stripped... */
  lemma {:induction false} KeyOfMarker(line: string) returns (middle: string, white: string)
    requires KeyOnLine(line).Some?
    ensures MarkerLine(line, middle, white) && KeyOnLine(line) == Some(Trim(middle))
  {
    hide Trim, IsSpace, TrimRight;
    var rest := line[|MARKER_PREFIX|..];
    assert line == MARKER_PREFIX + rest;
    MarkerBehind(rest);
    var r := TrimRight(rest);
    middle, white := r[..|r| - 3], rest[|r|..];
    TrimRightDropsSpace(rest);
    assert rest == middle + "-->" + white;
  }

  /** ...and every such line has it. */
  lemma {:induction false} MarkerHasKey(line: string, middle: string, white: string)
    requires MarkerLine(line, middle, white)
    ensures KeyOnLine(line) == Some(Trim(middle))
  {
    hide Trim, IsSpace;
    var rest := middle + "-->" + white;
    assert line[|MARKER_PREFIX|..] == rest;
    ArrowEnds(middle, white);
    MarkerBehind(rest);
    assert (middle + "-->")[..|middle|] == middle;
  }

  lemma {:induction false} ArrowEnds(middle: string, white: string)
    requires AllWhite(white)
    ensures TrimRight(middle + "-->" + white) == middle + "-->" && EndsMarker(middle + "-->")
  {
    WhiteTrimsRight(white);
    TrimRightBehind(middle + "-->", white);
    assert (middle + "-->")[|middle|..] == "-->";
    assert (middle + "-->")[|middle| + 2] == '>';
  }

  lemma {:induction false} WhiteTrimsRight(s: string)
    requires AllWhite(s)
    ensures TrimRight(s) == []
  {
    hide IsSpace;
    if s != [] {
      assert s[|s| - 1] in s;
      assert forall c :: c in s[..|s| - 1] ==> c in s;
      WhiteTrimsRight(s[..|s| - 1]);
    }
  }

  /** The key of a body: that of the first line that has one. */
  lemma {:induction false} FirstKeyIs(lines: seq<string>)
    ensures FirstKey(lines) == None <==> forall i :: 0 <= i < |lines| ==> KeyOnLine(lines[i]) == None
    ensures FirstKey(lines).Some? ==>
              exists i :: 0 <= i < |lines| && KeyOnLine(lines[i]) == FirstKey(lines)
                          && forall j :: 0 <= j < i ==> KeyOnLine(lines[j]) == None
  {
    hide KeyOnLine;
    if lines != [] {
      FirstKeyIs(lines[1..]);
      assert forall i :: 0 < i < |lines| ==> lines[i] == lines[1..][i - 1];
      assert forall i :: 0 <= i < |lines| - 1 ==> lines[1..][i] == lines[i + 1];
      if KeyOnLine(lines[0]) == None && FirstKey(lines).Some? {
        var i :| 0 <= i < |lines| - 1 && KeyOnLine(lines[1..][i]) == FirstKey(lines)
                 && forall j :: 0 <= j < i ==> KeyOnLine(lines[1..][j]) == None;
        assert KeyOnLine(lines[i + 1]) == FirstKey(lines);
        assert forall j :: 0 <= j < i + 1 ==> KeyOnLine(lines[j]) == None;
      }
    }
  }

  function FirstKey(lines: seq<string>): Option<string> {
    if lines == [] then None
    else if KeyOnLine(lines[0]).Some? then KeyOnLine(lines[0])
    else FirstKey(lines[1..])
  }

  function KeyOf(body: string): Option<string> { FirstKey(SplitLines(body)) }

  /** The loop in `key_of`. */
  method ReadKey(body: string) returns (key: Option<string>)
    ensures key == KeyOf(body)
  {
    var lines := SplitLines(body);
    for i := 0 to |lines|
      invariant FirstKey(lines[i..]) == KeyOf(body)
    {
      assert lines[i..][1..] == lines[i + 1..];
      key := KeyOnLine(lines[i]);
      if key.Some? {
        return;
      }
    }
    return None;
  }

  predicate Trimmed(s: string) { s == [] || (!IsSpace(s[0]) && !IsSpace(s[|s| - 1])) }

  lemma {:induction false} TrimTrims(s: string)
    ensures Trimmed(Trim(s))
    ensures Trimmed(s) ==> Trim(s) == s
    ensures forall c :: c in Trim(s) ==> c in s
  {
    TrimLeftSuffix(s);
  }

  lemma {:induction false} TrimLeftSuffix(s: string)
    ensures forall c :: c in TrimLeft(s) ==> c in s
  {
    if s != [] && IsSpace(s[0]) {
      TrimLeftSuffix(s[1..]);
    }
  }

  /** Whatever key a body carries is trimmed and sits on one line. */
  lemma {:induction false} KeysAreClean(lines: seq<string>)
    requires forall l :: l in lines ==> BreakFree(l)
    ensures FirstKey(lines).Some? ==> Trimmed(FirstKey(lines).value) && BreakFree(FirstKey(lines).value)
  {
    if lines != [] {
      assert lines[0] in lines;
      KeysAreClean(lines[1..]);
      if KeyOnLine(lines[0]).Some? {
        var rest := TrimRight(lines[0][|MARKER_PREFIX|..]);
        TrimTrims(if |rest| < 3 then "" else rest[..|rest| - 3]);
        assert forall c :: c in rest ==> c in lines[0];
      }
    }
  }

  lemma {:induction false} EndsInArrow(s: string)
    ensures EndsMarker(s + "-->") && TrimRight(s + "-->") == s + "-->"
  {
    var t := s + "-->";
    assert t[|t| - 1] == '>';
  }

  lemma {:induction false} MarkerOnOneLine(key: string)
    requires BreakFree(key)
    ensures BreakFree(MarkerFor(key))
  {
    assert BreakFree(MARKER_PREFIX) && BreakFree(" -->");
    hide IsBreak;
    forall c | c in MarkerFor(key) ensures !IsBreak(c) {
      assert c in MARKER_PREFIX || c in key || c in " -->";
    }
  }

  lemma {:induction false} KeyOnMarker(key: string)
    requires Trimmed(key)
    ensures KeyOnLine(MarkerFor(key)) == Some(key)
  {
    hide Trim, TrimRight, EndsMarker, Trimmed;
    var line := MarkerFor(key);
    EndsInArrow(MARKER_PREFIX + key + " ");
    assert line == MARKER_PREFIX + key + " " + "-->";
    var rest := line[|MARKER_PREFIX|..];
    assert rest == key + " " + "-->";
    EndsInArrow(key + " ");
    assert rest[..|rest| - 3] == key + " ";
    PaddedTrims(key);
  }

  lemma {:induction false} PaddedTrims(key: string)
    requires Trimmed(key)
    ensures Trim(key + " ") == key
  {
    var padded := key + " ";
    if key == "" {
      assert TrimLeft(padded) == TrimLeft(padded[1..]) == "";
    } else {
      assert TrimLeft(padded) == padded;
      assert IsSpace(padded[|padded| - 1]) && padded[..|padded| - 1] == key;
      assert TrimRight(padded) == TrimRight(key) == key;
    }
  }

  lemma {:induction false} CleanKey(body: string)
    ensures KeyOf(body).Some? ==> Trimmed(KeyOf(body).value) && BreakFree(KeyOf(body).value)
  {
    LinesAreBreakFree(body);
    KeysAreClean(SplitLines(body));
  }

  /** A marker on the first line is read back exactly when its key is trimmed and on one line. */
  lemma {:induction false} MarkerReadBack(key: string, rest: string)
    ensures KeyOf(MarkerFor(key) + "\n" + rest) == Some(key) <==> Trimmed(key) && BreakFree(key)
  {
    var body := MarkerFor(key) + "\n" + rest;
    CleanKey(body);
    if Trimmed(key) && BreakFree(key) {
      KeyOnMarker(key);
      MarkerOnOneLine(key);
      FirstLine(MarkerFor(key), rest);
    }
  }

  // ---- a whole body ------------------------------------------------------------------------

  datatype Condition = Condition(
    key: string, title: string, evidence: seq<(string, string)>, labels: seq<string>, action: string)

  const EXPIRY :=
    "\U{26A0} A workflow artefact expires after 90 days, so the evidence above"
        + " is summarised here rather than left in one."

  function EvidenceLines(evidence: seq<(string, string)>): seq<string> {
    if evidence == [] then []
    else ["- **" + evidence[0].0 + "**: " + evidence[0].1] + EvidenceLines(evidence[1..])
  }

  /** Everything below the marker. */
  function BelowMarker(c: Condition, run: string): seq<string> {
    ["", "**" + c.title + "**", ""]
    + EvidenceLines(c.evidence)
    + (if c.action != "" then ["", "**What to do**: " + c.action] else [])
    + (if run != "" then ["", "Run: " + run, "", EXPIRY] else [])
  }

  function FullText(c: Condition, run: string): string {
    Join([MarkerFor(c.key)] + BelowMarker(c, run), '\n') + "\n"
  }

  /** One line for each label and value. */
  function EvidenceText(evidence: seq<(string, string)>): string {
    if evidence == [] then ""
    else "- **" + evidence[0].0 + "**: " + evidence[0].1 + "\n" + EvidenceText(evidence[1..])
  }

  /** Lines, each ended by a line feed. */
  function Ended(lines: seq<string>): string {
    if lines == [] then "" else lines[0] + "\n" + Ended(lines[1..])
  }

  lemma {:induction false} JoinEnded(lines: seq<string>)
    requires lines != []
    ensures Join(lines, '\n') + "\n" == Ended(lines)
  {
    if |lines| > 1 {
      JoinEnded(lines[1..]);
      assert Join(lines, '\n') + "\n" == lines[0] + ['\n'] + (Join(lines[1..], '\n') + "\n");
    } else {
      assert Ended(lines[1..]) == "";
    }
  }

  lemma {:induction false} EndedConcat(a: seq<string>, b: seq<string>)
    ensures Ended(a + b) == Ended(a) + Ended(b)
  {
    hide Ended;
    if a == [] {
      NoneEnded();
      assert a + b == b;
    } else {
      EndedConcat(a[1..], b);
      assert a + b == [a[0]] + (a[1..] + b) && a == [a[0]] + a[1..];
      EndedCons(a[0], a[1..] + b);
      EndedCons(a[0], a[1..]);
      assert a[0] + "\n" + (Ended(a[1..]) + Ended(b)) == a[0] + "\n" + Ended(a[1..]) + Ended(b);
    }
  }

  lemma {:induction false} EvidenceEnded(evidence: seq<(string, string)>)
    ensures Ended(EvidenceLines(evidence)) == EvidenceText(evidence)
  {
    if evidence != [] {
      EvidenceEnded(evidence[1..]);
      var line := "- **" + evidence[0].0 + "**: " + evidence[0].1;
      assert EvidenceLines(evidence) == [line] + EvidenceLines(evidence[1..]);
      assert EvidenceLines(evidence)[1..] == EvidenceLines(evidence[1..]);
    }
  }

  lemma {:induction false} EndedCons(line: string, rest: seq<string>)
    ensures Ended([line] + rest) == line + "\n" + Ended(rest)
  {
    assert ([line] + rest)[1..] == rest;
  }

  lemma {:induction false} EndedTwo(a: string, b: string)
    ensures Ended([a, b]) == a + "\n" + (b + "\n")
  {
    EndedCons(a, [b]);
    EndedCons(b, []);
    hide Ended;
    assert [a] + [b] == [a, b] && [b] + [] == [b];
    assert Ended([]) == "" by { NoneEnded(); }
  }

  lemma {:induction false} NoneEnded()
    ensures Ended([]) == ""
  {
  }

  lemma {:induction false} EndedFour(a: string, b: string, c: string, d: string)
    ensures Ended([a, b, c, d]) == a + "\n" + (b + "\n") + (c + "\n" + (d + "\n"))
  {
    EndedConcat([a, b], [c, d]);
    EndedTwo(a, b);
    EndedTwo(c, d);
    assert [a, b] + [c, d] == [a, b, c, d];
  }

  lemma {:induction false} TextParts(c: Condition, run: string, head: seq<string>, evidence: seq<string>,
                                     action: seq<string>, from: seq<string>)
    requires head == [MarkerFor(c.key), "", "**" + c.title + "**", ""] && evidence == EvidenceLines(c.evidence)
    requires action == if c.action != "" then ["", "**What to do**: " + c.action] else []
    requires from == if run != "" then ["", "Run: " + run, "", EXPIRY] else []
    ensures FullText(c, run) == Ended(head) + Ended(evidence) + Ended(action) + Ended(from)
  {
    hide Ended, EvidenceLines, MarkerFor;
    var all := [MarkerFor(c.key)] + BelowMarker(c, run);
    JoinEnded(all);
    assert all == head + evidence + action + from;
    EndedConcat(head + evidence + action, from);
    EndedConcat(head + evidence, action);
    EndedConcat(head, evidence);
  }

  /** The first two lines of a body and its title. */
  function HeadText(c: Condition): string { MarkerFor(c.key) + "\n\n**" + c.title + "**\n\n" }

  function ActionText(action: string): string {
    if action == "" then "" else "\n**What to do**: " + action + "\n"
  }

  function RunText(run: string): string {
    if run == "" then "" else "\nRun: " + run + "\n\n" + EXPIRY + "\n"
  }

  lemma {:induction false} HeadEnded(c: Condition)
    ensures Ended([MarkerFor(c.key), "", "**" + c.title + "**", ""]) == HeadText(c)
  {
    hide MarkerFor, Ended;
    EndedFour(MarkerFor(c.key), "", "**" + c.title + "**", "");
  }

  lemma {:induction false} ActionEnded(action: string)
    requires action != ""
    ensures Ended(["", "**What to do**: " + action]) == ActionText(action)
  {
    hide Ended;
    EndedTwo("", "**What to do**: " + action);
  }

  lemma {:induction false} RunEnded(run: string, expiry: string)
    ensures Ended(["", "Run: " + run, "", expiry]) == "\nRun: " + run + "\n\n" + expiry + "\n"
  {
    hide Ended;
    EndedFour("", "Run: " + run, "", expiry);
  }

  /** The text of a body before any cut: marker, title, evidence, action, and the run it came from. */
  lemma {:induction false} TextIs(c: Condition, run: string)
    ensures FullText(c, run) == HeadText(c) + EvidenceText(c.evidence) + ActionText(c.action) + RunText(run)
  {
    hide FullText, Ended, EvidenceLines, EvidenceText, MarkerFor, HeadText, ActionText, RunText;
    var head := [MarkerFor(c.key), "", "**" + c.title + "**", ""];
    var action := if c.action != "" then ["", "**What to do**: " + c.action] else [];
    var from := if run != "" then ["", "Run: " + run, "", EXPIRY] else [];
    TextParts(c, run, head, EvidenceLines(c.evidence), action, from);
    HeadEnded(c);
    EvidenceEnded(c.evidence);
    NoneEnded();
    NoActionNoRun();
    if c.action != "" {
      ActionEnded(c.action);
    }
    if run != "" {
      RunEnded(run, EXPIRY);
      RunTextIs(run);
    }
  }

  lemma {:induction false} RunTextIs(run: string)
    requires run != ""
    ensures RunText(run) == "\nRun: " + run + "\n\n" + EXPIRY + "\n"
  {
  }

  lemma {:induction false} NoActionNoRun()
    ensures ActionText("") == "" && RunText("") == ""
  {
  }

  /** `Condition.body`. */
  function Body(c: Condition, run: string): string { Clamp(FullText(c, run), MAX_BODY_BYTES) }

  /** A published body never takes more than 8000 bytes, and is cut only when it would. */
  lemma {:induction false} BodyWithinCap(c: Condition, run: string)
    ensures |Encode(Body(c, run))| <= 8000
    ensures |Encode(FullText(c, run))| <= 8000 ==> Body(c, run) == FullText(c, run)
  {
    hide Encode, FullText;
    EncodedLength(NOTICE);
    ClampWithinLimit(FullText(c, run), 8000);
  }

  /** Bytes left for the text of a body that has to be cut. */
  function Room(): int { MAX_BODY_BYTES - |Encode(NOTICE)| }

  predicate MarkerFits(key: string) { |Encode(MarkerFor(key))| <= Room() }

  lemma {:induction false} RoomIsPositive()
    ensures 0 < Room() < MAX_BODY_BYTES
  {
    hide Encode;
    EncodedLength(NOTICE);
  }

  lemma {:induction false} MarkerFirst(c: Condition, run: string) returns (rest: string)
    ensures FullText(c, run) == MarkerFor(c.key) + "\n" + rest
  {
    hide MarkerFor, EvidenceLines;
    JoinCons(MarkerFor(c.key), BelowMarker(c, run), '\n');
    rest := Join(BelowMarker(c, run), '\n') + "\n";
  }

  /** A prefix encodes to no more bytes. */
  lemma {:induction false} PrefixEncodesShorter(s: string, n: nat)
    requires n <= |s|
    ensures |Encode(s[..n])| <= |Encode(s)|
  {
    EncodeAppend(s[..n], s[n..]);
    assert s == s[..n] + s[n..];
  }

  lemma {:induction false} TrimNoLonger(s: string)
    ensures |Trim(s)| <= |TrimLeft(s)| <= |s|
  {
    TrimLeftShorter(s);
  }

  lemma {:induction false} TrimRightFixed(s: string)
    requires s != [] && !IsSpace(s[|s| - 1])
    ensures TrimRight(s) == s
  {
  }

  lemma {:induction false} EmptyMarkerCut(j: nat)
    requires j < 4
    ensures !EndsMarker(TrimRight(MARKER_PREFIX + " -->"[..j]))
  {
    var line := MARKER_PREFIX + " -->"[..j];
    var n := |MARKER_PREFIX|;
    if j < 2 {
      var bare := MARKER_PREFIX[..n - 1];
      assert line[..n - 1] == bare && bare[n - 2] == ':';
      TrimRightFixed(bare);
      assert line[..n][..n - 1] == bare && IsSpace(line[..n][n - 1]);
      assert TrimRight(line[..n]) == TrimRight(bare);
      assert j == 1 ==> line[..|line| - 1] == line[..n];
      assert j == 0 ==> line == line[..n];
      assert TrimRight(line) == bare;
    } else {
      assert line[|line| - 1] == '-';
      TrimRightFixed(line);
    }
  }

  /** A marker cut short does not carry its key. */
  lemma {:induction false} CutMarker(key: string, k: nat)
    requires k < |MarkerFor(key)|
    ensures KeyOnLine(MarkerFor(key)[..k]) != Some(key)
  {
    hide Trim, TrimRight;
    var line := MarkerFor(key)[..k];
    if MARKER_PREFIX <= line {
      var whole := line[|MARKER_PREFIX|..];
      var rest := TrimRight(whole);
      assert whole == (key + " -->")[..|whole|];
      if |rest| == |key| + 3 {
        assert line[|line| - 1] == '-';
        TrimRightFixed(line);
      } else if key == "" {
        assert line == MARKER_PREFIX + " -->"[..|whole|];
        EmptyMarkerCut(|whole|);
      } else {
        TrimNoLonger(if |rest| < 3 then "" else rest[..|rest| - 3]);
      }
    }
  }

  lemma {:induction false} NoticeOnOneLine()
    ensures BreakFree(NOTICE_LINE) && BreakFree("")
  {
    forall c | c in NOTICE_LINE ensures !IsBreak(c) {
      assert c in "[truncated: the" || c in " evidence exceeded" || c in " the issue body cap]";
    }
  }

  lemma {:induction false} NoticeCarriesNoKey()
    ensures FirstKey(SplitLines("\n" + NOTICE_LINE + "\n")) == None
  {
    hide TrimRight, Trim, BreakFree, SplitLines;
    NoticeOnOneLine();
    var below := NOTICE_LINE + "\n" + "";
    FirstLine("", below);
    FirstLine(NOTICE_LINE, "");
    assert "" + "\n" + below == "\n" + NOTICE_LINE + "\n";
    var lines := [""] + ([NOTICE_LINE] + SplitLines(""));
    assert NOTICE_LINE[0] == '[' && MARKER_PREFIX[0] == '<';
    assert KeyOnLine("") == None && KeyOnLine(NOTICE_LINE) == None;
    assert FirstKey([]) == None;
    assert [NOTICE_LINE][1..] == [];
    assert FirstKey([NOTICE_LINE]) == None;
    assert lines[1..] == [NOTICE_LINE];
  }

  lemma {:induction false} PrefixBreakFree(s: string, n: nat)
    requires BreakFree(s) && n <= |s|
    ensures BreakFree(s[..n])
  {
    assert forall c :: c in s[..n] ==> c in s;
  }

  /** Cut inside the marker, the key is gone. */
  lemma {:induction false} KeyLost(key: string, k: nat)
    requires k < |MarkerFor(key)| && BreakFree(key)
    ensures KeyOf(MarkerFor(key)[..k] + NOTICE) != Some(key)
  {
    hide KeyOnLine, SplitLines, BreakFree, MarkerFor;
    var line := MarkerFor(key)[..k];
    var below := "\n" + NOTICE_LINE + "\n";
    MarkerOnOneLine(key);
    PrefixBreakFree(MarkerFor(key), k);
    FirstLine(line, below);
    assert line + NOTICE == line + "\n" + below;
    CutMarker(key, k);
    NoticeCarriesNoKey();
    assert ([line] + SplitLines(below))[1..] == SplitLines(below);
  }

  /** Cut behind the marker, the key stays. */
  lemma {:induction false} KeyKept(key: string, rest: string, k: nat)
    requires Trimmed(key) && BreakFree(key)
    requires |MarkerFor(key)| <= k <= |MarkerFor(key) + "\n" + rest|
    ensures KeyOf((MarkerFor(key) + "\n" + rest)[..k] + NOTICE) == Some(key)
  {
    hide KeyOf, MarkerFor;
    var marker := MarkerFor(key);
    var n := |marker|;
    if k == n {
      assert (marker + "\n" + rest)[..k] + NOTICE == marker + "\n" + ("\n" + NOTICE_LINE + "\n");
      MarkerReadBack(key, "\n" + NOTICE_LINE + "\n");
    } else {
      assert (marker + "\n" + rest)[..k] + NOTICE == marker + "\n" + (rest[..k - n - 1] + NOTICE);
      MarkerReadBack(key, rest[..k - n - 1] + NOTICE);
    }
  }

  /**
   * The published body of a condition is read back as that condition exactly when its key is
   * trimmed, is on one line, and the marker survives the cut.
   */
  lemma {:induction false} BodyCarriesKey(c: Condition, run: string)
    ensures KeyOf(Body(c, run)) == Some(c.key)
       <==> Trimmed(c.key) && BreakFree(c.key)
            && (|Encode(FullText(c, run))| <= MAX_BODY_BYTES || MarkerFits(c.key))
  {
    hide Encode, FullText, KeyOf, Trimmed, BreakFree, Fits, MarkerFor, SplitLines, FirstKey;
    var text := FullText(c, run);
    var marker := MarkerFor(c.key);
    var rest := MarkerFirst(c, run);
    RoomIsPositive();
    CleanKey(Body(c, run));
    if |Encode(text)| <= MAX_BODY_BYTES {
      MarkerReadBack(c.key, rest);
    } else if Trimmed(c.key) && BreakFree(c.key) {
      ClampKeepsPrefix(text, MAX_BODY_BYTES);
      var k := Fits(text, Room());
      if k < |marker| {
        PrefixEncodesShorter(marker, k + 1);
        assert marker[..k + 1] == text[..k + 1] && marker[..k] == text[..k];
        KeyLost(c.key, k);
      } else {
        PrefixEncodesShorter(text[..k], |marker|);
        assert text[..k][..|marker|] == marker;
        KeyKept(c.key, rest, k);
      }
    }
  }
}
