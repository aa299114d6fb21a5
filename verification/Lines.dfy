/** Text as lines: Python's `splitlines`, `strip`, and the newline translation of a text-mode read. */
module Lines {

  /** The characters `str.splitlines` ends a line at. */
  predicate IsBreak(c: char) {
    var p := c as int;
    0x0A <= p <= 0x0D || 0x1C <= p <= 0x1E || p == 0x85 || p == 0x2028 || p == 0x2029
  }

  /** The characters `str.strip` removes. */
  predicate IsSpace(c: char) {
    var p := c as int;
    || IsBreak(c) || c == ' ' || c == '\t' || p == 0x1F || p == 0xA0 || p == 0x1680
    || 0x2000 <= p <= 0x200A || p == 0x202F || p == 0x205F || p == 0x3000
  }

  predicate BreakFree(s: string) {
    forall c :: c in s ==> !IsBreak(c)
  }

  predicate CrLf(s: string) {
    |s| >= 2 && s[0] == '\r' && s[1] == '\n'
  }

  /** `s.splitlines()`. */
  function SplitLines(s: string): (lines: seq<string>)
    ensures lines == [] <==> s == []
  {
    if s == [] then []
    else if CrLf(s) then [""] + SplitLines(s[2..])
    else if IsBreak(s[0]) then [""] + SplitLines(s[1..])
    else
      var rest := SplitLines(s[1..]);
      if rest == [] then [[s[0]]] else [[s[0]] + rest[0]] + rest[1..]
  }

  /** What text mode reads back: `\r\n` and `\r` become `\n`. */
  function Translate(s: string): string {
    if s == [] then []
    else if CrLf(s) then ['\n'] + Translate(s[2..])
    else [if s[0] == '\r' then '\n' else s[0]] + Translate(s[1..])
  }

  function TrimLeft(s: string): (r: string)
    ensures r != [] ==> !IsSpace(r[0])
  {
    if s != [] && IsSpace(s[0]) then TrimLeft(s[1..]) else s
  }

  /** `s.rstrip()`. */
  function TrimRight(s: string): (r: string)
    ensures r <= s
    ensures r != [] ==> !IsSpace(r[|r| - 1])
  {
    if s != [] && IsSpace(s[|s| - 1]) then TrimRight(s[..|s| - 1]) else s
  }

  /** `s.strip()`. */
  function Trim(s: string): string { TrimRight(TrimLeft(s)) }

  // ---- line splitting ------------------------------------------------------------

  /** No line holds a break, so splitting a line again changes nothing. */
  lemma {:induction false} LinesAreBreakFree(s: string)
    ensures forall l :: l in SplitLines(s) ==> BreakFree(l)
  {
    if s != [] {
      var rest := if CrLf(s) then s[2..] else s[1..];
      LinesAreBreakFree(rest);
      var lines := SplitLines(rest);
      if !IsBreak(s[0]) && lines != [] {
        assert lines[0] in lines;
        assert BreakFree([s[0]] + lines[0]);
      }
    }
  }

  lemma {:induction false} SplitStep(c: char, rest: string)
    requires c != '\r'
    ensures SplitLines([c] + rest) ==
            if IsBreak(c) then [""] + SplitLines(rest)
            else if SplitLines(rest) == [] then [[c]]
            else [[c] + SplitLines(rest)[0]] + SplitLines(rest)[1..]
  {
    assert ([c] + rest)[1..] == rest;
  }

  lemma {:induction false} TranslateStep(c: char, rest: string)
    requires c != '\r'
    ensures Translate([c] + rest) == [c] + Translate(rest)
  {
    assert ([c] + rest)[1..] == rest;
  }

  /** Reading a body back through text mode does not move a line boundary. */
  lemma {:induction false} SplitTranslated(s: string)
    ensures SplitLines(Translate(s)) == SplitLines(s)
  {
    if s != [] {
      var rest := if CrLf(s) then s[2..] else s[1..];
      var c := if s[0] == '\r' then '\n' else s[0];
      SplitTranslated(rest);
      SplitStep(c, Translate(rest));
      if s[0] != '\r' {
        SplitStep(c, rest);
        assert s == [c] + rest;
      }
    }
  }

  /** A terminated first line comes off the front. */
  lemma {:induction false} FirstLine(line: string, rest: string)
    requires BreakFree(line)
    ensures SplitLines(line + "\n" + rest) == [line] + SplitLines(rest)
  {
    var s := line + "\n" + rest;
    if line == [] {
      assert s[1..] == rest;
    } else {
      assert s[1..] == line[1..] + "\n" + rest;
      FirstLine(line[1..], rest);
      assert line[0] in line;
      SplitStep(line[0], s[1..]);
      assert s == [line[0]] + s[1..];
      assert ([line[1..]] + SplitLines(rest))[1..] == SplitLines(rest);
      assert line == [line[0]] + line[1..];
    }
  }

  /** A line end: a carriage return and a line feed together, or one of ten characters alone. */
  predicate IsEnd(end: string, rest: string) {
    || end == "\r\n"
    || (&& |end| == 1
        && (end[0] as int) in {0x0A, 0x0B, 0x0C, 0x0D, 0x1C, 0x1D, 0x1E, 0x85, 0x2028, 0x2029}
        && !(end == "\r" && rest != [] && rest[0] == '\n'))
  }

  predicate NoEnds(s: string) {
    forall c :: c in s ==> (c as int) !in {0x0A, 0x0B, 0x0C, 0x0D, 0x1C, 0x1D, 0x1E, 0x85, 0x2028, 0x2029}
  }

  lemma {:induction false} NotBreak(c: char, s: string)
    requires NoEnds(s) && c in s
    ensures !IsBreak(c) && c != '\r'
  {
  }

  lemma {:induction false} EndAlone(end: string, rest: string)
    requires IsEnd(end, rest)
    ensures SplitLines(end + rest) == [""] + SplitLines(rest)
  {
    var s := end + rest;
    if end == "\r\n" {
      assert s[2..] == rest;
    } else {
      assert s[1..] == rest && s[0] == end[0];
    }
  }

  lemma {:induction false} LineBeforeEnd(line: string, end: string, rest: string)
    requires NoEnds(line) && IsEnd(end, rest)
    ensures SplitLines(line + (end + rest)) == [line] + SplitLines(rest)
  {
    hide SplitLines, IsEnd, NoEnds, IsBreak;
    if line == [] {
      EndAlone(end, rest);
      assert line + (end + rest) == end + rest;
    } else {
      NotBreak(line[0], line);
      NoEndsBehind(line);
      LineBeforeEnd(line[1..], end, rest);
      assert line + (end + rest) == [line[0]] + (line[1..] + (end + rest));
      SplitStep(line[0], line[1..] + (end + rest));
      assert ([line[1..]] + SplitLines(rest))[1..] == SplitLines(rest);
      assert [line[0]] + line[1..] == line;
    }
  }

  lemma {:induction false} NoEndsBehind(line: string)
    requires line != [] && NoEnds(line)
    ensures NoEnds(line[1..])
  {
    assert forall c :: c in line[1..] ==> c in line;
  }

  lemma {:induction false} LineAlone(line: string)
    requires line != [] && NoEnds(line)
    ensures SplitLines(line) == [line]
  {
    hide NoEnds, IsBreak;
    NotBreak(line[0], line);
    NoEndsBehind(line);
    if |line| > 1 {
      LineAlone(line[1..]);
    }
    SplitStep(line[0], line[1..]);
    hide SplitLines;
    assert line == [line[0]] + line[1..];
    assert |line| == 1 ==> line[1..] == [] && line == [line[0]];
    assert |line| > 1 ==> [line[1..]][1..] == [] && SplitLines(line) == [line] + [];
  }

  /**
   * All there is to splitting: nothing has no lines, text without an end is one line, and a line
   * comes off the front with the end behind it.
   */
  lemma {:induction false} SplitIs(line: string, end: string, rest: string)
    requires NoEnds(line)
    ensures SplitLines("") == []
    ensures line != [] ==> SplitLines(line) == [line]
    ensures IsEnd(end, rest) ==> SplitLines(line + (end + rest)) == [line] + SplitLines(rest)
  {
    if line != [] {
      LineAlone(line);
    }
    if IsEnd(end, rest) {
      LineBeforeEnd(line, end, rest);
    }
  }

  /** The characters that count as white. */
  lemma {:induction false} WhiteIs(c: char)
    ensures IsSpace(c) <==>
              var p := c as int;
              || 9 <= p <= 13 || 28 <= p <= 32 || p == 0x85 || p == 0xA0 || p == 0x1680
              || 0x2000 <= p <= 0x200A || p in {0x2028, 0x2029, 0x202F, 0x205F, 0x3000}
  {
  }

  predicate AllWhite(s: string) { forall c :: c in s ==> IsSpace(c) }

  /** All there is to stripping: white text off both ends, up to text that is white at neither. */
  lemma {:induction false} TrimIs(front: string, middle: string, back: string)
    requires AllWhite(front) && AllWhite(back)
    requires middle != [] ==> !IsSpace(middle[0]) && !IsSpace(middle[|middle| - 1])
    ensures Trim(front + middle + back) == middle
  {
    hide IsSpace;
    if front != [] {
      assert front[0] in front;
      assert forall c :: c in front[1..] ==> c in front;
      assert (front + middle + back)[1..] == front[1..] + middle + back;
      TrimIs(front[1..], middle, back);
    } else if middle == [] {
      assert front + middle + back == back;
      WhiteTrims(back);
    } else {
      assert front + middle + back == middle + back;
      assert TrimLeft(middle + back) == middle + back;
      BackTrims(middle, back);
    }
  }

  lemma {:induction false} WhiteTrims(s: string)
    requires AllWhite(s)
    ensures TrimLeft(s) == []
  {
    hide IsSpace;
    if s != [] {
      assert s[0] in s;
      assert forall c :: c in s[1..] ==> c in s;
      WhiteTrims(s[1..]);
    }
  }

  lemma {:induction false} BackTrims(middle: string, back: string)
    requires AllWhite(back) && middle != [] && !IsSpace(middle[|middle| - 1])
    ensures TrimRight(middle + back) == middle
  {
    hide IsSpace;
    if back == [] {
      assert middle + back == middle;
    } else {
      var n := |back| - 1;
      assert back[n] in back;
      assert forall c :: c in back[..n] ==> c in back;
      assert (middle + back)[..|middle + back| - 1] == middle + back[..n];
      BackTrims(middle, back[..n]);
    }
  }

  /** One line each, every line ended by `\n`. */
  function Render(lines: seq<string>): string {
    if lines == [] then "" else lines[0] + "\n" + Render(lines[1..])
  }

  lemma {:induction false} SplitRender(lines: seq<string>)
    requires forall l :: l in lines ==> BreakFree(l)
    ensures SplitLines(Render(lines)) == lines
  {
    if lines != [] {
      assert lines[0] in lines;
      SplitRender(lines[1..]);
      FirstLine(lines[0], Render(lines[1..]));
      assert lines == [lines[0]] + lines[1..];
    }
  }

  // ---- what trimming sees of a translated body ------------------------------------

  lemma {:induction false} TranslateEnd(end: string, rest: string)
    requires end == "\r\n" || (end == "\r" && !(rest != [] && rest[0] == '\n'))
    ensures Translate(end + rest) == "\n" + Translate(rest)
  {
    var s := end + rest;
    assert end == "\r\n" ==> s[2..] == rest;
    assert end == "\r" ==> s[1..] == rest;
  }

  lemma {:induction false} TranslatePlain(line: string, rest: string)
    requires '\r' !in line
    ensures Translate(line + rest) == line + Translate(rest)
  {
    hide Translate;
    if line == [] {
      assert line + rest == rest;
    } else {
      assert line[0] in line && forall c :: c in line[1..] ==> c in line;
      TranslatePlain(line[1..], rest);
      assert line + rest == [line[0]] + (line[1..] + rest);
      TranslateStep(line[0], line[1..] + rest);
      assert [line[0]] + (line[1..] + Translate(rest)) == line + Translate(rest);
    }
  }

  /** All there is to a text-mode read: each carriage return, with the line feed behind it if there is one. */
  lemma {:induction false} TranslateIs(line: string, end: string, rest: string)
    requires '\r' !in line
    ensures Translate(line) == line
    ensures end == "\r\n" || (end == "\r" && !(rest != [] && rest[0] == '\n')) ==>
              Translate(line + (end + rest)) == line + ("\n" + Translate(rest))
  {
    TranslatePlain(line, []);
    TranslatePlain(line, end + rest);
    assert line + [] == line && Translate([]) == [];
    if end == "\r\n" || (end == "\r" && !(rest != [] && rest[0] == '\n')) {
      TranslateEnd(end, rest);
    }
  }

  lemma {:induction false} TrimLeftTranslated(s: string)
    ensures TrimLeft(Translate(s)) == Translate(TrimLeft(s))
  {
    if s != [] && IsSpace(s[0]) {
      var rest := if CrLf(s) then s[2..] else s[1..];
      TrimLeftTranslated(rest);
      assert Translate(s)[1..] == Translate(rest);
      if CrLf(s) {
        assert s[1..][1..] == s[2..];
      }
    }
  }

  lemma {:induction false} TrimLeftShorter(s: string)
    ensures |TrimLeft(s)| <= |s|
  {
    if s != [] && IsSpace(s[0]) {
      TrimLeftShorter(s[1..]);
    }
  }

  lemma {:induction false} TrimRightDropsSpace(s: string)
    ensures forall i :: |TrimRight(s)| <= i < |s| ==> IsSpace(s[i])
  {
    if s != [] && IsSpace(s[|s| - 1]) {
      TrimRightDropsSpace(s[..|s| - 1]);
    }
  }

  lemma {:induction false} TrimEmpty(s: string)
    ensures Trim(s) == [] <==> TrimLeft(s) == []
  {
    TrimRightDropsSpace(TrimLeft(s));
  }

  /** A lower-case ASCII letter for an upper-case one; anything else is itself. */
  function Lower(c: char): char {
    if 'A' <= c <= 'Z' then ((c as int) + 32) as char else c
  }

  /** `s.lower().startswith(p)`. */
  predicate Opens(s: string, p: string) {
    p == [] || (s != [] && Lower(s[0]) == p[0] && Opens(s[1..], p[1..]))
  }

  /** A character, or the capital that is 32 below it. */
  predicate EitherCase(c: char, p: char) {
    if 'A' <= c <= 'Z' then c as int + 32 == p as int else c == p
  }

  /** A prefix of small letters and other characters, whichever way the letters are written. */
  lemma {:induction false} OpensIs(s: string, p: string)
    ensures Opens(s, p) <==> |p| <= |s| && forall k :: 0 <= k < |p| ==> EitherCase(s[k], p[k])
  {
    if p != [] && s != [] {
      OpensIs(s[1..], p[1..]);
      assert forall k :: 0 < k < |p| ==> p[k] == p[1..][k - 1];
      assert forall k :: 0 < k < |s| ==> s[k] == s[1..][k - 1];
      assert forall k :: 0 <= k < |p| - 1 ==> p[1..][k] == p[k + 1];
      assert forall k :: 0 <= k < |s| - 1 ==> s[1..][k] == s[k + 1];
    }
  }

  lemma {:induction false} OpensTranslated(s: string, p: string)
    requires forall c :: c in p ==> !IsSpace(c)
    ensures Opens(Translate(s), p) == Opens(s, p)
  {
    if p != [] && s != [] && Lower(s[0]) == p[0] {
      assert p[0] in p;
      assert Translate(s)[1..] == Translate(s[1..]);
      OpensTranslated(s[1..], p[1..]);
    } else if p != [] && s != [] {
      assert p[0] in p;
    }
  }

  lemma {:induction false} OpensTrimmed(s: string, n: nat, p: string)
    requires n <= |s| && forall i :: n <= i < |s| ==> IsSpace(s[i])
    requires forall c :: c in p ==> !IsSpace(c)
    ensures Opens(s[..n], p) == Opens(s, p)
  {
    if p != [] && s != [] {
      assert p[0] in p;
      if n > 0 {
        assert s[..n][1..] == s[1..][..n - 1];
        OpensTrimmed(s[1..], n - 1, p[1..]);
      }
    }
  }

  /** Neither emptiness nor how a stripped body opens depends on the translation. */
  lemma {:induction false} TrimTranslated(s: string, p: string)
    requires forall c :: c in p ==> !IsSpace(c)
    ensures Trim(Translate(s)) == [] <==> Trim(s) == []
    ensures Opens(Trim(Translate(s)), p) == Opens(Trim(s), p)
  {
    var l := TrimLeft(s);
    TrimLeftTranslated(s);
    TrimEmpty(s);
    TrimEmpty(Translate(s));
    TrimRightDropsSpace(l);
    TrimRightDropsSpace(Translate(l));
    assert Trim(s) == l[..|TrimRight(l)|];
    assert Trim(Translate(s)) == Translate(l)[..|TrimRight(Translate(l))|];
    OpensTrimmed(l, |TrimRight(l)|, p);
    OpensTrimmed(Translate(l), |TrimRight(Translate(l))|, p);
    OpensTranslated(l, p);
  }

  lemma {:induction false} TranslateTwice(s: string)
    ensures Translate(Translate(s)) == Translate(s)
  {
    if s != [] {
      var rest := if CrLf(s) then s[2..] else s[1..];
      TranslateTwice(rest);
      TranslateStep(if s[0] == '\r' then '\n' else s[0], Translate(rest));
    }
  }
}
