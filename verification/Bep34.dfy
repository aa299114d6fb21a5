/**
 * The BEP 34 record of `src/trackers/bep34.py`: an exhaustive allow-list written as the
 * words of a TXT string.
 */
module Bep34 {
  import opened Collections
  import opened Bytes
  import opened Text
  import opened DnsName

  const MAX_WORDS := 64
  const MAX_ENDPOINTS := 16
  const SPACE: byte := 32

  datatype Protocol = Udp | Tcp

  datatype Endpoint = Endpoint(protocol: Protocol, port: nat)

  datatype Record = Record(raw: seq<byte>, endpoints: seq<Endpoint>)

  /** A TXT string is a record, is none, or is one too long to be read without cutting it. */
  datatype Parsed = NotARecord | TooManyWords | TooManyEndpoints | Parsed(record: Record)

  // ---- words ----------------------------------------------------------------------

  function WordEnd(s: seq<byte>): (n: nat)
    ensures n <= |s|
    ensures s != [] && !IsSpace(s[0]) ==> n > 0
  {
    if s == [] || IsSpace(s[0]) then 0 else 1 + WordEnd(s[1..])
  }

  /** `text.split()`. */
  function Words(s: seq<byte>): seq<seq<byte>>
    decreases |s|
  {
    if s == [] then []
    else if IsSpace(s[0]) then Words(s[1..])
    else [s[..WordEnd(s)]] + Words(s[WordEnd(s)..])
  }

  const MARKER := Ascii("BITTORRENT")
  const UDP := Ascii("UDP:")
  const TCP := Ascii("TCP:")

  predicate GoodPort(port: nat) { 0 < port < 65536 }

  /** The port a word's tail spells: digits and nothing else, in range. */
  function PortOf(digits: seq<byte>): Option<nat> {
    if digits == [] || !AllDigits(digits) then None
    else if !GoodPort(Value(digits)) then None
    else Some(Value(digits))
  }

  /** The endpoint a word advertises; every other word is silently ignored. */
  function EndpointOf(word: seq<byte>): Option<Endpoint> {
    if UDP <= word then
      match PortOf(word[4..]) case None => None case Some(p) => Some(Endpoint(Udp, p))
    else if TCP <= word then
      match PortOf(word[4..]) case None => None case Some(p) => Some(Endpoint(Tcp, p))
    else None
  }

  /** The endpoints of some words, after those already kept. */
  function Gather(words: seq<seq<byte>>, kept: seq<Endpoint>): seq<Endpoint> {
    if words == [] then kept
    else match EndpointOf(words[0])
      case None => Gather(words[1..], kept)
      case Some(e) => Gather(words[1..], if e in kept then kept else kept + [e])
  }

  /** What `parse_record` returns. */
  function Parse(text: seq<byte>): Parsed {
    var words := Words(text);
    if words == [] || words[0] != MARKER then NotARecord
    else if |words| > MAX_WORDS then TooManyWords
    else if |Gather(words[1..], [])| > MAX_ENDPOINTS then TooManyEndpoints
    else Parsed(Record(text, Gather(words[1..], [])))
  }

  /** `parse_record`, with its loop over the words. */
  method ParseRecord(text: seq<byte>) returns (r: Parsed)
    ensures r == Parse(text)
  {
    var words := Words(text);
    if words == [] || words[0] != MARKER {
      return NotARecord;
    }
    if |words| > MAX_WORDS {
      return TooManyWords;
    }
    var endpoints: seq<Endpoint> := [];
    for i := 1 to |words|
      invariant Gather(words[i..], endpoints) == Gather(words[1..], [])
    {
      var word := words[i];
      assert words[i..][1..] == words[i + 1..];
      var found: Option<Endpoint> := None;
      if UDP <= word {
        var port := PortOf(word[4..]);
        if port.Some? {
          found := Some(Endpoint(Udp, port.value));
        }
      } else if TCP <= word {
        var port := PortOf(word[4..]);
        if port.Some? {
          found := Some(Endpoint(Tcp, port.value));
        }
      }
      if found.Some? && found.value !in endpoints {
        endpoints := endpoints + [found.value];
      }
    }
    if |endpoints| > MAX_ENDPOINTS {
      return TooManyEndpoints;
    }
    return Parsed(Record(text, endpoints));
  }

  // ---- what the allow-list holds -------------------------------------------------------

  /** The first word that advertises `e`. */
  function FirstWord(words: seq<seq<byte>>, e: Endpoint): (n: nat)
    ensures n <= |words|
    ensures n < |words| ==> EndpointOf(words[n]) == Some(e)
    ensures forall i :: 0 <= i < n ==> EndpointOf(words[i]) != Some(e)
  {
    if words == [] || EndpointOf(words[0]) == Some(e) then 0 else 1 + FirstWord(words[1..], e)
  }

  /** `es` is the endpoints of `words`, each at its first occurrence. */
  ghost predicate FirstOccurrences(es: seq<Endpoint>, words: seq<seq<byte>>) {
    && NoRepeats(es)
    && (forall e :: e in es <==> FirstWord(words, e) < |words|)
    && (forall i, j :: 0 <= i < j < |es| ==> FirstWord(words, es[i]) < FirstWord(words, es[j]))
  }

  lemma {:induction false} FirstWordPrefix(words: seq<seq<byte>>, n: nat, e: Endpoint)
    requires n < |words|
    ensures FirstWord(words[..n], e) < n ==> FirstWord(words, e) == FirstWord(words[..n], e)
    ensures FirstWord(words[..n], e) == n ==>
              (FirstWord(words[..n + 1], e) == if EndpointOf(words[n]) == Some(e) then n else n + 1)
    ensures FirstWord(words[..n], e) < n ==> FirstWord(words[..n + 1], e) == FirstWord(words[..n], e)
  {
    hide EndpointOf;
    var m := FirstWord(words[..n], e);
    var a, b := FirstWord(words, e), FirstWord(words[..n + 1], e);
    if m < n {
      assert words[..n][m] == words[m] == words[..n + 1][m];
      assert forall i :: 0 <= i < m ==> words[..n][i] == words[i] && words[..n + 1][i] == words[i];
    } else {
      assert forall i :: 0 <= i < n ==> words[..n][i] == words[..n + 1][i];
      assert words[..n + 1][n] == words[n];
    }
  }

  lemma {:induction false} GatherStep(words: seq<seq<byte>>, n: nat, es: seq<Endpoint>)
    requires n < |words| && FirstOccurrences(es, words[..n])
    ensures match EndpointOf(words[n])
            case None => FirstOccurrences(es, words[..n + 1])
            case Some(e) => FirstOccurrences(if e in es then es else es + [e], words[..n + 1])
  {
    hide EndpointOf, FirstWord;
    forall e
      ensures FirstWord(words[..n + 1], e) < n + 1 <==>
              FirstWord(words[..n], e) < n || EndpointOf(words[n]) == Some(e)
      ensures FirstWord(words[..n], e) < n ==> FirstWord(words[..n + 1], e) == FirstWord(words[..n], e)
      ensures FirstWord(words[..n], e) == n && EndpointOf(words[n]) == Some(e) ==> FirstWord(words[..n + 1], e) == n
    {
      FirstWordPrefix(words, n, e);
    }
    assert |words[..n]| == n && |words[..n + 1]| == n + 1;
    forall i | 0 <= i < |es| ensures FirstWord(words[..n], es[i]) < n { assert es[i] in es; }
  }

  lemma {:induction false} GatherKeeps(words: seq<seq<byte>>, n: nat, es: seq<Endpoint>)
    requires n <= |words| && FirstOccurrences(es, words[..n])
    ensures FirstOccurrences(Gather(words[n..], es), words)
    decreases |words| - n
  {
    hide EndpointOf;
    if n == |words| {
      assert words[..n] == words;
    } else {
      GatherStep(words, n, es);
      assert words[n..][1..] == words[n + 1..];
      var es' := match EndpointOf(words[n])
        case None => es
        case Some(e) => if e in es then es else es + [e];
      GatherKeeps(words, n + 1, es');
    }
  }

  /**
   * The allow-list is exactly the endpoints the words advertise: none missing, none
   * invented, none repeated, in the order the operator first wrote them.
   */
  lemma {:induction false} AllowListExact(text: seq<byte>)
    requires Parse(text).Parsed?
    ensures Words(text) != [] && Words(text)[0] == MARKER
    ensures FirstOccurrences(Parse(text).record.endpoints, Words(text)[1..])
    ensures forall e :: e in Parse(text).record.endpoints ==> GoodPort(e.port)
  {
    var words := Words(text)[1..];
    assert words[0..] == words && words[..0] == [];
    GatherKeeps(words, 0, []);
    forall e | e in Parse(text).record.endpoints ensures GoodPort(e.port) {
      assert EndpointOf(words[FirstWord(words, e)]) == Some(e);
    }
  }

  lemma {:induction false} GatherConcat(a: seq<seq<byte>>, b: seq<seq<byte>>, es: seq<Endpoint>)
    ensures Gather(a + b, es) == Gather(b, Gather(a, es))
  {
    hide EndpointOf;
    if a == [] {
      assert a + b == b;
    } else {
      assert (a + b)[1..] == a[1..] + b;
      match EndpointOf(a[0]) {
        case None => GatherConcat(a[1..], b, es);
        case Some(e) => GatherConcat(a[1..], b, if e in es then es else es + [e]);
      }
    }
  }

  /** A word that advertises nothing, such as `DENY` or `ALL`, changes no allow-list. */
  lemma {:induction false} UnknownWordsIgnored(a: seq<seq<byte>>, w: seq<byte>, b: seq<seq<byte>>)
    requires EndpointOf(w) == None
    ensures Gather(a + [w] + b, []) == Gather(a + b, [])
  {
    hide EndpointOf;
    GatherConcat(a + [w], b, []);
    GatherConcat(a, [w], []);
    GatherConcat(a, b, []);
    assert [w][1..] == [];
  }

  /** The endpoints some words advertise. */
  function Advertised(words: seq<seq<byte>>): set<Endpoint> {
    set w | w in words && EndpointOf(w).Some? :: EndpointOf(w).value
  }

  lemma {:induction false} GatherIsAdvertised(words: seq<seq<byte>>)
    ensures NoRepeats(Gather(words, [])) && Elements(Gather(words, [])) == Advertised(words)
    ensures |Gather(words, [])| == |Advertised(words)|
  {
    hide EndpointOf, Gather;
    assert words[0..] == words && words[..0] == [];
    GatherKeeps(words, 0, []);
    var es := Gather(words, []);
    forall e ensures e in es <==> e in Advertised(words) {
      if e in es {
        assert words[FirstWord(words, e)] in words;
      }
      if e in Advertised(words) {
        var w :| w in words && EndpointOf(w).Some? && EndpointOf(w).value == e;
        var k :| 0 <= k < |words| && words[k] == w;
        assert FirstWord(words, e) <= k;
      }
    }
    assert Elements(es) == Advertised(words);
    ElementsCount(es);
  }

  lemma {:induction false} AllowListIsAdvertised(text: seq<byte>)
    requires Parse(text).Parsed?
    ensures Words(text) != []
    ensures forall e :: e in Parse(text).record.endpoints <==> e in Advertised(Words(text)[1..])
  {
    hide Words, Advertised, Gather, EndpointOf;
    GatherIsAdvertised(Words(text)[1..]);
    assert forall e :: e in Parse(text).record.endpoints <==> e in Elements(Gather(Words(text)[1..], []));
  }

  lemma {:induction false} MarkerSpelled()
    ensures MARKER == [66, 73, 84, 84, 79, 82, 82, 69, 78, 84]
  {
  }

  /**
   * A string is a record when its first word is `BITTORRENT`; it is read when it has at most 64
   * words and they advertise at most 16 endpoints, and is refused as a whole otherwise.
   */
  lemma {:induction false} ParsedWhen(text: seq<byte>)
    ensures var words := Words(text);
            && (Parse(text).NotARecord? <==>
                  words == [] || words[0] != [66, 73, 84, 84, 79, 82, 82, 69, 78, 84])
            && (Parse(text).TooManyWords? <==> !Parse(text).NotARecord? && |words| > 64)
            && (Parse(text).TooManyEndpoints? <==>
                  !Parse(text).NotARecord? && |words| <= 64 && |Advertised(words[1..])| > 16)
            && (Parse(text).Parsed? ==> Parse(text).record.raw == text)
  {
    hide Words, Advertised, Gather, EndpointOf;
    MarkerSpelled();
    if Words(text) != [] {
      GatherIsAdvertised(Words(text)[1..]);
    }
  }

  predicate Numeral(ds: seq<byte>) { ds != [] && forall i :: 0 <= i < |ds| ==> 48 <= ds[i] <= 57 }

  /** `UDP:` or `TCP:` and a numeral from 1 to 65535, leading zeros and all; every other word is none. */
  lemma {:induction false} EndpointIs(word: seq<byte>, e: Endpoint)
    ensures EndpointOf(word) == Some(e) <==>
              exists ds: seq<byte> ::
                && Numeral(ds) && Value(ds) == e.port && 1 <= e.port <= 65535
                && word == (if e.protocol.Udp? then [85, 68, 80, 58] else [84, 67, 80, 58]) + ds
  {
    hide Value;
    assert UDP == [85, 68, 80, 58] && TCP == [84, 67, 80, 58];
    var front: seq<byte> := if e.protocol.Udp? then [85, 68, 80, 58] else [84, 67, 80, 58];
    if EndpointOf(word) == Some(e) {
      assert word == front + word[4..];
      assert Numeral(word[4..]);
    }
    forall ds: seq<byte> | Numeral(ds) && Value(ds) == e.port && 1 <= e.port <= 65535 && word == front + ds
      ensures EndpointOf(word) == Some(e)
    {
      assert word[4..] == ds && word[..4] == front;
      assert UDP <= word <==> word[..4] == UDP;
      assert TCP <= word <==> word[..4] == TCP;
      assert front[0] == if e.protocol.Udp? then 85 else 84;
      assert AllDigits(ds);
    }
  }

  // ---- the words ----------------------------------------------------------------------

  /** Blanks, tabs, line ends, and the four separators below the blank. */
  predicate Spaces(gap: seq<byte>) {
    forall i :: 0 <= i < |gap| ==> gap[i] == 32 || 9 <= gap[i] <= 13 || 28 <= gap[i] <= 31
  }

  /** Words with a gap before each and one at the end. */
  function Spaced(gaps: seq<seq<byte>>, words: seq<seq<byte>>): seq<byte>
    requires |gaps| == |words| + 1
  {
    if words == [] then gaps[0] else gaps[0] + (words[0] + Spaced(gaps[1..], words[1..]))
  }

  /** Gaps are white, those between words are not empty, and the words are neither empty nor white anywhere. */
  ghost predicate WellSpaced(gaps: seq<seq<byte>>, words: seq<seq<byte>>) {
    && |gaps| == |words| + 1
    && (forall g :: g in gaps ==> Spaces(g))
    && (forall i :: 0 < i < |words| ==> gaps[i] != [])
    && (forall w :: w in words ==> w != [] && forall i :: 0 <= i < |w| ==> !Spaces([w[i]]))
  }

  lemma {:induction false} GapSkipped(gap: seq<byte>, rest: seq<byte>)
    requires Spaces(gap)
    ensures Words(gap + rest) == Words(rest)
  {
    if gap == [] {
      assert gap + rest == rest;
    } else {
      assert (gap + rest)[1..] == gap[1..] + rest;
      GapSkipped(gap[1..], rest);
    }
  }

  lemma {:induction false} WordTaken(word: seq<byte>, rest: seq<byte>)
    requires word != [] && (forall i :: 0 <= i < |word| ==> !Spaces([word[i]]))
    requires rest == [] || Spaces([rest[0]])
    ensures Words(word + rest) == [word] + Words(rest)
  {
    var s := word + rest;
    forall i | 0 <= i < |word| ensures !IsSpace(s[i]) {
      assert !Spaces([word[i]]);
    }
    assert rest != [] ==> IsSpace([rest[0]][0]);
    assert s[..|word|] == word;
    WordEndIs(s, |word|);
    assert s[|word|..] == rest;
  }

  lemma {:induction false} FirstWordBetween(gaps: seq<seq<byte>>, words: seq<seq<byte>>)
    requires WellSpaced(gaps, words) && words != []
    ensures Spaces(gaps[0]) && words[0] != [] && forall i :: 0 <= i < |words[0]| ==> !Spaces([words[0][i]])
    ensures WellSpaced(gaps[1..], words[1..])
  {
    assert gaps[0] in gaps && words[0] in words;
    assert forall i :: 0 < i < |words| - 1 ==> gaps[1..][i] == gaps[i + 1];
  }

  lemma {:induction false} GapBehind(gaps: seq<seq<byte>>, words: seq<seq<byte>>)
    requires WellSpaced(gaps, words) && words != []
    ensures var rest := Spaced(gaps[1..], words[1..]); rest == [] || Spaces([rest[0]])
  {
    var rest := Spaced(gaps[1..], words[1..]);
    assert gaps[1] in gaps;
    if |words| > 1 || gaps[1] != [] {
      assert rest[0] == gaps[1][0];
      assert [rest[0]][0] == gaps[1][0];
    }
  }

  /** `split` finds the words between any gaps... */
  lemma {:induction false} WordsFound(gaps: seq<seq<byte>>, words: seq<seq<byte>>)
    requires WellSpaced(gaps, words)
    ensures Words(Spaced(gaps, words)) == words
  {
    hide Words, Spaces;
    if words == [] {
      assert gaps[0] in gaps;
      GapSkipped(gaps[0], []);
      NoWords();
      assert gaps[0] + [] == gaps[0];
    } else {
      FirstWordBetween(gaps, words);
      GapBehind(gaps, words);
      var rest := Spaced(gaps[1..], words[1..]);
      WordsFound(gaps[1..], words[1..]);
      GapSkipped(gaps[0], words[0] + rest);
      WordTaken(words[0], rest);
    }
  }

  lemma {:induction false} NoWords()
    ensures Words([]) == []
  {
  }

  lemma {:induction false} WordEndIsFirstSpace(s: seq<byte>)
    ensures forall i :: 0 <= i < WordEnd(s) ==> !IsSpace(s[i])
    ensures WordEnd(s) < |s| ==> IsSpace(s[WordEnd(s)])
  {
    if s != [] && !IsSpace(s[0]) {
      WordEndIsFirstSpace(s[1..]);
      assert forall i :: 0 < i < |s| ==> s[i] == s[1..][i - 1];
    }
  }

  /** ...and every string is so made of its words. */
  lemma {:induction false} MadeOfWords(s: seq<byte>) returns (gaps: seq<seq<byte>>)
    ensures WellSpaced(gaps, Words(s)) && s == Spaced(gaps, Words(s))
    decreases |s|
  {
    if s == [] {
      gaps := [[]];
    } else if IsSpace(s[0]) {
      var rest := MadeOfWords(s[1..]);
      gaps := WiderGap(s[0], rest, Words(s[1..]));
      assert s == [s[0]] + s[1..];
    } else {
      var n := WordEnd(s);
      var word, later := s[..n], s[n..];
      WordEndIsFirstSpace(s);
      var rest := MadeOfWords(later);
      assert Words(s) == [word] + Words(later) && s == word + later;
      assert forall i :: 0 <= i < |word| ==> !Spaces([word[i]]) by {
        assert forall i :: 0 <= i < |word| ==> [word[i]][0] == s[i];
      }
      assert later != [] ==> IsSpace(later[0]);
      gaps := WordBefore(word, later, rest, Words(later));
    }
  }

  lemma {:induction false} WiderGap(c: byte, gaps: seq<seq<byte>>, words: seq<seq<byte>>)
    returns (r: seq<seq<byte>>)
    requires WellSpaced(gaps, words) && IsSpace(c)
    ensures WellSpaced(r, words) && Spaced(r, words) == [c] + Spaced(gaps, words)
  {
    assert gaps[0] in gaps;
    r := [[c] + gaps[0]] + gaps[1..];
    assert r[1..] == gaps[1..];
    assert forall g :: g in gaps[1..] ==> g in gaps;
    hide Spaced;
    SpacedIs(gaps, words);
    SpacedIs(r, words);
  }

  lemma {:induction false} SpacedIs(gaps: seq<seq<byte>>, words: seq<seq<byte>>)
    requires |gaps| == |words| + 1
    ensures Spaced(gaps, words) == if words == [] then gaps[0] else gaps[0] + (words[0] + Spaced(gaps[1..], words[1..]))
  {
  }

  lemma {:induction false} WordStarts(gaps: seq<seq<byte>>, words: seq<seq<byte>>)
    requires WellSpaced(gaps, words) && words != [] && gaps[0] == []
    ensures Spaced(gaps, words) != [] && !IsSpace(Spaced(gaps, words)[0])
  {
    assert words[0] in words && !Spaces([words[0][0]]);
    assert Spaced(gaps, words)[0] == words[0][0];
  }

  lemma {:induction false} WordBefore(word: seq<byte>, later: seq<byte>, gaps: seq<seq<byte>>, words: seq<seq<byte>>)
    returns (r: seq<seq<byte>>)
    requires WellSpaced(gaps, words) && later == Spaced(gaps, words)
    requires word != [] && forall i :: 0 <= i < |word| ==> !Spaces([word[i]])
    requires later != [] ==> IsSpace(later[0])
    ensures WellSpaced(r, [word] + words) && Spaced(r, [word] + words) == word + later
  {
    r := [[]] + gaps;
    assert r[1..] == gaps && ([word] + words)[1..] == words;
    if gaps[0] == [] && words != [] {
      WordStarts(gaps, words);
    }
    assert forall i :: 1 < i < |words| + 1 ==> r[i] == gaps[i - 1];
  }

  // ---- the round trip -----------------------------------------------------------------

  function WordOf(e: Endpoint): seq<byte> { (if e.protocol.Udp? then UDP else TCP) + Digits(e.port) }

  function WordsOf(es: seq<Endpoint>): (r: seq<seq<byte>>)
    ensures |r| == |es|
    ensures forall i :: 0 <= i < |es| ==> r[i] == WordOf(es[i])
  {
    if es == [] then [] else [WordOf(es[0])] + WordsOf(es[1..])
  }

  /** The record an operator writes for these endpoints. */
  function Render(es: seq<Endpoint>): seq<byte> { Join([MARKER] + WordsOf(es), SPACE) }

  predicate PlainWord(w: seq<byte>) { w != [] && forall i :: 0 <= i < |w| ==> !IsSpace(w[i]) }

  lemma {:induction false} DigitsPlain(n: nat)
    ensures PlainWord(Digits(n))
  {
  }

  lemma {:induction false} WordOfPlain(e: Endpoint)
    requires GoodPort(e.port)
    ensures PlainWord(WordOf(e)) && EndpointOf(WordOf(e)) == Some(e)
  {
    var ds := Digits(e.port);
    DigitsPlain(e.port);
    ValueDigits(e.port);
    assert WordOf(e)[4..] == ds;
    assert UDP[0] == 85 && TCP[0] == 84 && WordOf(e)[..4] == if e.protocol.Udp? then UDP else TCP;
    assert !IsSpace(UDP[0]) && !IsSpace(UDP[1]) && !IsSpace(UDP[2]) && !IsSpace(UDP[3]);
    assert !IsSpace(TCP[0]) && !IsSpace(TCP[1]) && !IsSpace(TCP[2]) && !IsSpace(TCP[3]);
  }

  lemma {:induction false} WordEndIs(s: seq<byte>, n: nat)
    requires n <= |s| && PlainWord(s[..n]) && (n < |s| ==> IsSpace(s[n]))
    ensures WordEnd(s) == n
    decreases n
  {
    assert !IsSpace(s[..n][0]);
    if n > 1 {
      assert s[1..][..n - 1] == s[..n][1..];
      WordEndIs(s[1..], n - 1);
    }
  }

  /** Splitting undoes joining with single spaces. */
  lemma {:induction false} WordsJoin(ws: seq<seq<byte>>)
    requires ws != [] && forall w :: w in ws ==> PlainWord(w)
    ensures Words(Join(ws, SPACE)) == ws
    decreases |ws|
  {
    var s := Join(ws, SPACE);
    var n := |ws[0]|;
    assert ws[0] in ws && s[..n] == ws[0];
    assert !IsSpace(ws[0][0]);
    if |ws| == 1 {
      WordEndIs(s, n);
      assert s[n..] == [];
    } else {
      assert s[n] == SPACE;
      WordEndIs(s, n);
      assert s[n..][1..] == Join(ws[1..], SPACE);
      WordsJoin(ws[1..]);
    }
  }

  lemma {:induction false} GatherWordsOf(es: seq<Endpoint>, kept: seq<Endpoint>)
    requires NoRepeats(kept + es) && forall e :: e in es ==> GoodPort(e.port)
    ensures Gather(WordsOf(es), kept) == kept + es
    decreases |es|
  {
    hide EndpointOf, WordOf;
    if es == [] {
      assert kept + es == kept;
    } else {
      var e := es[0];
      assert e in es;
      WordOfPlain(e);
      forall i | 0 <= i < |kept| ensures kept[i] != e {
        assert (kept + es)[i] != (kept + es)[|kept|];
      }
      assert WordsOf(es)[1..] == WordsOf(es[1..]);
      assert kept + es == kept + [e] + es[1..];
      GatherWordsOf(es[1..], kept + [e]);
    }
  }

  lemma {:induction false} MarkerPlain()
    ensures PlainWord(MARKER)
  {
    assert forall i :: 0 <= i < |MARKER| ==> MARKER[i] >= 65;
  }

  lemma {:induction false} WordsOfPlain(es: seq<Endpoint>)
    requires forall e :: e in es ==> GoodPort(e.port)
    ensures forall w :: w in WordsOf(es) ==> PlainWord(w)
  {
    forall w | w in WordsOf(es) ensures PlainWord(w) {
      var i :| 0 <= i < |es| && w == WordOf(es[i]);
      WordOfPlain(es[i]);
    }
  }

  /** What an operator renders, this project reads: the same endpoints in the same order. */
  lemma {:induction false} ParseRender(es: seq<Endpoint>)
    requires NoRepeats(es) && |es| <= MAX_ENDPOINTS && forall e :: e in es ==> GoodPort(e.port)
    ensures Parse(Render(es)) == Parsed(Record(Render(es), es))
  {
    hide Join, WordsOf, PlainWord, Words;
    var ws := [MARKER] + WordsOf(es);
    MarkerPlain();
    WordsOfPlain(es);
    WordsJoin(ws);
    assert ws[1..] == WordsOf(es) && [] + es == es;
    GatherWordsOf(es, []);
  }
}
