/**
 * What stands on the decoder: the torrent file `build_torrent` writes by hand, the
 * classifier that tells a tracker's answer from a web page, and inputs on which the
 * decoder's promise of one encoding per value fails.
 */
module BencodeUses {
  import opened Bytes
  import opened Text
  import opened Order
  import opened Bencode
  import opened BencodeCanonical

  // ---- build_torrent ----------------------------------------------------------

  function Tiers(entries: seq<seq<byte>>): seq<byte> {
    if entries == [] then []
    else Ascii("l") + BStr(entries[0]) + Ascii("e") + Tiers(entries[1..])
  }

  function InfoBytes(piece: seq<byte>): seq<byte> {
    Ascii("d6:lengthi1e") + Ascii("4:name4:test") + Ascii("12:piece lengthi16384e")
    + Ascii("6:pieces20:") + piece + Ascii("e")
  }

  /** The bytes `build_torrent` writes, for entries already encoded as UTF-8. */
  function BuildTorrent(piece: seq<byte>, entries: seq<seq<byte>>): seq<byte> {
    Ascii("d8:announce") + BStr(Ascii("udp://placeholder.invalid:80/a"))
    + Ascii("13:announce-list") + Ascii("l") + Tiers(entries) + Ascii("e")
    + Ascii("4:info") + InfoBytes(piece) + Ascii("e")
  }

  function TierValues(entries: seq<seq<byte>>): (r: seq<Bencode.Value>)
    ensures |r| == |entries|
    ensures forall i :: 0 <= i < |r| ==> r[i] == List([Str(entries[i])])
  {
    if entries == [] then [] else [List([Str(entries[0])])] + TierValues(entries[1..])
  }

  function InfoValue(piece: seq<byte>): Bencode.Value {
    Dict([Entry(Ascii("length"), Int(1)), Entry(Ascii("name"), Str(Ascii("test"))),
          Entry(Ascii("piece length"), Int(16384)), Entry(Ascii("pieces"), Str(piece))])
  }

  /** The torrent those bytes are meant to say. */
  function TorrentValue(piece: seq<byte>, entries: seq<seq<byte>>): Bencode.Value {
    Dict([Entry(Ascii("announce"), Str(Ascii("udp://placeholder.invalid:80/a"))),
          Entry(Ascii("announce-list"), List(TierValues(entries))),
          Entry(Ascii("info"), InfoValue(piece))])
  }

  lemma {:induction false} LexAfterPrefix(p: seq<int>, a: seq<int>, b: seq<int>)
    requires LexLess(a, b)
    ensures LexLess(p + a, p + b)
  {
    if p == [] {
      assert p + a == a && p + b == b;
    } else {
      LexAfterPrefix(p[1..], a, b);
      assert (p + a)[1..] == p[1..] + a && (p + b)[1..] == p[1..] + b;
    }
  }

  lemma {:induction false} KeysInOrder()
    ensures LexLess(Ascii("announce"), Ascii("announce-list"))
    ensures LexLess(Ascii("announce-list"), Ascii("info"))
    ensures LexLess(Ascii("length"), Ascii("name"))
    ensures LexLess(Ascii("name"), Ascii("piece length"))
    ensures LexLess(Ascii("piece length"), Ascii("pieces"))
  {
    LexAfterPrefix(Ascii("announce"), [], Ascii("-list"));
    assert Ascii("announce") + [] == Ascii("announce");
    assert Ascii("announce") + Ascii("-list") == Ascii("announce-list");
    LexAfterPrefix(Ascii("piece"), Ascii(" length"), Ascii("s"));
    assert Ascii("piece") + Ascii(" length") == Ascii("piece length");
    assert Ascii("piece") + Ascii("s") == Ascii("pieces");
  }

  lemma {:induction false} Ascending3(a: Entry, b: Entry, c: Entry)
    requires KeyLess(a, b) && KeyLess(b, c)
    ensures StrictlyAscending([a, b, c], KeyLess)
  {
    LexTransitive(a.key, b.key, c.key);
  }

  lemma {:induction false} InfoSorted(piece: seq<byte>)
    ensures SortedKeys(InfoValue(piece))
  {
    KeysInOrder();
    var es := InfoValue(piece).entries;
    LexTransitive(es[0].key, es[1].key, es[2].key);
    LexTransitive(es[0].key, es[2].key, es[3].key);
    LexTransitive(es[1].key, es[2].key, es[3].key);
    forall i, j | 0 <= i < j < |es| ensures KeyLess(es[i], es[j]) { }
  }

  lemma {:induction false} TorrentSorted(piece: seq<byte>, entries: seq<seq<byte>>)
    ensures SortedKeys(TorrentValue(piece, entries))
  {
    KeysInOrder();
    InfoSorted(piece);
    var es := TorrentValue(piece, entries).entries;
    Ascending3(es[0], es[1], es[2]);
    forall v | v in TierValues(entries) ensures SortedKeys(v) {
      var i :| 0 <= i < |entries| && v == TierValues(entries)[i];
      assert forall x :: x in [Str(entries[i])] ==> x == Str(entries[i]);
    }
    assert SortedKeys(es[1].val);
  }

  /** A `_bstr` of a short literal is the literal behind its length and a colon. */
  lemma {:induction false} Literal(key: string, n: nat, spelled: string)
    requires |key| == n < 10 && spelled == [(48 + n) as char] + ":" + key
    ensures BStr(Ascii(key)) == Ascii(spelled)
  {
    assert Digits(n) == [48 + n];
  }

  lemma {:induction false} LongLiteral(key: string, n: nat, spelled: string)
    requires |key| == n && 10 <= n < 20 && spelled == "1" + [(38 + n) as char] + ":" + key
    ensures BStr(Ascii(key)) == Ascii(spelled)
  {
    assert Digits(n) == Digits(1) + [38 + n] == [49, 38 + n];
  }

  lemma {:induction false} Literals1()
    ensures BStr(Ascii("announce")) == Ascii("8:announce")
    ensures BStr(Ascii("info")) == Ascii("4:info")
    ensures BStr(Ascii("length")) == Ascii("6:length")
    ensures BStr(Ascii("name")) == Ascii("4:name")
  {
    hide BStr, Digits, Ascii;
    Literal("announce", 8, "8:announce");
    Literal("info", 4, "4:info");
    Literal("length", 6, "6:length");
    Literal("name", 4, "4:name");
  }

  lemma {:induction false} Literals2()
    ensures BStr(Ascii("announce-list")) == Ascii("13:announce-list")
    ensures BStr(Ascii("test")) == Ascii("4:test")
    ensures BStr(Ascii("piece length")) == Ascii("12:piece length")
    ensures BStr(Ascii("pieces")) == Ascii("6:pieces")
  {
    hide BStr, Digits, Ascii;
    LongLiteral("announce-list", 13, "13:announce-list");
    Literal("test", 4, "4:test");
    LongLiteral("piece length", 12, "12:piece length");
    Literal("pieces", 6, "6:pieces");
  }

  lemma {:induction false} Literals()
    ensures BStr(Ascii("announce")) == Ascii("8:announce")
    ensures BStr(Ascii("announce-list")) == Ascii("13:announce-list")
    ensures BStr(Ascii("info")) == Ascii("4:info")
    ensures BStr(Ascii("length")) == Ascii("6:length")
    ensures BStr(Ascii("name")) == Ascii("4:name")
    ensures BStr(Ascii("test")) == Ascii("4:test")
    ensures BStr(Ascii("piece length")) == Ascii("12:piece length")
    ensures BStr(Ascii("pieces")) == Ascii("6:pieces")
  {
    Literals1();
    Literals2();
  }

  lemma {:induction false} Numerals()
    ensures IntText(1) == Ascii("1")
    ensures IntText(16384) == Ascii("16384")
    ensures Digits(20) == Ascii("20")
  {
    assert Digits(16) == Digits(1) + [54] == [49, 54];
    assert Digits(163) == Digits(16) + [51] == [49, 54, 51];
    assert Digits(1638) == Digits(163) + [56] == [49, 54, 51, 56];
    assert Digits(16384) == Digits(1638) + [52];
    assert Digits(20) == Digits(2) + [48];
  }

  lemma {:induction false} Assoc(a: seq<byte>, b: seq<byte>, c: seq<byte>)
    ensures (a + b) + c == a + (b + c)
  {
  }

  lemma {:induction false} Single(c: string, b: byte)
    requires |c| == 1 && c[0] as int == b
    ensures Ascii(c) == [b]
  {
  }

  /** One tier's bytes are the encoding of a one-string list. */
  lemma {:induction false} TierIs(e: seq<byte>)
    ensures Encode(List([Str(e)])) == Ascii("l") + BStr(e) + Ascii("e")
  {
    hide BStr;
    Single("l", LIST);
    Single("e", END);
    assert [Str(e)][1..] == [];
    assert EncodeItems([Str(e)]) == BStr(e) + [END];
    Assoc([LIST], BStr(e), [END]);
  }

  lemma {:induction false} TiersAre(entries: seq<seq<byte>>)
    ensures EncodeItems(TierValues(entries)) == Tiers(entries) + Ascii("e")
  {
    hide BStr;
    Single("e", END);
    if entries == [] {
      assert [] + [END] == [END];
    } else {
      var tier, rest := List([Str(entries[0])]), TierValues(entries[1..]);
      TierIs(entries[0]);
      TiersAre(entries[1..]);
      assert TierValues(entries) == [tier] + rest && TierValues(entries)[1..] == rest;
      Assoc(Encode(tier), Tiers(entries[1..]), [END]);
    }
  }

  lemma {:induction false} EncodeOne(e: Entry)
    ensures EncodeEntries([e]) == BStr(e.key) + (Encode(e.val) + [END])
  {
    hide BStr;
    assert [e][1..] == [];
  }

  lemma {:induction false} EncodeMore(e: Entry, es: seq<Entry>)
    ensures EncodeEntries([e] + es) == BStr(e.key) + (Encode(e.val) + EncodeEntries(es))
  {
    hide BStr;
    assert ([e] + es)[1..] == es;
  }

  lemma {:induction false} EncodeSmall(n: nat, text: seq<byte>)
    requires IntText(n) == text
    ensures Encode(Int(n)) == [INT] + (text + [END])
  {
  }

  lemma {:induction false} PieceBytes(piece: seq<byte>)
    requires |piece| == 20
    ensures BStr(piece) == Ascii("20:") + piece
  {
    Numerals();
    assert Ascii("20:") == Ascii("20") + [COLON];
    Assoc(Ascii("20"), [COLON], piece);
  }

  lemma {:induction false} InfoIs(piece: seq<byte>)
    requires |piece| == 20
    ensures Encode(InfoValue(piece)) == InfoBytes(piece)
  {
    hide BStr, IntText, Digits, EncodeEntries, Ascii;
    var es := InfoValue(piece).entries;
    Literals();
    Numerals();
    PieceBytes(piece);
    EncodeOne(es[3]);
    EncodeMore(es[2], [es[3]]);
    EncodeMore(es[1], [es[2], es[3]]);
    EncodeMore(es[0], [es[1], es[2], es[3]]);
    EncodeSmall(1, Ascii("1"));
    EncodeSmall(16384, Ascii("16384"));
    assert [es[2]] + [es[3]] == [es[2], es[3]];
    assert [es[1]] + [es[2], es[3]] == [es[1], es[2], es[3]];
    assert [es[0]] + [es[1], es[2], es[3]] == es;
    InfoPieces(piece);
  }

  lemma {:induction false} InfoLiterals()
    ensures Ascii("d6:lengthi1e") == [DICT] + Ascii("6:length") + ([INT] + (Ascii("1") + [END]))
    ensures Ascii("4:name4:test") == Ascii("4:name") + Ascii("4:test")
    ensures Ascii("12:piece lengthi16384e")
         == Ascii("12:piece length") + ([INT] + (Ascii("16384") + [END]))
    ensures Ascii("6:pieces20:") == Ascii("6:pieces") + Ascii("20:")
  {
  }

  lemma {:induction false} Regroup9(a: seq<byte>, b: seq<byte>, c: seq<byte>, d: seq<byte>, e: seq<byte>,
                                    f: seq<byte>, g: seq<byte>, h: seq<byte>, i: seq<byte>)
    ensures a + (b + (c + (d + (e + (f + (g + (h + i)))))))
         == (a + b + c) + (d + e) + (f + g) + (h + i)
  {
    Assoc(a + b, c, d + (e + (f + (g + (h + i)))));
    Assoc(a, b, c + (d + (e + (f + (g + (h + i))))));
    Assoc(d, e, f + (g + (h + i)));
    Assoc(f, g, h + i);
    Assoc(a + b + c, d + e, (f + g) + (h + i));
    Assoc(a + b + c + (d + e), f + g, h + i);
  }

  /** The pieces of the encoding, regrouped into the literals the source wrote. */
  lemma {:induction false} InfoPieces(piece: seq<byte>)
    ensures [DICT] + (Ascii("6:length") + (([INT] + (Ascii("1") + [END]))
            + (Ascii("4:name") + (Ascii("4:test")
            + (Ascii("12:piece length") + (([INT] + (Ascii("16384") + [END]))
            + (Ascii("6:pieces") + ((Ascii("20:") + piece) + [END]))))))))
            == InfoBytes(piece)
  {
    InfoLiterals();
    Single("e", END);
    var last := (Ascii("20:") + piece) + [END];
    Regroup9([DICT], Ascii("6:length"), [INT] + (Ascii("1") + [END]), Ascii("4:name"), Ascii("4:test"),
             Ascii("12:piece length"), [INT] + (Ascii("16384") + [END]), Ascii("6:pieces"), last);
    var head := Ascii("d6:lengthi1e") + Ascii("4:name4:test") + Ascii("12:piece lengthi16384e");
    Assoc(Ascii("6:pieces"), Ascii("20:") + piece, [END]);
    Assoc(Ascii("6:pieces"), Ascii("20:"), piece);
    Assoc(head, Ascii("6:pieces20:") + piece, [END]);
    Assoc(head, Ascii("6:pieces20:"), piece);
  }

  /** The whole file is the encoding of the torrent it means, and is canonical. */
  lemma {:induction false} TorrentIs(piece: seq<byte>, entries: seq<seq<byte>>)
    requires |piece| == 20
    ensures BuildTorrent(piece, entries) == Encode(TorrentValue(piece, entries))
  {
    hide BStr, Tiers, InfoBytes, InfoValue, TierValues;
    var es := TorrentValue(piece, entries).entries;
    Literals();
    EncodeOne(es[2]);
    EncodeMore(es[1], [es[2]]);
    EncodeMore(es[0], [es[1], es[2]]);
    assert [es[1]] + [es[2]] == [es[1], es[2]];
    assert [es[0]] + [es[1], es[2]] == es;
    TiersAre(entries);
    InfoIs(piece);
    TorrentPieces(BStr(Ascii("udp://placeholder.invalid:80/a")), Tiers(entries), InfoBytes(piece));
  }

  lemma {:induction false} TorrentPieces(url: seq<byte>, tiers: seq<byte>, info: seq<byte>)
    ensures [DICT] + (Ascii("8:announce") + (url
            + (Ascii("13:announce-list") + (([LIST] + (tiers + Ascii("e")))
            + (Ascii("4:info") + (info + [END]))))))
         == Ascii("d8:announce") + url + Ascii("13:announce-list") + Ascii("l") + tiers + Ascii("e")
            + Ascii("4:info") + info + Ascii("e")
  {
    Single("l", LIST);
    Single("e", END);
    assert Ascii("d8:announce") == [DICT] + Ascii("8:announce");
    Regroup10([DICT], Ascii("8:announce"), url, Ascii("13:announce-list"), [LIST], tiers, Ascii("e"),
             Ascii("4:info"), info, [END]);
  }

  lemma {:induction false} Regroup10(a: seq<byte>, b: seq<byte>, c: seq<byte>, d: seq<byte>, e: seq<byte>,
                                     f: seq<byte>, g: seq<byte>, h: seq<byte>, i: seq<byte>, j: seq<byte>)
    ensures a + (b + (c + (d + ((e + (f + g)) + (h + (i + j))))))
         == (a + b) + c + d + e + f + g + h + i + j
  {
    var tail := h + (i + j);
    Assoc(a, b, c + (d + ((e + (f + g)) + tail)));
    Assoc(a + b, c, d + ((e + (f + g)) + tail));
    Assoc(a + b + c, d, (e + (f + g)) + tail);
    var head := a + b + c + d;
    Assoc(e, f, g);
    Assoc(head, e + f + g, tail);
    Assoc(head, e + f, g);
    Assoc(head, e, f);
    Assoc(head + e + f + g, h, i + j);
    Assoc(head + e + f + g + h, i, j);
  }

  /** The decoder reads back exactly the torrent, to the last byte, whatever the entries. */
  lemma {:induction false} TorrentDecodes(piece: seq<byte>, entries: seq<seq<byte>>)
    requires |piece| == 20
    ensures BDecode(BuildTorrent(piece, entries))
         == Ok(TorrentValue(piece, entries), |BuildTorrent(piece, entries)|)
    ensures Strict(BuildTorrent(piece, entries), 0)
  {
    hide Encode, Dec, TorrentValue, BuildTorrent, Holds, At;
    var v := TorrentValue(piece, entries);
    TorrentIs(piece, entries);
    TorrentSorted(piece, entries);
    SortedIsUnique(v);
    DecodeEncode(v);
    AtSelf(Encode(v));
    HoldsIsAt(Encode(v), 0, v);
    EncodingStrict(Encode(v), 0, v);
  }

  // ---- where "one encoding per value" fails ------------------------------------

  /**
   * A string is accepted behind every spelling of its length that starts with a digit and
   * that `int` takes; only the spelling in digits alone is canonical.
   */
  lemma {:induction false} AnySpelling(raw: seq<byte>, bs: seq<byte>)
    requires raw != [] && IsDigit(raw[0]) && COLON !in raw && Length(raw) == Number(|bs|)
    ensures BDecode(raw + [COLON] + bs) == Ok(Str(bs), |raw| + 1 + |bs|)
    ensures Strict(raw + [COLON] + bs, 0) <==> AllDigits(raw)
  {
    hide Length, AllDigits;
    var d := raw + [COLON] + bs;
    var j := |raw|;
    assert d[0] == raw[0] && d[j] == COLON;
    forall k | 0 <= k < j ensures d[k] != COLON {
      assert d[k] == raw[k] && raw[k] in raw;
    }
    FindFromFirst(d, 0, j, COLON);
    assert d[0..j] == raw && d[j + 1..j + 1 + |bs|] == bs;
    DecIsStr(d, 0);
  }

  lemma {:induction false} ElevenWithUnderscore()
    ensures Length([49, 95, 49]) == Number(11) && !AllDigits([49, 95, 49])
  {
    var raw: seq<byte> := [49, 95, 49];
    assert raw[2..] == [49] && raw[1..] == [95, 49] && raw[1..][1..] == [49] && [49][1..] == [];
    assert GroupedDigits([49]) && GroupedDigits(raw);
    assert OnlyDigits([49]) == [49] && OnlyDigits([95, 49]) == [49];
    assert OnlyDigits(raw) == [49] + OnlyDigits(raw[1..]) == [49, 49];
    assert [49, 49][..1] == [49] && [49][..0] == [];
    assert Text.Value([49]) == 1 && Text.Value([49, 49]) == 11;
  }

  /** Two different byte strings, one value: the first limit is sharp. */
  lemma {:induction false} UnderscoreInLength()
    ensures var bs := Ascii("abcdefghijk");
            && BDecode([49, 95, 49] + [COLON] + bs) == Ok(Str(bs), 15)
            && BDecode(BStr(bs)) == Ok(Str(bs), |BStr(bs)|)
            && !Strict([49, 95, 49] + [COLON] + bs, 0)
  {
    var bs := Ascii("abcdefghijk");
    ElevenWithUnderscore();
    AnySpelling([49, 95, 49], bs);
    DecodeEncode(Str(bs));
  }

  /** Any order of keys is accepted, and only the sorted one is canonical. */
  lemma {:induction false} KeyOrder(v: Bencode.Value)
    requires UniqueKeys(v)
    ensures BDecode(Encode(v)) == Ok(v, |Encode(v)|)
    ensures Strict(Encode(v), 0) <==> SortedKeys(v)
  {
    hide Encode, Holds, At, Dec;
    var d := Encode(v);
    DecodeEncode(v);
    AtSelf(d);
    HoldsIsAt(d, 0, v);
    if SortedKeys(v) {
      EncodingStrict(d, 0, v);
    }
    if Strict(d, 0) {
      var w, _ := StrictReencodes(d, 0);
    }
  }

  /** Two orders of one dictionary, both accepted: the second limit is sharp. */
  lemma {:induction false} KeysOutOfOrder()
    ensures var v := Dict([Entry(Ascii("b"), Int(1)), Entry(Ascii("a"), Int(2))]);
            BDecode(Encode(v)).Ok? && !Strict(Encode(v), 0)
  {
    var v := Dict([Entry(Ascii("b"), Int(1)), Entry(Ascii("a"), Int(2))]);
    assert Ascii("b")[0] == 98 && Ascii("a")[0] == 97;
    assert !KeyLess(v.entries[0], v.entries[1]);
    KeyOrder(v);
  }

  lemma {:induction false} TwoEntriesHeld(d: seq<byte>, a: Entry, b: Entry) returns (i: nat, j: nat, m: nat, n: nat)
    requires Holds(d, 0, Dict([a, b]))
    ensures i == 1 + LenStr(a.key) && j == i + Len(a.val) && m == j + LenStr(b.key) && n == m + Len(b.val)
    ensures n + 1 == Len(Dict([a, b]))
    ensures HoldsStr(d, 1, a.key) && Holds(d, i, a.val) && HoldsStr(d, j, b.key) && Holds(d, m, b.val)
    ensures n < |d| && d[n] == END && 0 < |d| && d[0] == DICT
  {
    hide HoldsStr, HoldsInt, LenStr, IntText;
    i := 1 + LenStr(a.key);
    j := i + Len(a.val);
    m := j + LenStr(b.key);
    n := m + Len(b.val);
    var es := [a, b];
    assert HoldsEntries(d, 1, es) && es[1..] == [b];
    assert HoldsEntries(d, j, [b]) && [b][1..] == [];
    assert HoldsEntries(d, n, []);
    assert LenEntries([b]) == LenStr(b.key) + Len(b.val) + 1;
  }

  lemma {:induction false} RepeatedDecodes(d: seq<byte>, k: seq<byte>, v: Bencode.Value, w: Bencode.Value)
    requires UniqueKeys(v) && UniqueKeys(w) && Holds(d, 0, Dict([Entry(k, v), Entry(k, w)]))
    ensures Dec(d, 0) == Ok(Dict([Entry(k, w)]), Len(Dict([Entry(k, v), Entry(k, w)])))
  {
    hide Holds, HoldsStr, DecInt, DecStr, LenStr, Len, Put, UniqueKeys;
    var a, b := Entry(k, v), Entry(k, w);
    var i, j, m, n := TwoEntriesHeld(d, a, b);
    DecodesStr(d, 1, k);
    DecIsStr(d, 1);
    RoundTrip(d, i, v);
    DecodesStr(d, j, k);
    DecIsStr(d, j);
    RoundTrip(d, m, w);
    PutTwice(k, v, w);
    DecEntriesStep(d, 1, i, j, [], a);
    DecEntriesStep(d, j, m, n, [a], b);
    assert DecEntries(d, n, [b]) == Ok([b], n + 1);
    DecIsDict(d, 0, [b], n + 1);
  }

  lemma {:induction false} DroppingShortens(a: Entry, b: Entry)
    ensures Len(Dict([b])) < Len(Dict([a, b]))
  {
    hide LenStr;
    assert [a, b][1..] == [b];
  }

  /** A repeated key is accepted and the first value is lost, for every key and value. */
  lemma {:induction false} RepeatedKey(k: seq<byte>, v: Bencode.Value, w: Bencode.Value)
    requires UniqueKeys(v) && UniqueKeys(w)
    ensures var d := Encode(Dict([Entry(k, v), Entry(k, w)]));
            BDecode(d) == Ok(Dict([Entry(k, w)]), |d|) && !Strict(d, 0)
  {
    hide Encode, At, Holds, Dec, Strict, Len;
    var a, b := Entry(k, v), Entry(k, w);
    var d := Encode(Dict([a, b]));
    AtSelf(d);
    HoldsIsAt(d, 0, Dict([a, b]));
    RepeatedDecodes(d, k, v, w);
    DroppingShortens(a, b);
    if Strict(d, 0) {
      var u, len := StrictReencodes(d, 0);
      assert false;
    }
  }

  lemma {:induction false} PutTwice(k: seq<byte>, v: Bencode.Value, w: Bencode.Value)
    ensures Put([], k, v) == [Entry(k, v)] && Put([Entry(k, v)], k, w) == [Entry(k, w)]
    ensures [] + [Entry(k, w)] == [Entry(k, w)]
  {
  }

  // ---- classify_body ----------------------------------------------------------

  datatype Kind =
    | Empty | Html | NotBencode | NotDict | Unrecognised
    | FailureResponse | AnnounceResponse | ScrapeResponse

  /** `TRACKER_KINDS`. */
  predicate TrackerKind(k: Kind) { k.FailureResponse? || k.AnnounceResponse? || k.ScrapeResponse? }

  function TrimLeft(bs: seq<byte>): seq<byte> {
    if bs != [] && IsSpace(bs[0]) then TrimLeft(bs[1..]) else bs
  }

  predicate Contains(bs: seq<byte>, needle: seq<byte>) {
    needle <= bs || (bs != [] && Contains(bs[1..], needle))
  }

  function Prefix(bs: seq<byte>, n: nat): seq<byte> { if |bs| < n then bs else bs[..n] }

  predicate LooksHtml(body: seq<byte>) {
    || Prefix(TrimLeft(Prefix(body, 60)), 1) == [60]
    || Contains(Lower(Prefix(body, 512)), Ascii("<html"))
  }

  predicate HasKey(es: seq<Entry>, key: string) {
    IndexOfKey(es, Ascii(key)) < |es|
  }

  /** The `kind` that `classify_body` reports. */
  function Classify(body: seq<byte>): Kind {
    if body == [] then Empty
    else match BDecode(body)
      case Err(_) => if LooksHtml(body) then Html else NotBencode
      case Ok(v, _) =>
        if !v.Dict? then NotDict
        else if HasKey(v.entries, "failure reason") || HasKey(v.entries, "failure_reason") then FailureResponse
        else if HasKey(v.entries, "peers") || HasKey(v.entries, "interval") then AnnounceResponse
        else if HasKey(v.entries, "files") then ScrapeResponse
        else Unrecognised
  }

  /**
   * A body is taken for a tracker's answer on the evidence of its own bytes: cut short it
   * never is, and nothing that follows the dictionary can change what it was taken for.
   */
  lemma {:induction false} TruncatedNeverTracker(body: seq<byte>, cut: nat, suffix: seq<byte>)
    requires TrackerKind(Classify(body))
    ensures BDecode(body).Ok?
    ensures cut < BDecode(body).next ==> !TrackerKind(Classify(body[..cut]))
    ensures Classify(body[..BDecode(body).next] + suffix) == Classify(body)
  {
    hide Dec, HasKey, LooksHtml;
    PrefixCode(body, suffix, cut);
  }

  // ---- each kind, in terms of the body ----------------------------------------------------

  /** The dictionary holds the key. */
  ghost predicate HasEntry(es: seq<Entry>, key: string) {
    exists e :: e in es && e.key == Ascii(key)
  }

  lemma {:induction false} HasKeyIs(es: seq<Entry>, key: string)
    ensures HasKey(es, key) <==> HasEntry(es, key)
  {
    var n := IndexOfKey(es, Ascii(key));
    if HasEntry(es, key) {
      var e :| e in es && e.key == Ascii(key);
      var i :| 0 <= i < |es| && es[i] == e;
    }
    if n < |es| {
      assert es[n] in es;
    }
  }

  /** The first byte that is no white space is `<`, and it is among the first 60. */
  predicate OpensTag(body: seq<byte>) {
    exists i :: 0 <= i < |body| && i < 60 && body[i] == 60
                && forall j :: 0 <= j < i ==> body[j] == 32 || 9 <= body[j] <= 13
  }

  /** `<html`, its letters large or small. */
  predicate HtmlAt(body: seq<byte>, i: nat) {
    && i + 5 <= |body| && body[i] == 60
    && body[i + 1] in {72, 104} && body[i + 2] in {84, 116} && body[i + 3] in {77, 109} && body[i + 4] in {76, 108}
  }

  lemma {:induction false} TrimLeftFinds(bs: seq<byte>)
    ensures Prefix(TrimLeft(bs), 1) == [60] <==>
              exists i :: 0 <= i < |bs| && bs[i] == 60 && forall j :: 0 <= j < i ==> bs[j] == 32 || 9 <= bs[j] <= 13
  {
    if bs != [] && IsSpace(bs[0]) {
      TrimLeftFinds(bs[1..]);
      assert forall i :: 0 < i < |bs| ==> bs[i] == bs[1..][i - 1];
      assert forall i :: 0 <= i < |bs| - 1 ==> bs[1..][i] == bs[i + 1];
    }
  }

  predicate StandsAt(bs: seq<byte>, needle: seq<byte>, i: nat) {
    i + |needle| <= |bs| && bs[i..i + |needle|] == needle
  }

  lemma {:induction false} StandsLater(bs: seq<byte>, needle: seq<byte>, i: nat)
    requires bs != []
    ensures StandsAt(bs, needle, i + 1) <==> StandsAt(bs[1..], needle, i)
  {
    if i + 1 + |needle| <= |bs| {
      assert bs[1..][i..i + |needle|] == bs[i + 1..i + 1 + |needle|];
    }
  }

  lemma {:induction false} StandsFirst(bs: seq<byte>, needle: seq<byte>)
    ensures needle <= bs <==> StandsAt(bs, needle, 0)
    ensures bs == [] ==> forall i: nat :: StandsAt(bs, needle, i) ==> i == 0
  {
  }

  lemma {:induction false} ContainsIs(bs: seq<byte>, needle: seq<byte>)
    ensures Contains(bs, needle) <==> exists i: nat :: StandsAt(bs, needle, i)
  {
    hide StandsAt;
    StandsFirst(bs, needle);
    if bs != [] {
      ContainsIs(bs[1..], needle);
      forall i: nat ensures StandsAt(bs[1..], needle, i) <==> StandsAt(bs, needle, i + 1) {
        StandsLater(bs, needle, i);
      }
      if i: nat :| StandsAt(bs, needle, i) && i > 0 {
        StandsLater(bs, needle, i - 1);
      }
    }
  }

  lemma {:induction false} LoweredHtml(bs: seq<byte>, i: nat)
    ensures StandsAt(Lower(bs), Ascii("<html"), i) <==> HtmlAt(bs, i)
  {
    var l, tag := Lower(bs), Ascii("<html");
    assert tag == [60, 104, 116, 109, 108];
    if i + 5 <= |bs| {
      assert l[i..i + 5] == [l[i], l[i + 1], l[i + 2], l[i + 3], l[i + 4]];
    }
  }

  lemma {:induction false} HtmlInFront(body: seq<byte>)
    ensures Contains(Lower(Prefix(body, 512)), Ascii("<html")) <==> exists i: nat :: i + 5 <= 512 && HtmlAt(body, i)
  {
    hide Lower, Contains, Ascii, StandsAt;
    var front := Prefix(body, 512);
    ContainsIs(Lower(front), Ascii("<html"));
    forall i: nat ensures StandsAt(Lower(front), Ascii("<html"), i) <==> i + 5 <= 512 && HtmlAt(body, i) {
      LoweredHtml(front, i);
    }
  }

  /** What passes for a web page. */
  lemma {:induction false} HtmlIs(body: seq<byte>)
    ensures LooksHtml(body) <==> OpensTag(body) || exists i: nat :: i + 5 <= 512 && HtmlAt(body, i)
  {
    hide Contains, TrimLeft, HtmlAt, Lower;
    var head := Prefix(body, 60);
    TrimLeftFinds(head);
    assert forall i :: 0 <= i < |head| ==> head[i] == body[i];
    HtmlInFront(body);
  }

  /** Each kind, exactly: by the keys of the dictionary that stands first in the body. */
  lemma {:induction false} KindOfDictionary(body: seq<byte>, es: seq<Entry>, n: nat)
    requires BDecode(body) == Ok(Dict(es), n)
    ensures var failure := HasEntry(es, "failure reason") || HasEntry(es, "failure_reason");
            var announce := HasEntry(es, "peers") || HasEntry(es, "interval");
            && (Classify(body) == FailureResponse <==> failure)
            && (Classify(body) == AnnounceResponse <==> !failure && announce)
            && (Classify(body) == ScrapeResponse <==> !failure && !announce && HasEntry(es, "files"))
            && (Classify(body) == Unrecognised <==> !failure && !announce && !HasEntry(es, "files"))
  {
    hide HasKey, HasEntry, LooksHtml, Dec;
    assert body != [] by { PrefixCode(body, [], 0); }
    HasKeyIs(es, "failure reason");
    HasKeyIs(es, "failure_reason");
    HasKeyIs(es, "peers");
    HasKeyIs(es, "interval");
    HasKeyIs(es, "files");
  }

  /** And what is no dictionary: nothing at all, another value, a page, or anything else. */
  lemma {:induction false} KindOfOthers(body: seq<byte>)
    ensures Classify(body) == Empty <==> |body| == 0
    ensures Classify(body) == NotDict <==> BDecode(body).Ok? && !BDecode(body).value.Dict?
    ensures var page := OpensTag(body) || exists i: nat :: i + 5 <= 512 && HtmlAt(body, i);
            && (Classify(body) == Html <==> |body| > 0 && BDecode(body).Err? && page)
            && (Classify(body) == NotBencode <==> |body| > 0 && BDecode(body).Err? && !page)
  {
    hide HasKey, LooksHtml, Dec, OpensTag, HtmlAt;
    HtmlIs(body);
    if BDecode(body).Ok? {
      assert body != [] by { PrefixCode(body, [], 0); }
    }
  }
}
