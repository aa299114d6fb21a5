/**
 * DNS messages (RFC 1035 sections 3.3.14 and 4.1.1 to 4.1.3): the query builder and the
 * response parser of `src/trackers/bep34.py`, against the response printer of
 * `tests/fake_dns.py`.
 */
module DnsMessage {
  import opened Bytes
  import opened Text
  import DnsName

  const A := 1
  const TXT := 16
  const AAAA := 28
  const IN := 1

  datatype Error =
    | Name(error: DnsName.Error)
    | ShortHeader | WrongId | QueryBitSet | QuestionCount | QuestionPastEnd | WrongQuestion
    | AnswerCount | RecordPastEnd | RdataPastEnd | AddressLength | StringPastEnd

  datatype Result<+T> = Ok(value: T) | Malformed(error: Error)

  /** The texts are the strings of TXT records, or the packed addresses of A and AAAA. */
  datatype Response = Response(rcode: nat, truncated: bool, texts: seq<seq<byte>>)

  // ---- the query ----------------------------------------------------------------

  function Question(qname: seq<byte>, qtype: nat): seq<byte>
    requires qtype < 0x1_0000
  {
    qname + (Pack16(qtype) + Pack16(IN))
  }

  /** `_build_query`: one recursion-desired question, no EDNS0. */
  function BuildQuery(qid: nat, qname: seq<byte>, qtype: nat): seq<byte>
    requires qid < 0x1_0000 && qtype < 0x1_0000
  {
    Header(qid, 0x0100, 0, [0, 0, 0, 0]) + Question(qname, qtype)
  }

  /** A 12-byte header with one question; `others` counts the authority and additional records. */
  function Header(id: nat, flags: nat, answers: nat, others: seq<byte>): (h: seq<byte>)
    requires id < 0x1_0000 && flags < 0x1_0000 && answers < 0x1_0000 && |others| == 4
    ensures |h| == 12
  {
    Pack16(id) + Pack16(flags) + [0, 1] + Pack16(answers) + others
  }

  /** A query byte for byte: id, recursion desired, one question and nothing else, the name, type, class 1. */
  lemma {:induction false} QueryLayout(qid: nat, qname: seq<byte>, qtype: nat)
    requires qid < 0x1_0000 && qtype < 0x1_0000
    ensures BuildQuery(qid, qname, qtype)
         == [qid / 256, qid % 256, 1, 0, 0, 1, 0, 0, 0, 0, 0, 0] + qname + [qtype / 256, qtype % 256, 0, 1]
  {
    assert Pack16(IN) == [0, 1] && Pack16(0x0100) == [1, 0] && Pack16(0) == [0, 0];
  }

  // ---- the parser ---------------------------------------------------------------

  /** The character-strings of TXT rdata in `buf[here..end]`, joined. */
  function TxtFrom(buf: seq<byte>, here: nat, end: nat): Result<seq<byte>>
    requires end <= |buf|
    decreases end - here
  {
    if here >= end then Ok([])
    else if here + 1 + buf[here] > end then Malformed(StringPastEnd)
    else match TxtFrom(buf, here + 1 + buf[here], end)
      case Malformed(e) => Malformed(e)
      case Ok(rest) => Ok(buf[here + 1..here + 1 + buf[here]] + rest)
  }

  /** `_read_txt_rdata`. */
  method ReadTxt(buf: seq<byte>, start: nat, end: nat) returns (r: Result<seq<byte>>)
    requires start <= end <= |buf|
    ensures r == TxtFrom(buf, start, end)
  {
    var parts: seq<byte> := [];
    var here: nat := start;
    assert TxtFrom(buf, start, end).Ok? ==> parts + TxtFrom(buf, start, end).value == TxtFrom(buf, start, end).value;
    while here < end
      invariant start <= here <= end
      invariant TxtFrom(buf, start, end) ==
                match TxtFrom(buf, here, end)
                case Malformed(e) => Malformed(e)
                case Ok(rest) => Ok(parts + rest)
    {
      var length := buf[here];
      here := here + 1;
      if here + length > end {
        return Malformed(StringPastEnd);
      }
      ghost var rest := TxtFrom(buf, here + length, end);
      var part := buf[here..here + length];
      assert rest.Ok? ==> parts + (part + rest.value) == parts + part + rest.value;
      parts := parts + part;
      here := here + length;
    }
    assert parts + [] == parts;
    return Ok(parts);
  }

  /** `_read_address_rdata`, which never pads or cuts. */
  function ReadAddress(buf: seq<byte>, start: nat, end: nat, qtype: nat): Result<seq<byte>>
    requires start <= end <= |buf|
  {
    if end - start != (if qtype == A then 4 else 16) then Malformed(AddressLength)
    else Ok(buf[start..end])
  }

  function ReadRdata(buf: seq<byte>, start: nat, end: nat, qtype: nat): Result<seq<byte>>
    requires start <= end <= |buf|
  {
    if qtype == A || qtype == AAAA then ReadAddress(buf, start, end, qtype) else TxtFrom(buf, start, end)
  }

  /** The next `n` resource records, from `offset` on. */
  function Answers(buf: seq<byte>, offset: nat, n: nat, qtype: nat): Result<seq<seq<byte>>>
    decreases n
  {
    if n == 0 then Ok([])
    else if offset >= |buf| then Malformed(AnswerCount)
    else match DnsName.Read(buf, offset)
      case Malformed(e) => Malformed(Name(e))
      case Ok(owner) =>
        var at := owner.next;
        if at + 10 > |buf| then Malformed(RecordPastEnd)
        else
          var end := at + 10 + U16(buf, at + 8);
          if end > |buf| then Malformed(RdataPastEnd)
          else if U16(buf, at) == qtype && U16(buf, at + 2) == IN then
            match ReadRdata(buf, at + 10, end, qtype)
            case Malformed(e) => Malformed(e)
            case Ok(text) =>
              match Answers(buf, end, n - 1, qtype)
              case Malformed(e) => Malformed(e)
              case Ok(rest) => Ok([text] + rest)
          else Answers(buf, end, n - 1, qtype)
  }

  /** What `_parse_response` returns. */
  function Parse(buf: seq<byte>, qid: nat, qname: seq<byte>, qtype: nat): Result<Response> {
    if |buf| < 12 then Malformed(ShortHeader)
    else if U16(buf, 0) != qid then Malformed(WrongId)
    else
      var flags := U16(buf, 2);
      if flags < 0x8000 then Malformed(QueryBitSet)
      else if U16(buf, 4) != 1 then Malformed(QuestionCount)
      else match DnsName.Read(buf, 12)
        case Malformed(e) => Malformed(Name(e))
        case Ok(echoed) =>
          if echoed.next + 4 > |buf| then Malformed(QuestionPastEnd)
          else match DnsName.Read(qname, 0)
            case Malformed(e) => Malformed(Name(e))
            case Ok(expected) =>
              if echoed.text != expected.text || U16(buf, echoed.next) != qtype || U16(buf, echoed.next + 2) != IN
              then Malformed(WrongQuestion)
              else match Answers(buf, echoed.next + 4, U16(buf, 6), qtype)
                case Malformed(e) => Malformed(e)
                case Ok(texts) => Ok(Response(flags % 16, flags / 0x200 % 2 == 1, texts))
  }

  /** The loop over the answer section in `_parse_response`. */
  method ReadAnswers(buf: seq<byte>, start: nat, count: nat, qtype: nat) returns (r: Result<seq<seq<byte>>>)
    ensures r == Answers(buf, start, count, qtype)
  {
    hide U16, DnsName.Read, TxtFrom, ReadAddress;
    var offset: nat := start;
    var texts: seq<seq<byte>> := [];
    ghost var all := Answers(buf, start, count, qtype);
    assert all.Ok? ==> texts + all.value == all.value;
    for i := 0 to count
      invariant all ==
                match Answers(buf, offset, count - i, qtype)
                case Malformed(e) => Malformed(e)
                case Ok(rest) => Ok(texts + rest)
    {
      if offset >= |buf| {
        return Malformed(AnswerCount);
      }
      var owner := DnsName.ReadName(buf, offset);
      if owner.Malformed? {
        return Malformed(Name(owner.error));
      }
      offset := owner.value.next;
      if offset + 10 > |buf| {
        return Malformed(RecordPastEnd);
      }
      var rtype, rclass, rdlength := U16(buf, offset), U16(buf, offset + 2), U16(buf, offset + 8);
      offset := offset + 10;
      var end: nat := offset + rdlength;
      if end > |buf| {
        return Malformed(RdataPastEnd);
      }
      if rtype == qtype && rclass == IN {
        var text: Result<seq<byte>>;
        if qtype == A || qtype == AAAA {
          text := ReadAddress(buf, offset, end, qtype);
        } else {
          text := ReadTxt(buf, offset, end);
        }
        if text.Malformed? {
          return Malformed(text.error);
        }
        ghost var rest := Answers(buf, end, count - i - 1, qtype);
        assert rest.Ok? ==> texts + ([text.value] + rest.value) == texts + [text.value] + rest.value;
        texts := texts + [text.value];
      }
      offset := end;
    }
    assert texts + [] == texts;
    return Ok(texts);
  }

  /** `_parse_response`. */
  method ParseResponse(buf: seq<byte>, qid: nat, qname: seq<byte>, qtype: nat) returns (r: Result<Response>)
    ensures r == Parse(buf, qid, qname, qtype)
  {
    hide U16, DnsName.Read, Answers;
    if |buf| < 12 {
      return Malformed(ShortHeader);
    }
    var flags, count := U16(buf, 2), U16(buf, 6);
    if U16(buf, 0) != qid {
      return Malformed(WrongId);
    }
    if flags < 0x8000 {
      return Malformed(QueryBitSet);
    }
    if U16(buf, 4) != 1 {
      return Malformed(QuestionCount);
    }
    var echoed := DnsName.ReadName(buf, 12);
    if echoed.Malformed? {
      return Malformed(Name(echoed.error));
    }
    var offset: nat := echoed.value.next;
    if offset + 4 > |buf| {
      return Malformed(QuestionPastEnd);
    }
    var echoedType, qclass := U16(buf, offset), U16(buf, offset + 2);
    offset := offset + 4;
    var expected := DnsName.ReadName(qname, 0);
    if expected.Malformed? {
      return Malformed(Name(expected.error));
    }
    if echoed.value.text != expected.value.text || echoedType != qtype || qclass != IN {
      return Malformed(WrongQuestion);
    }
    var texts := ReadAnswers(buf, offset, count, qtype);
    if texts.Malformed? {
      return Malformed(texts.error);
    }
    return Ok(Response(flags % 16, flags / 0x200 % 2 == 1, texts.value));
  }

  // ---- what is believed ------------------------------------------------------------

  /** No answer is believed unless it carries the id and echoes the question that was sent. */
  lemma {:induction false} OnlyEchoesBelieved(buf: seq<byte>, qid: nat, qname: seq<byte>, qtype: nat)
    requires Parse(buf, qid, qname, qtype).Ok?
    ensures |buf| >= 12 && U16(buf, 0) == qid && U16(buf, 2) >= 0x8000 && U16(buf, 4) == 1
    ensures DnsName.Read(buf, 12).Ok? && DnsName.Read(qname, 0).Ok?
    ensures var asked := DnsName.Read(buf, 12).value;
            && asked.text == DnsName.Read(qname, 0).value.text
            && asked.next + 4 <= |buf| && U16(buf, asked.next) == qtype && U16(buf, asked.next + 2) == 1
    ensures |Parse(buf, qid, qname, qtype).value.texts| <= U16(buf, 6)
  {
    hide U16, DnsName.Read;
    AnswersBounded(buf, DnsName.Read(buf, 12).value.next + 4, U16(buf, 6), qtype);
  }

  /** The header's own checks, in order, and what an answer that passes carries, in bits of its bytes. */
  lemma {:induction false} HeaderIs(buf: seq<byte>, qid: nat, qname: seq<byte>, qtype: nat)
    ensures var r := Parse(buf, qid, qname, qtype);
            && (|buf| <= 11 ==> r == Malformed(ShortHeader))
            && (|buf| >= 12 ==>
                  var id, questions := 256 * (buf[0] as int) + buf[1], 256 * (buf[4] as int) + buf[5];
                  && (id != qid ==> r == Malformed(WrongId))
                  && (id == qid && buf[2] < 128 ==> r == Malformed(QueryBitSet))
                  && (id == qid && buf[2] >= 128 && questions != 1 ==> r == Malformed(QuestionCount))
                  && (r.Ok? ==> r.value.rcode == buf[3] % 16 && (r.value.truncated <==> buf[2] / 2 % 2 == 1)))
  {
    hide DnsName.Read, Answers;
    if |buf| >= 12 {
      FlagBits(buf[2], buf[3]);
    }
  }

  lemma {:induction false} FlagBits(hi: byte, lo: byte)
    ensures var flags := 256 * (hi as int) + lo;
            flags % 16 == lo % 16 && flags / 0x200 == hi / 2 && (flags < 0x8000 <==> hi < 128)
  {
  }

  /** Fewer records than were counted, and address records of 4 or 16 bytes and no other length. */
  lemma {:induction false} RecordErrors(buf: seq<byte>, offset: nat, n: nat, qtype: nat, end: nat)
    ensures offset >= |buf| && n > 0 ==> Answers(buf, offset, n, qtype) == Malformed(AnswerCount)
    ensures offset <= end <= |buf| ==>
              && ReadRdata(buf, offset, end, 1)
                   == (if end - offset == 4 then Ok(buf[offset..end]) else Malformed(AddressLength))
              && ReadRdata(buf, offset, end, 28)
                   == (if end - offset == 16 then Ok(buf[offset..end]) else Malformed(AddressLength))
              && ReadRdata(buf, offset, end, 16) == TxtFrom(buf, offset, end)
  {
  }

  lemma {:induction false} AnswersBounded(buf: seq<byte>, offset: nat, n: nat, qtype: nat)
    requires Answers(buf, offset, n, qtype).Ok?
    ensures |Answers(buf, offset, n, qtype).value| <= n
    decreases n
  {
    hide U16, DnsName.Read;
    if n > 0 {
      var at := DnsName.Read(buf, offset).value.next;
      AnswersBounded(buf, at + 10 + U16(buf, at + 8), n - 1, qtype);
    }
  }

  /** Our own query, sent back to us, is never taken for an answer. */
  lemma {:induction false} QueryIsNoAnswer(qid: nat, qname: seq<byte>, qtype: nat)
    requires qid < 0x1_0000 && qtype < 0x1_0000
    ensures Parse(BuildQuery(qid, qname, qtype), qid, qname, qtype) == Malformed(QueryBitSet)
  {
    var q := BuildQuery(qid, qname, qtype);
    assert q[0] == qid / 256 && q[1] == qid % 256 && q[2] == 1 && q[3] == 0;
  }

  // ---- the response printer -----------------------------------------------------------

  datatype Rdata = Strings(chunks: seq<seq<byte>>) | Raw(bytes: seq<byte>)

  /** A record; its owner is the bytes that name it, pointers and all. */
  datatype Record = Record(owner: seq<byte>, rtype: nat, rclass: nat, ttl: seq<byte>, rdata: Rdata)

  predicate GoodChunks(chunks: seq<seq<byte>>) { forall c :: c in chunks ==> |c| <= 255 }

  function ChunkBytes(chunks: seq<seq<byte>>): seq<byte>
    requires GoodChunks(chunks)
  {
    if chunks == [] then []
    else
      assert chunks[0] in chunks;
      var length: byte := |chunks[0]|;
      [length] + (chunks[0] + ChunkBytes(chunks[1..]))
  }

  function RdataBytes(r: Rdata): seq<byte>
    requires r.Strings? ==> GoodChunks(r.chunks)
  {
    if r.Strings? then ChunkBytes(r.chunks) else r.bytes
  }

  /** The value a reader should see: the strings joined, or the bytes themselves. */
  function TextOf(r: Record): seq<byte> {
    if r.rdata.Strings? then Concat(r.rdata.chunks) else r.rdata.bytes
  }

  predicate Matches(r: Record, qtype: nat) { r.rtype == qtype && r.rclass == IN }

  /** A record any server may send in answer to `qtype`: other types carry what they like. */
  predicate GoodRecord(r: Record, qtype: nat) {
    && r.rtype < 0x1_0000 && r.rclass < 0x1_0000 && |r.ttl| == 4
    && (r.rdata.Strings? ==> GoodChunks(r.rdata.chunks))
    && |RdataBytes(r.rdata)| < 0x1_0000
    && (Matches(r, qtype) ==>
          if qtype == TXT then r.rdata.Strings?
          else r.rdata.Raw? && |r.rdata.bytes| == if qtype == A then 4 else 16)
  }

  function Fixed(r: Record, length: nat): (f: seq<byte>)
    requires r.rtype < 0x1_0000 && r.rclass < 0x1_0000 && |r.ttl| == 4 && length < 0x1_0000
    ensures |f| == 10
  {
    Pack16(r.rtype) + Pack16(r.rclass) + r.ttl + Pack16(length)
  }

  function RecordBytes(r: Record, qtype: nat): seq<byte>
    requires GoodRecord(r, qtype)
  {
    var rdata := RdataBytes(r.rdata);
    r.owner + (Fixed(r, |rdata|) + rdata)
  }

  predicate GoodRecords(rs: seq<Record>, qtype: nat) { forall r :: r in rs ==> GoodRecord(r, qtype) }

  function RecordsBytes(rs: seq<Record>, qtype: nat): seq<byte>
    requires GoodRecords(rs, qtype)
  {
    if rs == [] then [] else RecordBytes(rs[0], qtype) + RecordsBytes(rs[1..], qtype)
  }

  function Texts(rs: seq<Record>, qtype: nat): seq<seq<byte>> {
    if rs == [] then []
    else if Matches(rs[0], qtype) then [TextOf(rs[0])] + Texts(rs[1..], qtype)
    else Texts(rs[1..], qtype)
  }

  /** What a server sends: the question echoed, the records, and whatever it adds behind them. */
  datatype Message =
    Message(flags: nat, echoed: seq<byte>, records: seq<Record>, others: seq<byte>, behind: seq<byte>)

  predicate Printable(m: Message, qid: nat, qtype: nat) {
    && qid < 0x1_0000 && m.flags < 0x1_0000 && qtype < 0x1_0000 && |m.records| < 0x1_0000 && |m.others| == 4
    && GoodRecords(m.records, qtype) && DnsName.Encode(m.echoed).Ok?
  }

  function Print(m: Message, qid: nat, qtype: nat): seq<byte>
    requires Printable(m, qid, qtype)
  {
    Header(qid, m.flags, |m.records|, m.others)
    + (Question(DnsName.Encode(m.echoed).value, qtype) + (RecordsBytes(m.records, qtype) + m.behind))
  }

  /** From offset `i` on, each record's owner means something where it stands, and ends there. */
  ghost predicate OwnersMeant(buf: seq<byte>, i: nat, rs: seq<Record>, qtype: nat)
    requires GoodRecords(rs, qtype)
    decreases |rs|
  {
    rs != [] ==>
      && (exists labels: seq<DnsName.Label> :: DnsName.Meant(buf, i, labels))
      && DnsName.After(buf, i) == i + |rs[0].owner|
      && OwnersMeant(buf, i + |RecordBytes(rs[0], qtype)|, rs[1..], qtype)
  }

  /** A well-formed answer to a question about `host`, in whatever case it is echoed. */
  ghost predicate Answering(m: Message, qid: nat, qtype: nat, host: seq<byte>) {
    && Printable(m, qid, qtype) && m.flags >= 0x8000 && DnsName.Encode(host).Ok?
    && Lower(DnsName.HostName(m.echoed)) == Lower(DnsName.HostName(host))
    && OwnersMeant(Print(m, qid, qtype), 16 + |DnsName.Encode(m.echoed).value|, m.records, qtype)
  }

  // ---- the round trip -------------------------------------------------------------------

  lemma {:induction false} TwoHeld(buf: seq<byte>, i: nat, n: nat)
    requires n < 0x1_0000 && At(buf, i, Pack16(n))
    ensures i + 2 <= |buf| && U16(buf, i) == n
  {
    hide U16, Pack16;
    assert Pack16(n)[0] == buf[i] && Pack16(n)[1] == buf[i + 1];
  }

  lemma {:induction false} ChunksRead(buf: seq<byte>, i: nat, chunks: seq<seq<byte>>)
    requires GoodChunks(chunks) && At(buf, i, ChunkBytes(chunks))
    ensures TxtFrom(buf, i, i + |ChunkBytes(chunks)|) == Ok(Concat(chunks))
    decreases |chunks|
  {
    if chunks != [] {
      var c, rest := chunks[0], ChunkBytes(chunks[1..]);
      AtParts3(buf, i, [|c|], c, rest);
      AtOne(buf, i, |c|);
      AtSlice(buf, i + 1, i + 1 + |c|, c);
      ChunksRead(buf, i + 1 + |c|, chunks[1..]);
    }
  }

  lemma {:induction false} FixedHeld(buf: seq<byte>, i: nat, r: Record, length: nat)
    requires r.rtype < 0x1_0000 && r.rclass < 0x1_0000 && |r.ttl| == 4 && length < 0x1_0000
    requires At(buf, i, Fixed(r, length))
    ensures i + 10 <= |buf|
    ensures U16(buf, i) == r.rtype && U16(buf, i + 2) == r.rclass && U16(buf, i + 8) == length
  {
    hide U16, Pack16;
    var a, b, c, d := Pack16(r.rtype), Pack16(r.rclass), r.ttl, Pack16(length);
    AtParts(buf, i, a + b + c, d);
    AtParts(buf, i, a + b, c);
    AtParts(buf, i, a, b);
    TwoHeld(buf, i, r.rtype);
    TwoHeld(buf, i + 2, r.rclass);
    TwoHeld(buf, i + 8, length);
  }

  lemma {:induction false} RdataRead(buf: seq<byte>, i: nat, r: Record, qtype: nat)
    requires GoodRecord(r, qtype) && Matches(r, qtype) && qtype in {A, TXT, AAAA}
    requires At(buf, i, RdataBytes(r.rdata))
    ensures ReadRdata(buf, i, i + |RdataBytes(r.rdata)|, qtype) == Ok(TextOf(r))
  {
    if qtype == TXT {
      ChunksRead(buf, i, r.rdata.chunks);
    } else {
      AtSlice(buf, i, i + |r.rdata.bytes|, r.rdata.bytes);
    }
  }

  lemma {:induction false} RecordRead(buf: seq<byte>, i: nat, r: Record, qtype: nat)
    returns (at: nat, end: nat)
    requires GoodRecord(r, qtype) && qtype in {A, TXT, AAAA}
    requires At(buf, i, RecordBytes(r, qtype))
    requires DnsName.Read(buf, i).Ok? && DnsName.Read(buf, i).value.next == i + |r.owner|
    ensures i < at && end == i + |RecordBytes(r, qtype)| <= |buf|
    ensures DnsName.Read(buf, i).value.next == at
    ensures at + 10 <= end && end == at + 10 + U16(buf, at + 8)
    ensures U16(buf, at) == r.rtype && U16(buf, at + 2) == r.rclass
    ensures Matches(r, qtype) ==> ReadRdata(buf, at + 10, end, qtype) == Ok(TextOf(r))
  {
    hide U16;
    hide RdataBytes, Fixed, TextOf;
    DnsName.ReadIff(buf, i);
    var rdata := RdataBytes(r.rdata);
    AtParts3(buf, i, r.owner, Fixed(r, |rdata|), rdata);
    at := i + |r.owner|;
    end := at + 10 + |rdata|;
    FixedHeld(buf, at, r, |rdata|);
    if Matches(r, qtype) {
      RdataRead(buf, at + 10, r, qtype);
    }
  }

  lemma {:induction false} OwnerRead(buf: seq<byte>, i: nat, rs: seq<Record>, qtype: nat)
    requires GoodRecords(rs, qtype) && OwnersMeant(buf, i, rs, qtype) && rs != []
    ensures DnsName.Read(buf, i).Ok? && DnsName.Read(buf, i).value.next == i + |rs[0].owner| <= |buf|
    ensures rs[0] in rs && OwnersMeant(buf, i + |RecordBytes(rs[0], qtype)|, rs[1..], qtype)
  {
    hide RecordBytes, DnsName.Read, DnsName.Meant;
    DnsName.ReadIff(buf, i);
  }

  lemma {:induction false} RecordsRead(buf: seq<byte>, i: nat, rs: seq<Record>, qtype: nat)
    requires GoodRecords(rs, qtype) && qtype in {A, TXT, AAAA}
    requires At(buf, i, RecordsBytes(rs, qtype)) && OwnersMeant(buf, i, rs, qtype)
    ensures Answers(buf, i, |rs|, qtype) == Ok(Texts(rs, qtype))
    decreases |rs|
  {
    hide U16;
    hide RdataBytes, Fixed, OwnersMeant, GoodRecord;
    hide RecordBytes, TextOf, ReadRdata, DnsName.Read, At;
    if rs != [] {
      OwnerRead(buf, i, rs, qtype);
      AtParts(buf, i, RecordBytes(rs[0], qtype), RecordsBytes(rs[1..], qtype));
      var at, end := RecordRead(buf, i, rs[0], qtype);
      RecordsRead(buf, end, rs[1..], qtype);
    }
  }

  lemma {:induction false} HeaderHeld(buf: seq<byte>, id: nat, flags: nat, answers: nat, others: seq<byte>)
    requires id < 0x1_0000 && flags < 0x1_0000 && answers < 0x1_0000 && |others| == 4
    requires At(buf, 0, Header(id, flags, answers, others))
    ensures |buf| >= 12
    ensures U16(buf, 0) == id && U16(buf, 2) == flags && U16(buf, 4) == 1 && U16(buf, 6) == answers
  {
    hide U16, Pack16;
    var a, b, c, d: seq<byte> := Pack16(id), Pack16(flags), [0, 1], Pack16(answers);
    AtParts(buf, 0, a + b + c + d, others);
    AtParts(buf, 0, a + b + c, d);
    AtParts(buf, 0, a + b, c);
    AtParts(buf, 0, a, b);
    TwoHeld(buf, 0, id);
    TwoHeld(buf, 2, flags);
    assert Pack16(1) == [0, 1];
    TwoHeld(buf, 4, 1);
    TwoHeld(buf, 6, answers);
  }

  /** Where the parts of a printed message stand. */
  lemma {:induction false} PrintedAt(m: Message, qid: nat, qtype: nat)
    requires Printable(m, qid, qtype)
    ensures var (buf, name) := (Print(m, qid, qtype), DnsName.Encode(m.echoed).value);
            && At(buf, 0, Header(qid, m.flags, |m.records|, m.others)) && At(buf, 12, name)
            && At(buf, 12 + |name|, Pack16(qtype)) && At(buf, 14 + |name|, Pack16(IN))
            && At(buf, 16 + |name|, RecordsBytes(m.records, qtype))
  {
    hide Pack16, Header, DnsName.Encode, RecordsBytes, At;
    var buf, name := Print(m, qid, qtype), DnsName.Encode(m.echoed).value;
    AtSelf(buf);
    AtParts3(buf, 0, Header(qid, m.flags, |m.records|, m.others), Question(name, qtype),
             RecordsBytes(m.records, qtype) + m.behind);
    AtParts3(buf, 12, name, Pack16(qtype), Pack16(IN));
    AtParts(buf, 16 + |name|, RecordsBytes(m.records, qtype), m.behind);
  }

  /**
   * A well-formed answer is read for what it says: its code, its truncation bit, and the value
   * of every record of the asked type in order. Its owner names may be compressed in any way that
   * means something, into earlier record data too, its strings split anywhere, and any other
   * records and sections stand between and behind.
   */
  lemma {:induction false} ParsePrint(m: Message, qid: nat, qtype: nat, host: seq<byte>)
    requires qtype in {A, TXT, AAAA} && Answering(m, qid, qtype, host)
    ensures Parse(Print(m, qid, qtype), qid, DnsName.Encode(host).value, qtype)
         == Ok(Response(m.flags % 16, m.flags / 0x200 % 2 == 1, Texts(m.records, qtype)))
  {
    hide U16;
    hide Pack16, Header, Answers, DnsName.Encode, DnsName.Read, RecordsBytes, At, Texts, Print, DnsName.HostName, Lower;
    var buf, name, qname := Print(m, qid, qtype), DnsName.Encode(m.echoed).value, DnsName.Encode(host).value;
    PrintedAt(m, qid, qtype);
    HeaderHeld(buf, qid, m.flags, |m.records|, m.others);
    TwoHeld(buf, 12 + |name|, qtype);
    TwoHeld(buf, 14 + |name|, IN);
    DnsName.NameRead(buf, 12, m.echoed);
    AtSelf(qname);
    DnsName.NameRead(qname, 0, host);
    RecordsRead(buf, 16 + |name|, m.records, qtype);
  }

  /** A name spelled whole, or a pointer to the question: what most servers send. */
  ghost predicate PlainOwner(owner: seq<byte>) {
    owner == [192, 12] || exists host :: DnsName.Encode(host) == DnsName.Ok(owner)
  }

  lemma {:induction false} PlainOwnersMeant(buf: seq<byte>, i: nat, rs: seq<Record>, qtype: nat, asked: seq<byte>)
    requires GoodRecords(rs, qtype) && At(buf, i, RecordsBytes(rs, qtype)) && i > 12
    requires DnsName.NameAt(buf, 12, asked) && forall r :: r in rs ==> PlainOwner(r.owner)
    ensures OwnersMeant(buf, i, rs, qtype)
    decreases |rs|
  {
    if rs != [] {
      hide RdataBytes, Fixed, GoodRecord, RecordsBytes, RecordBytes, At, PlainOwner;
      hide DnsName.Encode, DnsName.After, DnsName.Meant, DnsName.NameAt;
      assert rs[0] in rs;
      PlainOwnerMeant(buf, i, rs, qtype, asked);
      assert forall r :: r in rs[1..] ==> r in rs;
      PlainOwnersMeant(buf, i + |RecordBytes(rs[0], qtype)|, rs[1..], qtype, asked);
    }
  }

  lemma {:induction false} PlainOwnerMeant(buf: seq<byte>, i: nat, rs: seq<Record>, qtype: nat, asked: seq<byte>)
    requires rs != [] && GoodRecords(rs, qtype) && At(buf, i, RecordsBytes(rs, qtype)) && i > 12
    requires DnsName.NameAt(buf, 12, asked) && PlainOwner(rs[0].owner)
    ensures rs[0] in rs && At(buf, i + |RecordBytes(rs[0], qtype)|, RecordsBytes(rs[1..], qtype))
    ensures exists labels: seq<DnsName.Label> :: DnsName.Meant(buf, i, labels)
    ensures DnsName.After(buf, i) == i + |rs[0].owner|
  {
    hide RdataBytes, Fixed, DnsName.Encode, DnsName.Read;
    assert rs[0] in rs;
    var owner, rdata := rs[0].owner, RdataBytes(rs[0].rdata);
    AtParts(buf, i, RecordBytes(rs[0], qtype), RecordsBytes(rs[1..], qtype));
    AtParts(buf, i, owner, Fixed(rs[0], |rdata|) + rdata);
    DnsName.ReadIff(buf, i);
    if owner == [192, 12] {
      assert buf[i] == owner[0] && buf[i + 1] == owner[1];
      DnsName.PointerRead(buf, i, 12, asked);
    } else {
      var host :| DnsName.Encode(host) == DnsName.Ok(owner);
      DnsName.NameRead(buf, i, host);
      var labels := DnsName.NameAtDenotes(buf, i, host);
    }
  }
}
