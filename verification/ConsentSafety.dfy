/**
 * What the consent gate promises: permission comes from a definitive answer and from
 * nothing else, and what an operator publishes in DNS is what is honoured.
 */
module ConsentSafety {
  import opened Collections
  import opened Bytes
  import opened Text
  import opened Bep34
  import opened Consent
  import DnsName
  import DnsMessage

  /** An answer, rather than a failure to answer. */
  predicate Definitive(r: Reply) { r.Reply? && (r.rcode == NOERROR || r.rcode == NXDOMAIN) }

  predicate Decides(r: ResolverId, net: Network, host: Host, qname: seq<byte>) {
    Definitive(QueryOne(net(r, host), qname))
  }

  function FirstDefinitive(rs: seq<ResolverId>, net: Network, host: Host, qname: seq<byte>): (n: nat)
    ensures n <= |rs|
  {
    hide Decides;
    if rs == [] || Decides(rs[0], net, host, qname) then 0
    else 1 + FirstDefinitive(rs[1..], net, host, qname)
  }

  lemma {:induction false} IsFirst(rs: seq<ResolverId>, net: Network, host: Host, qname: seq<byte>)
    ensures var n := FirstDefinitive(rs, net, host, qname);
            && (n < |rs| ==> Decides(rs[n], net, host, qname))
            && forall i :: 0 <= i < n ==> !Decides(rs[i], net, host, qname)
  {
    hide Decides;
    if rs != [] && !Decides(rs[0], net, host, qname) {
      IsFirst(rs[1..], net, host, qname);
    }
  }

  lemma {:induction false} AskStopsThere(rs: seq<ResolverId>, net: Network, host: Host, qname: seq<byte>, failures: nat)
    ensures var n := FirstDefinitive(rs, net, host, qname);
            var a := Ask(rs, net, host, qname, failures);
            if n == |rs| then a == HostAnswer(None, true, NoneAnswered(failures + |rs|), None)
            else
              var r := QueryOne(net(rs[n], host), qname);
              && Definitive(r)
              && a == if r.rcode == NXDOMAIN then HostAnswer(None, false, NoSuchName, Some(rs[n]))
                      else Establish(r.texts, rs[n])
  {
    hide QueryOne, Establish;
    if rs != [] && !Definitive(QueryOne(net(rs[0], host), qname)) {
      AskStopsThere(rs[1..], net, host, qname, failures + 1);
    }
  }

  /** A gate that asked with no memory. */
  function Consulted(rs: seq<ResolverId>, isLiteral: Host -> bool, net: Network, host: Host, e: Endpoint): Decision {
    (if isLiteral(host) then LITERAL else Decide(Lookup(rs, net, host), e)).decision
  }

  /** One of the strings is a record too long to be read whole. */
  ghost predicate SomeTooLong(texts: seq<seq<byte>>) {
    exists i :: 0 <= i < |texts| && TooLong(Parse(texts[i]))
  }

  /** Two of the strings are records with different allow-lists. */
  ghost predicate Conflict(texts: seq<seq<byte>>) {
    exists i, j :: 0 <= i < |texts| && 0 <= j < |texts| && Parse(texts[i]).Parsed? && Parse(texts[j]).Parsed?
                   && Parse(texts[i]).record.endpoints != Parse(texts[j]).record.endpoints
  }

  /** Every record among the strings names the endpoint; there may be none. */
  ghost predicate AllName(texts: seq<seq<byte>>, e: Endpoint) {
    forall i :: 0 <= i < |texts| && Parse(texts[i]).Parsed? ==> e in Parse(texts[i]).record.endpoints
  }

  lemma {:induction false} AgreeUnlessConflict(texts: seq<seq<byte>>, records: seq<Record>, at: seq<nat>)
    requires Listed(texts, records, at)
    ensures Agree(records) <==> !Conflict(texts)
  {
    hide Parse;
    if Conflict(texts) {
      var i, j :| 0 <= i < |texts| && 0 <= j < |texts| && Parse(texts[i]).Parsed? && Parse(texts[j]).Parsed?
                  && Parse(texts[i]).record.endpoints != Parse(texts[j]).record.endpoints;
      var k :| 0 <= k < |at| && at[k] == i;
      var l :| 0 <= l < |at| && at[l] == j;
      assert records[k] in records && records[l] in records;
    }
    if !Agree(records) {
      var r :| r in records && r.endpoints != records[0].endpoints;
      var k :| 0 <= k < |records| && records[k] == r;
      assert Parse(texts[at[k]]) == Parsed(r) && Parse(texts[at[0]]) == Parsed(records[0]);
    }
  }

  lemma {:induction false} AllNameWhenFirstDoes(texts: seq<seq<byte>>, records: seq<Record>, at: seq<nat>, e: Endpoint)
    requires Listed(texts, records, at) && Agree(records)
    ensures AllName(texts, e) <==> records == [] || e in records[0].endpoints
  {
    hide Parse;
    if records != [] {
      assert Parse(texts[at[0]]) == Parsed(records[0]);
    }
    forall i | 0 <= i < |texts| && Parse(texts[i]).Parsed? && (records == [] || e in records[0].endpoints)
      ensures e in Parse(texts[i]).record.endpoints
    {
      var k :| 0 <= k < |at| && at[k] == i;
      assert records[k] in records;
    }
  }

  /** The first of the strings that is a record. */
  ghost predicate IsFirstRecord(texts: seq<seq<byte>>, r: Record) {
    exists i :: 0 <= i < |texts| && Parse(texts[i]) == Parsed(r) && forall j :: 0 <= j < i ==> !Parse(texts[j]).Parsed?
  }

  lemma {:induction false} FirstListed(texts: seq<seq<byte>>, records: seq<Record>, at: seq<nat>)
    requires Listed(texts, records, at)
    ensures records != [] ==> IsFirstRecord(texts, records[0])
    ensures records == [] ==> forall i :: 0 <= i < |texts| ==> !Parse(texts[i]).Parsed?
  {
    hide Parse;
    if records != [] {
      assert forall k :: 0 <= k < |at| ==> at[0] <= at[k];
      assert forall j: nat :: j < at[0] ==> j !in at;
    }
  }

  /** What one resolver's strings decide about an endpoint, and the record and resolver it rests on. */
  lemma {:induction false} Established(texts: seq<seq<byte>>, from: ResolverId, e: Endpoint)
    ensures var v := Decide(Establish(texts, from), e);
            && v.decision == (if SomeTooLong(texts) || Conflict(texts) then Undetermined
                              else if AllName(texts, e) then Allow else Deny)
            && v.resolver == Some(from)
            && (v.record.Some? ==> IsFirstRecord(texts, v.record.value))
            && (v.record.None? ==> v.decision == Undetermined
                                   || forall i :: 0 <= i < |texts| ==> !Parse(texts[i]).Parsed?)
  {
    hide Parse, Records, Agree, Listed, Conflict, AllName, IsFirstRecord;
    RecordsReadable(texts);
    if Records(texts).Some? {
      var records := Records(texts).value;
      var at := RecordsExactly(texts);
      AgreeUnlessConflict(texts, records, at);
      FirstListed(texts, records, at);
      if Agree(records) {
        AllNameWhenFirstDoes(texts, records, at, e);
      }
      NoneAgree();
    }
  }

  lemma {:induction false} NoneAgree()
    ensures Agree([])
  {
  }

  /** The first definitive answer, when the name can be asked about and some resolver gives one. */
  function Heard(rs: seq<ResolverId>, net: Network, host: Host): Reply {
    if DnsName.Encode(host).Malformed? then NoReply
    else
      var qname := DnsName.Encode(host).value;
      var n := FirstDefinitive(rs, net, host, qname);
      if n < |rs| then QueryOne(net(rs[n], host), qname) else NoReply
  }

  /** A resolver's answer settles a name: code 0 or 3, and no failure to answer. */
  predicate Settles(r: ResolverId, net: Network, host: Host) {
    && DnsName.Encode(host).Ok?
    && var reply := QueryOne(net(r, host), DnsName.Encode(host).value);
       reply.Reply? && (reply.rcode == 0 || reply.rcode == 3)
  }

  /** What is heard is the answer of a resolver that settles the name, with none before it that does. */
  lemma {:induction false} HeardFirst(rs: seq<ResolverId>, net: Network, host: Host)
    ensures Heard(rs, net, host).NoReply? <==> forall i :: 0 <= i < |rs| ==> !Settles(rs[i], net, host)
    ensures Heard(rs, net, host).Reply? ==>
              exists n :: 0 <= n < |rs| && Settles(rs[n], net, host)
                          && Heard(rs, net, host) == QueryOne(net(rs[n], host), DnsName.Encode(host).value)
                          && forall i :: 0 <= i < n ==> !Settles(rs[i], net, host)
  {
    hide QueryOne, DnsName.Encode, FirstDefinitive;
    if DnsName.Encode(host).Ok? {
      var qname := DnsName.Encode(host).value;
      IsFirst(rs, net, host, qname);
      assert forall i :: 0 <= i < |rs| ==> (Settles(rs[i], net, host) <==> Decides(rs[i], net, host, qname));
    }
  }

  /** The message a resolver is heard by: its datagram cut to 4096 bytes, or what is on the TCP stream. */
  ghost predicate Says(x: Exchange, qname: seq<byte>, message: seq<byte>, truncated: bool, rcode: nat,
                       texts: seq<seq<byte>>)
  {
    DnsMessage.Parse(message, x.qid, qname, 16) == DnsMessage.Ok(DnsMessage.Response(rcode, truncated, texts))
  }

  /**
   * A reply is a datagram that parses and is not cut, or, behind one that parses and is cut, a
   * whole TCP message of at most 16384 bytes that parses and is not; and nothing else is.
   */
  lemma {:induction false} RepliesAreRead(x: Exchange, qname: seq<byte>, rcode: nat, texts: seq<seq<byte>>)
    ensures QueryOne(x, qname) == Reply(rcode, texts) <==>
              && x.udp.Delivered?
              && var datagram := if |x.udp.bytes| <= 4096 then x.udp.bytes else x.udp.bytes[..4096];
                 || Says(x, qname, datagram, false, rcode, texts)
                 || (&& (exists code: nat, cut: seq<seq<byte>> :: Says(x, qname, datagram, true, code, cut))
                     && x.tcp.Delivered? && |x.tcp.bytes| >= 2
                     && var length := (x.tcp.bytes[0] as int) * 256 + x.tcp.bytes[1];
                        && length <= 16384 && 2 + length <= |x.tcp.bytes|
                        && Says(x, qname, x.tcp.bytes[2..2 + length], false, rcode, texts))
  {
    hide DnsMessage.Parse;
    if x.udp.Delivered? {
      var r := DnsMessage.Parse(Truncate(x.udp.bytes), x.qid, qname, DnsMessage.TXT);
      assert r.Ok? && r.value.truncated ==> Says(x, qname, Truncate(x.udp.bytes), true, r.value.rcode, r.value.texts);
    }
  }

  /**
   * Every decision, exactly. An address is allowed. Otherwise the first resolver to say that the
   * name does not exist (code 3) or to answer with strings (code 0) is heard: the name that does
   * not exist is allowed, and the strings decide by the records among them, unless one is too long
   * or two disagree.
   */
  lemma {:induction false} DecisionIff(rs: seq<ResolverId>, isLiteral: Host -> bool, net: Network, host: Host,
                                       e: Endpoint)
    ensures var r := Heard(rs, net, host);
            && (r.Reply? ==> r.rcode == 0 || r.rcode == 3)
            && Consulted(rs, isLiteral, net, host, e)
                 == if isLiteral(host) then Allow
                    else if r.NoReply? then Undetermined
                    else if r.rcode == 3 then Allow
                    else if SomeTooLong(r.texts) || Conflict(r.texts) then Undetermined
                    else if AllName(r.texts, e) then Allow
                    else Deny
  {
    hide QueryOne, DnsName.Encode, FirstDefinitive, Ask, Establish, SomeTooLong, Conflict, AllName;
    if DnsName.Encode(host).Ok? {
      AskStopsThere(rs, net, host, DnsName.Encode(host).value, 0);
      var r := Heard(rs, net, host);
      if r.Reply? {
        Established(r.texts, rs[FirstDefinitive(rs, net, host, DnsName.Encode(host).value)], e);
      }
    }
  }

  /** Two records that disagree, or one that is too long, decide nothing about a host that is no address. */
  lemma {:induction false} AmbiguityIsUndetermined(rs: seq<ResolverId>, isLiteral: Host -> bool, net: Network,
                                                   host: Host, e: Endpoint, i: nat, j: nat)
    requires !isLiteral(host) && Heard(rs, net, host).Reply? && Heard(rs, net, host).rcode == 0
    requires i < |Heard(rs, net, host).texts| && j < |Heard(rs, net, host).texts|
    requires var a, b := Parse(Heard(rs, net, host).texts[i]), Parse(Heard(rs, net, host).texts[j]);
             TooLong(a) || (a.Parsed? && b.Parsed? && a.record.endpoints != b.record.endpoints)
    ensures Consulted(rs, isLiteral, net, host, e) == Undetermined
  {
    hide Heard, Parse, Consulted;
    DecisionIff(rs, isLiteral, net, host, e);
  }

  /** The gate with its cache decides every call of a run so, with the network of the host's first call. */
  lemma {:induction false} EveryCallDecision(rs: seq<ResolverId>, isLiteral: Host -> bool, calls: seq<Call>)
    requires calls != []
    ensures var c := calls[|calls| - 1];
            && FirstCall(calls, c.host) < |calls|
            && Answer(rs, isLiteral, calls).decision
                 == Consulted(rs, isLiteral, calls[FirstCall(calls, c.host)].net, c.host, c.endpoint)
  {
    hide Lookup, Decide;
    AnsweredAsFirstAsked(rs, isLiteral, calls);
  }

  lemma {:induction false} FirstDefinitiveAfter(down: seq<ResolverId>, rs: seq<ResolverId>, net: Network,
                                                host: Host, qname: seq<byte>)
    requires forall i :: 0 <= i < |down| ==> !Definitive(QueryOne(net(down[i], host), qname))
    ensures FirstDefinitive(down + rs, net, host, qname) == |down| + FirstDefinitive(rs, net, host, qname)
    decreases |down|
  {
    hide QueryOne;
    if down == [] {
      assert down + rs == rs;
    } else {
      assert (down + rs)[1..] == down[1..] + rs;
      FirstDefinitiveAfter(down[1..], rs, net, host, qname);
    }
  }

  /** Resolvers that fail to answer, tried first, change no decision and no record. */
  lemma {:induction false} FailingResolversChangeNothing(down: seq<ResolverId>, rs: seq<ResolverId>, net: Network,
                                                         host: Host, e: Endpoint)
    requires DnsName.Encode(host).Ok? ==>
               forall i :: 0 <= i < |down| ==>
                 !Definitive(QueryOne(net(down[i], host), DnsName.Encode(host).value))
    ensures Decide(Lookup(down + rs, net, host), e) == Decide(Lookup(rs, net, host), e)
  {
    hide QueryOne, DnsName.Encode, FirstDefinitive, Ask, Records, Agree;
    if DnsName.Encode(host).Ok? {
      var qname := DnsName.Encode(host).value;
      FirstDefinitiveAfter(down, rs, net, host, qname);
      AskStopsThere(down + rs, net, host, qname, 0);
      AskStopsThere(rs, net, host, qname, 0);
    }
  }

  // ---- from the operator's record to the decision ----------------------------------------

  /** The datagram is a well-formed answer with its truncation bit set. */
  predicate CutShort(x: Exchange, qname: seq<byte>) {
    && x.udp.Delivered?
    && var cut := DnsMessage.Parse(Truncate(x.udp.bytes), x.qid, qname, DnsMessage.TXT);
       cut.Ok? && cut.value.truncated
  }

  /** The resolver answered in full: over UDP, or over TCP after a UDP answer that was cut. */
  ghost predicate Answers(x: Exchange, qname: seq<byte>, message: seq<byte>) {
    || (x.udp == Delivered(message) && |message| <= MAX_UDP_RESPONSE)
    || (CutShort(x, qname) && |message| <= MAX_TCP_RESPONSE
        && x.tcp == Delivered(Pack16(|message|) + message))
  }

  lemma {:induction false} TcpDelivers(message: seq<byte>)
    requires |message| <= MAX_TCP_RESPONSE
    ensures TcpMessage(Pack16(|message|) + message) == Some(message)
  {
    var stream := Pack16(|message|) + message;
    assert stream[0] == |message| / 256 && stream[1] == |message| % 256;
    assert stream[2..2 + |message|] == message;
  }

  /** An honest answer reaches the gate whole, by either transport. */
  lemma {:induction false} AnswerHeard(x: Exchange, host: Host, m: DnsMessage.Message)
    requires DnsMessage.Answering(m, x.qid, DnsMessage.TXT, host) && m.flags / 0x200 % 2 == 0
    requires Answers(x, DnsName.Encode(host).value, DnsMessage.Print(m, x.qid, DnsMessage.TXT))
    ensures QueryOne(x, DnsName.Encode(host).value)
         == Reply(m.flags % 16, DnsMessage.Texts(m.records, DnsMessage.TXT))
  {
    hide DnsMessage.Parse, DnsMessage.Print, DnsName.Encode, DnsMessage.Texts, DnsMessage.OwnersMeant;
    hide TcpMessage, U16, Pack16;
    var message := DnsMessage.Print(m, x.qid, DnsMessage.TXT);
    DnsMessage.ParsePrint(m, x.qid, DnsMessage.TXT, host);
    if |message| <= MAX_TCP_RESPONSE {
      TcpDelivers(message);
    }
  }

  /** Among some strings, exactly one is a record, and `words` are what follows its marker. */
  ghost predicate OnlyRecord(texts: seq<seq<byte>>, words: seq<seq<byte>>) {
    exists i :: 0 <= i < |texts| && Words(texts[i]) == [MARKER] + words
             && forall j :: 0 <= j < |texts| && j != i ==> Parse(texts[j]) == NotARecord
  }

  /** Within the two bounds a record allows exactly what its words advertise, however they are spaced. */
  lemma {:induction false} RecordOfWords(text: seq<byte>, words: seq<seq<byte>>)
    requires Words(text) == [MARKER] + words && |words| < 64 && |Advertised(words)| <= 16
    ensures Parse(text).Parsed?
    ensures forall e :: e in Parse(text).record.endpoints <==> e in Advertised(words)
  {
    hide Words, Advertised, Parse, EndpointOf;
    assert Words(text)[1..] == words;
    MarkerSpelled();
    ParsedWhen(text);
    AllowListIsAdvertised(text);
  }

  lemma {:induction false} NoRecords(texts: seq<seq<byte>>)
    requires forall j :: 0 <= j < |texts| ==> Parse(texts[j]) == NotARecord
    ensures Records(texts) == Some([])
  {
    hide Parse;
    if texts != [] {
      NoRecords(texts[1..]);
    }
  }

  lemma {:induction false} OneRecord(texts: seq<seq<byte>>, i: nat, r: Record)
    requires i < |texts| && Parse(texts[i]) == Parsed(r)
    requires forall j :: 0 <= j < |texts| && j != i ==> Parse(texts[j]) == NotARecord
    ensures Records(texts) == Some([r])
    decreases i
  {
    hide Parse;
    var rest := texts[1..];
    assert forall j :: 0 <= j < |rest| ==> rest[j] == texts[j + 1];
    if i == 0 {
      NoRecords(rest);
      assert [r] + [] == [r];
    } else {
      OneRecord(rest, i - 1, r);
    }
  }

  /**
   * End to end: the operator publishes one record, a resolver that answers serves it in any
   * well-formed message, and every endpoint of the host is permitted exactly when a word of the
   * record advertises it, whichever resolvers failed first.
   */
  lemma {:induction false} PublishedRecordHonoured(
      down: seq<ResolverId>, up: ResolverId, others: seq<ResolverId>, isLiteral: Host -> bool, net: Network,
      host: Host, m: DnsMessage.Message, words: seq<seq<byte>>, e: Endpoint)
    requires !isLiteral(host) && DnsName.Encode(host).Ok?
    requires forall i :: 0 <= i < |down| ==>
               !Definitive(QueryOne(net(down[i], host), DnsName.Encode(host).value))
    requires DnsMessage.Answering(m, net(up, host).qid, DnsMessage.TXT, host)
    requires m.flags % 16 == 0 && m.flags / 0x200 % 2 == 0
    requires Answers(net(up, host), DnsName.Encode(host).value,
                     DnsMessage.Print(m, net(up, host).qid, DnsMessage.TXT))
    requires OnlyRecord(DnsMessage.Texts(m.records, DnsMessage.TXT), words)
    requires |words| < 64 && |Advertised(words)| <= 16
    ensures Consulted(down + [up] + others, isLiteral, net, host, e) == if e in Advertised(words) then Allow else Deny
  {
    hide DnsName.Encode, DnsMessage.Texts, DnsMessage.Print, DnsMessage.Answering, Answers, Parse, Records, Words;
    hide Advertised;
    var qname := DnsName.Encode(host).value;
    var texts := DnsMessage.Texts(m.records, DnsMessage.TXT);
    AnswerHeard(net(up, host), host, m);
    var i :| 0 <= i < |texts| && Words(texts[i]) == [MARKER] + words
          && forall j :: 0 <= j < |texts| && j != i ==> Parse(texts[j]) == NotARecord;
    RecordOfWords(texts[i], words);
    OneRecord(texts, i, Parse(texts[i]).record);
    assert down + [up] + others == down + ([up] + others);
    FailingResolversChangeNothing(down, [up] + others, net, host, e);
  }
}
