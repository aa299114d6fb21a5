/**
 * The consent gate of `src/trackers/bep34.py`: asking the resolvers in order, remembering a
 * host's answer for the run, and deciding whether an endpoint may be contacted.
 */
module Consent {
  import opened Collections
  import opened Bytes
  import opened Text
  import opened Stream
  import opened Bep34
  import DnsName
  import DnsMessage

  type Host = seq<byte>
  type ResolverId = nat

  const NOERROR := 0
  const NXDOMAIN := 3
  const MAX_UDP_RESPONSE := 4096
  const MAX_TCP_RESPONSE := 16384

  // ---- one resolver -------------------------------------------------------------------

  /** What a socket gave: an operating-system error, or these bytes and then nothing more. */
  datatype Delivery = Lost | Delivered(bytes: seq<byte>)

  /** One query to one resolver: the id drawn for it, the datagram, and the TCP stream. */
  datatype Exchange = Exchange(qid: nat, udp: Delivery, tcp: Delivery)

  datatype Reply = NoReply | Reply(rcode: nat, texts: seq<seq<byte>>)

  /** The message on a TCP stream: two bytes of length, then that many bytes. */
  function TcpMessage(stream: seq<byte>): Option<seq<byte>> {
    if |stream| < 2 then None
    else
      var length := U16(stream, 0);
      if length > MAX_TCP_RESPONSE || length > |stream| - 2 then None else Some(stream[2..2 + length])
  }

  /** The exchange in `_query_tcp`, after the query is sent. */
  method ReadTcp(sock: Socket) returns (r: Option<seq<byte>>)
    modifies sock
    ensures r == TcpMessage(old(sock.pending))
    ensures r.Some? ==> sock.pending == old(sock.pending)[2 + |r.value|..]
  {
    var header := sock.ReadExactly(2);
    if header.None? {
      return None;
    }
    var length := U16(header.value, 0);
    if length > MAX_TCP_RESPONSE {
      return None;
    }
    ghost var stream := old(sock.pending);
    assert header.value[0] == stream[0] && header.value[1] == stream[1];
    r := sock.ReadExactly(length);
    if length <= |stream| - 2 {
      assert stream[2..][..length] == stream[2..2 + length];
      assert stream[2..][length..] == stream[2 + length..];
    }
  }

  function Truncate(bytes: seq<byte>): seq<byte> {
    if |bytes| > MAX_UDP_RESPONSE then bytes[..MAX_UDP_RESPONSE] else bytes
  }

  function OverTcp(x: Exchange, qname: seq<byte>): Reply {
    if x.tcp.Lost? then NoReply
    else match TcpMessage(x.tcp.bytes)
      case None => NoReply
      case Some(message) =>
        match DnsMessage.Parse(message, x.qid, qname, DnsMessage.TXT)
        case Malformed(_) => NoReply
        case Ok(r) => if r.truncated then NoReply else Reply(r.rcode, r.texts)
  }

  /** What `_query_one` returns, its exceptions as `NoReply`. */
  function QueryOne(x: Exchange, qname: seq<byte>): Reply {
    if x.udp.Lost? then NoReply
    else match DnsMessage.Parse(Truncate(x.udp.bytes), x.qid, qname, DnsMessage.TXT)
      case Malformed(_) => NoReply
      case Ok(r) => if r.truncated then OverTcp(x, qname) else Reply(r.rcode, r.texts)
  }

  /** `_query_one`: UDP, and TCP when the answer was cut. */
  method Query(x: Exchange, qname: seq<byte>) returns (r: Reply)
    ensures r == QueryOne(x, qname)
  {
    if x.udp.Lost? {
      return NoReply;
    }
    var udp := DnsMessage.ParseResponse(Truncate(x.udp.bytes), x.qid, qname, DnsMessage.TXT);
    if udp.Malformed? {
      return NoReply;
    }
    if !udp.value.truncated {
      return Reply(udp.value.rcode, udp.value.texts);
    }
    if x.tcp.Lost? {
      return NoReply;
    }
    var sock := new Socket(x.tcp.bytes);
    var message := ReadTcp(sock);
    if message.None? {
      return NoReply;
    }
    var tcp := DnsMessage.ParseResponse(message.value, x.qid, qname, DnsMessage.TXT);
    if tcp.Malformed? || tcp.value.truncated {
      return NoReply;
    }
    return Reply(tcp.value.rcode, tcp.value.texts);
  }

  // ---- one host -----------------------------------------------------------------------

  datatype Why =
    | NotQueryable | NoSuchName | Unparseable | NoRecord(strings: nat) | Conflicting(records: nat)
    | FromRecord | NoneAnswered(failures: nat)

  /** `_HostAnswer`: what DNS established about a host, before any port is considered. */
  datatype HostAnswer =
    HostAnswer(record: Option<Record>, undetermined: bool, why: Why, resolver: Option<ResolverId>)

  /** What every resolver would answer for a host, at one moment. */
  type Network = (ResolverId, Host) -> Exchange

  /** The records among some TXT strings; none at all when one of them is too long to read. */
  function Records(texts: seq<seq<byte>>): Option<seq<Record>> {
    if texts == [] then Some([])
    else match Parse(texts[0])
      case TooManyWords => None
      case TooManyEndpoints => None
      case NotARecord => Records(texts[1..])
      case Parsed(record) =>
        match Records(texts[1..]) case None => None case Some(rest) => Some([record] + rest)
  }

  predicate Agree(records: seq<Record>) {
    forall r :: r in records ==> r.endpoints == records[0].endpoints
  }

  /** What one resolver's TXT strings establish. */
  function Establish(texts: seq<seq<byte>>, from: ResolverId): HostAnswer {
    match Records(texts)
    case None => HostAnswer(None, true, Unparseable, Some(from))
    case Some(records) =>
      if records == [] then HostAnswer(None, false, NoRecord(|texts|), Some(from))
      else if !Agree(records) then HostAnswer(None, true, Conflicting(|records|), Some(from))
      else HostAnswer(Some(records[0]), false, FromRecord, Some(from))
  }

  /** The resolvers from here on, after `failures` of those before them. */
  function Ask(rs: seq<ResolverId>, net: Network, host: Host, qname: seq<byte>, failures: nat): HostAnswer {
    if rs == [] then HostAnswer(None, true, NoneAnswered(failures), None)
    else match QueryOne(net(rs[0], host), qname)
      case NoReply => Ask(rs[1..], net, host, qname, failures + 1)
      case Reply(rcode, texts) =>
        if rcode == NXDOMAIN then HostAnswer(None, false, NoSuchName, Some(rs[0]))
        else if rcode != NOERROR then Ask(rs[1..], net, host, qname, failures + 1)
        else Establish(texts, rs[0])
  }

  /** What `lookup` returns. */
  function Lookup(rs: seq<ResolverId>, net: Network, host: Host): HostAnswer {
    match DnsName.Encode(host)
    case Malformed(_) => HostAnswer(None, true, NotQueryable, None)
    case Ok(qname) => Ask(rs, net, host, qname, 0)
  }

  /** The records loop inside `lookup`. */
  method ReadRecords(texts: seq<seq<byte>>) returns (r: Option<seq<Record>>)
    ensures r == Records(texts)
  {
    var records: seq<Record> := [];
    ghost var all := Records(texts);
    assert all.Some? ==> records + all.value == all.value;
    for i := 0 to |texts|
      invariant all == match Records(texts[i..]) case None => None case Some(rest) => Some(records + rest)
    {
      assert texts[i..][1..] == texts[i + 1..];
      var parsed := ParseRecord(texts[i]);
      match parsed {
        case TooManyWords => return None;
        case TooManyEndpoints => return None;
        case NotARecord =>
        case Parsed(record) =>
          ghost var rest := Records(texts[i + 1..]);
          assert rest.Some? ==> records + ([record] + rest.value) == records + [record] + rest.value;
          records := records + [record];
      }
    }
    assert records + [] == records;
    return Some(records);
  }

  /** A record, but longer than is read whole. */
  predicate TooLong(p: Parsed) { p.TooManyWords? || p.TooManyEndpoints? }

  /** No string that is too long hides a set of strings, wherever it stands, and nothing else does. */
  lemma {:induction false} RecordsReadable(texts: seq<seq<byte>>)
    ensures Records(texts).Some? <==> forall i :: 0 <= i < |texts| ==> !TooLong(Parse(texts[i]))
  {
    hide Parse;
    if texts != [] {
      RecordsReadable(texts[1..]);
      assert forall i :: 0 < i < |texts| ==> texts[i] == texts[1..][i - 1];
      assert forall i :: 0 <= i < |texts| - 1 ==> texts[1..][i] == texts[i + 1];
    }
  }

  /** `records` are those of the strings that are records, in order; `at` is where they stand. */
  ghost predicate Listed(texts: seq<seq<byte>>, records: seq<Record>, at: seq<nat>) {
    && |at| == |records|
    && (forall k :: 0 <= k < |at| ==> at[k] < |texts| && Parse(texts[at[k]]) == Parsed(records[k]))
    && (forall k, l :: 0 <= k < l < |at| ==> at[k] < at[l])
    && (forall i: nat :: i < |texts| && Parse(texts[i]).Parsed? ==> i in at)
  }

  /** Readable strings give every record among them. */
  lemma {:induction false} RecordsExactly(texts: seq<seq<byte>>) returns (at: seq<nat>)
    requires Records(texts).Some?
    ensures Listed(texts, Records(texts).value, at)
  {
    hide Parse;
    at := [];
    if texts != [] {
      hide Listed;
      var later := RecordsExactly(texts[1..]);
      var rest := Records(texts[1..]).value;
      assert Records(texts).value == (if Parse(texts[0]).Parsed? then [Parse(texts[0]).record] + rest else rest);
      hide Records;
      if Parse(texts[0]).Parsed? {
        at := FirstIsRecord(texts, rest, later);
      } else {
        at := FirstIsNone(texts, rest, later);
      }
    }
  }

  lemma {:induction false} OneLater(texts: seq<seq<byte>>, rest: seq<Record>, later: seq<nat>) returns (at: seq<nat>)
    requires texts != [] && Listed(texts[1..], rest, later)
    ensures |at| == |rest|
    ensures forall k :: 0 <= k < |at| ==> 0 < at[k] < |texts| && Parse(texts[at[k]]) == Parsed(rest[k])
    ensures forall k, l :: 0 <= k < l < |at| ==> at[k] < at[l]
    ensures forall i: nat :: 0 < i < |texts| && Parse(texts[i]).Parsed? ==> i in at
  {
    hide Parse;
    at := seq(|later|, k requires 0 <= k < |later| => later[k] + 1);
    assert forall i :: 0 < i < |texts| ==> texts[i] == texts[1..][i - 1];
    forall i: nat | 0 < i < |texts| && Parse(texts[i]).Parsed? ensures i in at {
      var j: nat := i - 1;
      assert Parse(texts[1..][j]).Parsed?;
      var k :| 0 <= k < |later| && later[k] == j;
      assert at[k] == i;
    }
  }

  lemma {:induction false} FirstIsNone(texts: seq<seq<byte>>, rest: seq<Record>, later: seq<nat>) returns (at: seq<nat>)
    requires texts != [] && !Parse(texts[0]).Parsed? && Listed(texts[1..], rest, later)
    ensures Listed(texts, rest, at)
  {
    hide Parse;
    at := OneLater(texts, rest, later);
  }

  lemma {:induction false} AreListed(texts: seq<seq<byte>>, records: seq<Record>, at: seq<nat>)
    requires |at| == |records|
    requires forall k :: 0 <= k < |at| ==> at[k] < |texts| && Parse(texts[at[k]]) == Parsed(records[k])
    requires forall k, l :: 0 <= k < l < |at| ==> at[k] < at[l]
    requires forall i: nat :: i < |texts| && Parse(texts[i]).Parsed? ==> i in at
    ensures Listed(texts, records, at)
  {
    hide Parse;
  }

  lemma {:induction false} FirstIsRecord(texts: seq<seq<byte>>, rest: seq<Record>, later: seq<nat>)
    returns (at: seq<nat>)
    requires texts != [] && Parse(texts[0]).Parsed? && Listed(texts[1..], rest, later)
    ensures Listed(texts, [Parse(texts[0]).record] + rest, at)
  {
    hide Parse, Listed;
    var shifted := OneLater(texts, rest, later);
    var records := [Parse(texts[0]).record] + rest;
    at := [0] + shifted;
    forall k | 0 <= k < |at| ensures at[k] < |texts| && Parse(texts[at[k]]) == Parsed(records[k]) {
      assert k > 0 ==> at[k] == shifted[k - 1] && records[k] == rest[k - 1];
    }
    forall k, l | 0 <= k < l < |at| ensures at[k] < at[l] {
      assert at[l] == shifted[l - 1];
      assert k > 0 ==> at[k] == shifted[k - 1];
    }
    AreListed(texts, records, at);
  }

  lemma {:induction false} DistinctAllowLists(records: seq<Record>)
    requires records != []
    ensures |set r | r in records :: r.endpoints| > 1 <==> !Agree(records)
  {
    var kinds := set r | r in records :: r.endpoints;
    var first := records[0].endpoints;
    assert records[0] in records && first in kinds;
    if Agree(records) {
      assert kinds == {first};
    } else {
      var r :| r in records && r.endpoints != first;
      assert {first, r.endpoints} <= kinds;
      SubsetSize({first, r.endpoints}, kinds);
    }
  }

  // ---- the decision --------------------------------------------------------------------

  datatype Decision = Allow | Deny | Undetermined

  datatype Call = Call(host: Host, endpoint: Endpoint, net: Network)

  datatype Verdict = Verdict(decision: Decision, record: Option<Record>, resolver: Option<ResolverId>)

  /** What one host's answer means for one of its endpoints. */
  function Decide(a: HostAnswer, e: Endpoint): Verdict {
    if a.undetermined then Verdict(Undetermined, None, a.resolver)
    else match a.record
      case None => Verdict(Allow, None, a.resolver)
      case Some(r) => Verdict(if e in r.endpoints then Allow else Deny, Some(r), a.resolver)
  }

  const LITERAL := Verdict(Allow, None, None)

  class Resolver {
    const resolvers: seq<ResolverId>
    /** Whether `ipaddress` reads the host as an address. */
    const isLiteral: Host -> bool
    var cache: map<Host, HostAnswer>
    /** Every lookup made, in order. */
    ghost var asked: seq<Host>

    constructor (resolvers: seq<ResolverId>, isLiteral: Host -> bool)
      ensures this.resolvers == resolvers && this.isLiteral == isLiteral
      ensures cache == map[] && asked == []
    {
      this.resolvers := resolvers;
      this.isLiteral := isLiteral;
      cache, asked := map[], [];
    }

    /** `lookup`: the first definitive answer wins. */
    method LookUp(host: Host, net: Network) returns (a: HostAnswer)
      ensures a == Lookup(resolvers, net, host)
    {
      var encoded := DnsName.EncodeName(host);
      if encoded.Malformed? {
        return HostAnswer(None, true, NotQueryable, None);
      }
      var failures := 0;
      for i := 0 to |resolvers|
        invariant Ask(resolvers[i..], net, host, encoded.value, failures)
               == Ask(resolvers, net, host, encoded.value, 0)
      {
        assert resolvers[i..][1..] == resolvers[i + 1..];
        var reply := Query(net(resolvers[i], host), encoded.value);
        if reply.NoReply? {
          failures := failures + 1;
          continue;
        }
        if reply.rcode == NXDOMAIN {
          return HostAnswer(None, false, NoSuchName, Some(resolvers[i]));
        }
        if reply.rcode != NOERROR {
          failures := failures + 1;
          continue;
        }
        var records := ReadRecords(reply.texts);
        if records.None? {
          return HostAnswer(None, true, Unparseable, Some(resolvers[i]));
        }
        if records.value == [] {
          return HostAnswer(None, false, NoRecord(|reply.texts|), Some(resolvers[i]));
        }
        DistinctAllowLists(records.value);
        if |set r | r in records.value :: r.endpoints| > 1 {
          return HostAnswer(None, true, Conflicting(|records.value|), Some(resolvers[i]));
        }
        return HostAnswer(Some(records.value[0]), false, FromRecord, Some(resolvers[i]));
      }
      return HostAnswer(None, true, NoneAnswered(failures), None);
    }

    /** `consult`: the only way to permission. */
    method Consult(c: Call) returns (v: Verdict)
      modifies this`cache, this`asked
      ensures Step(resolvers, isLiteral, old(State(cache, asked)), c) == (State(cache, asked), v)
    {
      if isLiteral(c.host) {
        return LITERAL;
      }
      if c.host !in cache {
        var fresh_ := LookUp(c.host, c.net);
        cache, asked := cache[c.host := fresh_], asked + [c.host];
      }
      var answer := cache[c.host];
      if answer.undetermined {
        return Verdict(Undetermined, None, answer.resolver);
      }
      if answer.record.None? {
        return Verdict(Allow, None, answer.resolver);
      }
      var record := answer.record.value;
      if record.endpoints == [] {
        return Verdict(Deny, Some(record), answer.resolver);
      }
      if c.endpoint in record.endpoints {
        return Verdict(Allow, Some(record), answer.resolver);
      }
      return Verdict(Deny, Some(record), answer.resolver);
    }
  }

  // ---- whole runs -------------------------------------------------------------------------

  datatype State = State(cache: map<Host, HostAnswer>, asked: seq<Host>)

  /** One call to `consult`: the state it leaves and what it answers. */
  function Step(rs: seq<ResolverId>, isLiteral: Host -> bool, s: State, c: Call): (State, Verdict) {
    if isLiteral(c.host) then (s, LITERAL)
    else if c.host in s.cache then (s, Decide(s.cache[c.host], c.endpoint))
    else
      var a := Lookup(rs, c.net, c.host);
      (State(s.cache[c.host := a], s.asked + [c.host]), Decide(a, c.endpoint))
  }

  /** The state a run's first calls leave behind. */
  function After(rs: seq<ResolverId>, isLiteral: Host -> bool, calls: seq<Call>): State {
    if calls == [] then State(map[], [])
    else Step(rs, isLiteral, After(rs, isLiteral, calls[..|calls| - 1]), calls[|calls| - 1]).0
  }

  /** What the last call of a run is answered. */
  function Answer(rs: seq<ResolverId>, isLiteral: Host -> bool, calls: seq<Call>): Verdict
    requires calls != []
  {
    Step(rs, isLiteral, After(rs, isLiteral, calls[..|calls| - 1]), calls[|calls| - 1]).1
  }

  /** The first call about a host. */
  function FirstCall(calls: seq<Call>, host: Host): (n: nat)
    ensures n <= |calls|
    ensures n < |calls| ==> calls[n].host == host
    ensures forall i :: 0 <= i < n ==> calls[i].host != host
  {
    if calls == [] || calls[0].host == host then 0 else 1 + FirstCall(calls[1..], host)
  }

  /** The cache holds each host's answer as it was when the run first asked. */
  ghost predicate Frozen(rs: seq<ResolverId>, isLiteral: Host -> bool, calls: seq<Call>, s: State) {
    && (forall h :: h in s.cache <==> FirstCall(calls, h) < |calls| && !isLiteral(h))
    && (forall h :: h in s.cache ==> s.cache[h] == Lookup(rs, calls[FirstCall(calls, h)].net, h))
    && NoRepeats(s.asked) && (forall h :: h in s.asked <==> h in s.cache)
  }

  lemma {:induction false} FirstCallPrefix(calls: seq<Call>, h: Host)
    requires calls != []
    ensures var n := |calls| - 1;
            FirstCall(calls, h) == if FirstCall(calls[..n], h) < n then FirstCall(calls[..n], h)
                                   else if calls[n].host == h then n else n + 1
  {
    var n := |calls| - 1;
    var a := FirstCall(calls[..n], h);
    assert forall i :: 0 <= i < n ==> calls[..n][i] == calls[i];
  }

  lemma {:induction false} FirstCallStep(calls: seq<Call>, c: Call)
    ensures forall h :: FirstCall(calls, h) < |calls| ==> FirstCall(calls + [c], h) == FirstCall(calls, h)
    ensures forall h :: FirstCall(calls, h) == |calls| ==>
              FirstCall(calls + [c], h) == if h == c.host then |calls| else |calls| + 1
    ensures forall i :: 0 <= i < |calls| ==> (calls + [c])[i] == calls[i]
  {
    forall h
      ensures FirstCall(calls, h) < |calls| ==> FirstCall(calls + [c], h) == FirstCall(calls, h)
      ensures FirstCall(calls, h) == |calls| ==>
                FirstCall(calls + [c], h) == if h == c.host then |calls| else |calls| + 1
    {
      FirstCallPrefix(calls + [c], h);
      assert (calls + [c])[..|calls|] == calls;
    }
  }

  /** One more call keeps the cache frozen, whichever branch it takes. */
  lemma {:induction false} StepStaysFrozen(rs: seq<ResolverId>, isLiteral: Host -> bool, calls: seq<Call>,
                                            s: State, c: Call)
    requires Frozen(rs, isLiteral, calls, s)
    ensures Frozen(rs, isLiteral, calls + [c], Step(rs, isLiteral, s, c).0)
  {
    hide Lookup, Decide, FirstCall;
    FirstCallStep(calls, c);
    var all := calls + [c];
    var t := Step(rs, isLiteral, s, c).0;
    assert all[|calls|] == c;
    forall h | h in t.cache
      ensures t.cache[h] == Lookup(rs, all[FirstCall(all, h)].net, h)
    {
      assert h !in s.cache ==> h == c.host && FirstCall(all, h) == |calls|;
      assert h in s.cache ==> FirstCall(all, h) == FirstCall(calls, h) && t.cache[h] == s.cache[h];
    }
  }

  lemma {:induction false} StaysFrozen(rs: seq<ResolverId>, isLiteral: Host -> bool, calls: seq<Call>)
    ensures Frozen(rs, isLiteral, calls, After(rs, isLiteral, calls))
  {
    if calls != [] {
      hide Lookup, Decide, FirstCall, Step, Frozen;
      var n := |calls| - 1;
      StaysFrozen(rs, isLiteral, calls[..n]);
      StepStaysFrozen(rs, isLiteral, calls[..n], After(rs, isLiteral, calls[..n]), calls[n]);
      assert calls == calls[..n] + [calls[n]];
    }
  }

  /**
   * For every sequence of calls, each is answered as if there were no cache and the host's
   * records had stood still since the run first asked about it; and every host that is not
   * an address was looked up exactly once.
   */
  lemma {:induction false} AnsweredAsFirstAsked(rs: seq<ResolverId>, isLiteral: Host -> bool, calls: seq<Call>)
    requires calls != []
    ensures var c := calls[|calls| - 1];
            Answer(rs, isLiteral, calls) ==
            if isLiteral(c.host) then LITERAL
            else Decide(Lookup(rs, calls[FirstCall(calls, c.host)].net, c.host), c.endpoint)
    ensures NoRepeats(After(rs, isLiteral, calls).asked)
    ensures forall h :: h in After(rs, isLiteral, calls).asked <==>
              !isLiteral(h) && exists i :: 0 <= i < |calls| && calls[i].host == h
  {
    hide Lookup, Decide;
    var n := |calls| - 1;
    StaysFrozen(rs, isLiteral, calls);
    StaysFrozen(rs, isLiteral, calls[..n]);
    FirstCallPrefix(calls, calls[n].host);
    assert forall i :: 0 <= i < n ==> calls[..n][i] == calls[i];
  }
}
