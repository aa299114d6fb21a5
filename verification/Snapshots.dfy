/**
 * Fetching a source and keeping what it gave (`src/trackers/acquire.py` and the snapshot cache
 * of `scripts/generate.py`): the validators of one run are sent in the next, and a 304 stands
 * for the body held.
 */
module Snapshots {
  import opened Text
  import opened Lines

  type Id = string
  type Tracker = string

  // ---- reading a body ------------------------------------------------------------------

  datatype Parsed = Parsed(accepted: seq<Tracker>, rejected: seq<string>)

  /** `parse_many`, as some function of the lines. */
  type Parser = seq<string> -> Parsed

  datatype Source = Source(id: Id, expectedMin: nat, expectedMax: nat)

  datatype Outcome = Ok | Empty | Failed | Rejected | Unchanged

  /** The response headers that identify a version of the body. */
  datatype Validators = Validators(etag: Option<string>, lastModified: Option<string>)

  const NOTHING := Validators(None, None)

  /** `trackers` is `None` when nothing may be concluded, which is not the empty list. */
  datatype FetchResult = FetchResult(
    id: Id, outcome: Outcome, trackers: Option<seq<Tracker>>, rejected: seq<string>,
    body: Option<string>, validators: Validators)

  predicate Usable(r: FetchResult) {
    (r.outcome == Ok || r.outcome == Unchanged) && r.trackers.Some?
  }

  function Refused(id: Id, outcome: Outcome, rejected: seq<string>): FetchResult {
    FetchResult(id, outcome, None, rejected, None, NOTHING)
  }

  predicate LooksLikeHtml(body: string) {
    Opens(Trim(body), "<!doctype") || Opens(Trim(body), "<html") || Opens(Trim(body), "<?xml")
  }

  /** `parse_body`: the page checks, the parser, then the count checks. */
  function ParseBody(src: Source, parse: Parser, body: string): (r: FetchResult)
    ensures r.outcome != Failed && r.outcome != Unchanged
    ensures r.trackers.Some? <==> r.outcome == Ok
    ensures r.trackers.Some? ==> 0 < |r.trackers.value| && src.expectedMin <= |r.trackers.value| <= src.expectedMax
  {
    if LooksLikeHtml(body) then Refused(src.id, Rejected, [])
    else if Trim(body) == [] then Refused(src.id, Empty, [])
    else
      var parsed := parse(SplitLines(body));
      var n := |parsed.accepted|;
      if n == 0 || n < src.expectedMin || n > src.expectedMax then Refused(src.id, Rejected, parsed.rejected)
      else FetchResult(src.id, Ok, Some(parsed.accepted), parsed.rejected, None, NOTHING)
  }

  // ---- fetching --------------------------------------------------------------------------

  /** A header value is sent only when it is there and not empty. */
  function Truthy(value: Option<string>): Option<string> {
    if value.Some? && value.value != "" then value else None
  }

  /** The conditional headers a fetch puts on its request. */
  function Sent(v: Validators): Validators {
    Validators(Truthy(v.etag), Truthy(v.lastModified))
  }

  datatype Reply =
    | Transport                                        // no response at all
    | HttpError(code: nat)                             // any error status but 304
    | Oversize                                         // more than MAX_RESPONSE_BYTES
    | NotModified                                      // 304
    | Page(body: string, validators: Validators)       // the body, and how to ask about it again

  /** `fetch`, given what came back. */
  function Fetch(src: Source, parse: Parser, known: Validators, cached: Option<string>, reply: Reply): FetchResult {
    match reply
    case Transport => Refused(src.id, Failed, [])
    case HttpError(_) => Refused(src.id, Failed, [])
    case Oversize => Refused(src.id, Rejected, [])
    case NotModified =>
      if cached.None? then Refused(src.id, Failed, [])
      else
        var r := ParseBody(src, parse, cached.value).(body := cached, validators := known);
        if r.outcome == Ok then r.(outcome := Unchanged) else r
    case Page(body, validators) =>
      ParseBody(src, parse, body).(body := Some(body), validators := validators)
  }

  // ---- what a fetch concludes, from what came back -------------------------------------------

  /** The body a fetch has to go by: a page, or the held one behind a 304. */
  function AtHand(cached: Option<string>, reply: Reply): Option<string> {
    match reply case Page(body, _) => Some(body) case NotModified => cached case _ => None
  }

  /** A page where a list was expected: how the stripped body opens, in letters of either case. */
  predicate IsPage(body: string) {
    || OpensAs(Trim(body), "<!doctype") || OpensAs(Trim(body), "<html") || OpensAs(Trim(body), "<?xml")
  }

  predicate OpensAs(s: string, p: string) {
    |p| <= |s| && forall k :: 0 <= k < |p| ==> EitherCase(s[k], p[k])
  }

  lemma {:induction false} PageIs(body: string)
    ensures LooksLikeHtml(body) <==> IsPage(body)
  {
    hide Opens, Trim;
    OpensIs(Trim(body), "<!doctype");
    OpensIs(Trim(body), "<html");
    OpensIs(Trim(body), "<?xml");
  }

  predicate Within(src: Source, n: nat) { n > 0 && src.expectedMin <= n <= src.expectedMax }

  /** A body worth keeping: no page, not blank, and as many trackers as the source is known for. */
  predicate Accepted(src: Source, parse: Parser, body: string) {
    !IsPage(body) && Trim(body) != [] && Within(src, |parse(SplitLines(body)).accepted|)
  }

  /** Every outcome, exactly: a failure is never an empty list, and an empty list never a failure. */
  lemma {:induction false} OutcomeIs(src: Source, parse: Parser, known: Validators, cached: Option<string>,
                                     reply: Reply)
    ensures var r, body := Fetch(src, parse, known, cached, reply), AtHand(cached, reply);
            && (r.outcome == Failed <==> reply.Transport? || reply.HttpError? || (reply.NotModified? && cached.None?))
            && (r.outcome == Empty <==> body.Some? && !IsPage(body.value) && Trim(body.value) == [])
            && (r.outcome == Ok <==> reply.Page? && Accepted(src, parse, reply.body))
            && (r.outcome == Unchanged <==>
                  reply.NotModified? && cached.Some? && Accepted(src, parse, cached.value))
            && (r.outcome == Rejected <==>
                  reply.Oversize?
                  || (body.Some? && (IsPage(body.value)
                                     || (Trim(body.value) != [] && !Accepted(src, parse, body.value)))))
  {
    hide Trim, IsPage, LooksLikeHtml, SplitLines;
    var body := AtHand(cached, reply);
    if body.Some? {
      PageIs(body.value);
    }
  }

  /** What a result carries besides: trackers and rejects of an accepted body, and what is to be kept. */
  lemma {:induction false} ResultCarries(src: Source, parse: Parser, known: Validators, cached: Option<string>,
                                         reply: Reply)
    ensures var r, body := Fetch(src, parse, known, cached, reply), AtHand(cached, reply);
            && r.id == src.id && r.body == body
            && r.validators == (match reply
                                case Page(_, v) => v
                                case NotModified => if cached.Some? then known else Validators(None, None)
                                case _ => Validators(None, None))
            && r.trackers == (if body.Some? && Accepted(src, parse, body.value)
                              then Some(parse(SplitLines(body.value)).accepted) else None)
            && r.rejected == (if body.Some? && !IsPage(body.value) && Trim(body.value) != []
                              then parse(SplitLines(body.value)).rejected else [])
  {
    hide Trim, IsPage, LooksLikeHtml, SplitLines;
    var body := AtHand(cached, reply);
    if body.Some? {
      PageIs(body.value);
    }
  }

  /** The headers sent: each validator that is there and not the empty text. */
  lemma {:induction false} SentIs(v: Validators)
    ensures Sent(v).etag == (if v.etag == None || v.etag == Some("") then None else v.etag)
    ensures Sent(v).lastModified
         == if v.lastModified == None || v.lastModified == Some("") then None else v.lastModified
  {
  }

  /** Usable: an accepted body, whichever way it came. */
  lemma {:induction false} UsableIs(src: Source, parse: Parser, known: Validators, cached: Option<string>,
                                    reply: Reply)
    ensures Usable(Fetch(src, parse, known, cached, reply)) <==>
              AtHand(cached, reply).Some? && Accepted(src, parse, AtHand(cached, reply).value)
  {
    hide Accepted, Fetch;
    OutcomeIs(src, parse, known, cached, reply);
    ResultCarries(src, parse, known, cached, reply);
  }

  /** Same conclusions: what the dataset sees of a result. */
  ghost predicate Agrees(a: FetchResult, b: FetchResult) {
    && Usable(a) == Usable(b) && a.trackers == b.trackers && a.rejected == b.rejected
    && (a.outcome == b.outcome || (a.outcome == Unchanged && b.outcome == Ok))
  }

  /** A body kept as text and read back parses as it did when it was fetched. */
  lemma {:induction false} ParseTranslated(src: Source, parse: Parser, body: string)
    ensures ParseBody(src, parse, Translate(body)) == ParseBody(src, parse, body)
  {
    hide Trim, Translate, Opens, SplitLines;
    TrimTranslated(body, "<!doctype");
    TrimTranslated(body, "<html");
    TrimTranslated(body, "<?xml");
    SplitTranslated(body);
  }

  // ---- the cache on disk -------------------------------------------------------------------

  /** `<id>.txt` files as written, and `validators.json`. */
  datatype Cache = Cache(files: map<Id, string>, validators: map<Id, Validators>)

  /** The body `read_snapshots` hands back: text mode translates the newlines. */
  function Held(c: Cache, id: Id): Option<string> {
    if id in c.files then Some(Translate(c.files[id])) else None
  }

  function Known(c: Cache, id: Id): Validators {
    if id in c.validators then c.validators[id] else NOTHING
  }

  /** The files after `write_snapshots`: a result without a body leaves the old file. */
  function FilesAfter(files: map<Id, string>, results: seq<FetchResult>): map<Id, string> {
    if results == [] then files
    else
      var last := results[|results| - 1];
      var earlier := FilesAfter(files, results[..|results| - 1]);
      if last.body.Some? then earlier[last.id := last.body.value] else earlier
  }

  predicate Identifies(v: Validators) { Sent(v) != NOTHING }

  /** Worth keeping: one of the two is there and not the empty text. */
  lemma {:induction false} IdentifiesIs(v: Validators)
    ensures Identifies(v) <==>
              || (v.etag.Some? && |v.etag.value| > 0)
              || (v.lastModified.Some? && |v.lastModified.value| > 0)
  {
  }

  /** The new `validators.json`: this run's results only. */
  function ValidatorsOf(results: seq<FetchResult>): map<Id, Validators> {
    if results == [] then map[]
    else
      var last := results[|results| - 1];
      var earlier := ValidatorsOf(results[..|results| - 1]);
      if Identifies(last.validators) then earlier[last.id := last.validators] else earlier
  }

  class SnapshotDir {
    var files: map<Id, string>
    var validators: map<Id, Validators>

    function Contents(): Cache
      reads this
    {
      Cache(files, validators)
    }

    /** `write_snapshots`: one pass over the results, `validators.json` last. */
    method Write(results: seq<FetchResult>)
      modifies this
      ensures files == FilesAfter(old(files), results)
      ensures validators == ValidatorsOf(results)
    {
      var kept: map<Id, Validators> := map[];
      for i := 0 to |results|
        invariant files == FilesAfter(old(files), results[..i])
        invariant kept == ValidatorsOf(results[..i])
      {
        assert results[..i + 1][..i] == results[..i];
        var r := results[i];
        if Identifies(r.validators) {
          kept := kept[r.id := r.validators];
        }
        if r.body.Some? {
          files := files[r.id := r.body.value];
        }
      }
      assert results[..|results|] == results;
      validators := kept;
    }

    /** The fetching loop of `load_corpus`, then `write_snapshots`. */
    method Run(sources: seq<Source>, parse: Parser, web: (Id, Validators) -> Reply)
      returns (results: seq<FetchResult>)
      modifies this
      ensures results == Results(sources, parse, old(Contents()), web)
      ensures Contents() == After(sources, parse, old(Contents()), web)
    {
      results := [];
      for i := 0 to |sources|
        invariant results == Results(sources[..i], parse, old(Contents()), web)
        invariant Contents() == old(Contents())
      {
        assert sources[..i + 1][..i] == sources[..i];
        var known := Known(Contents(), sources[i].id);
        var reply := web(sources[i].id, Sent(known));
        results := results + [Fetch(sources[i], parse, known, Held(Contents(), sources[i].id), reply)];
      }
      assert sources[..|sources|] == sources;
      Write(results);
    }
  }

  // ---- one run -----------------------------------------------------------------------------

  /** What a run gets for one source, given the cache it read and how the web answers. */
  function Result(src: Source, parse: Parser, c: Cache, web: (Id, Validators) -> Reply): FetchResult {
    Fetch(src, parse, Known(c, src.id), Held(c, src.id), web(src.id, Sent(Known(c, src.id))))
  }

  function Results(sources: seq<Source>, parse: Parser, c: Cache, web: (Id, Validators) -> Reply): (r: seq<FetchResult>)
    ensures |r| == |sources|
  {
    if sources == [] then []
    else Results(sources[..|sources| - 1], parse, c, web) + [Result(sources[|sources| - 1], parse, c, web)]
  }

  function After(sources: seq<Source>, parse: Parser, c: Cache, web: (Id, Validators) -> Reply): Cache {
    var results := Results(sources, parse, c, web);
    Cache(FilesAfter(c.files, results), ValidatorsOf(results))
  }

  ghost predicate DistinctIds(sources: seq<Source>) {
    forall i, j :: 0 <= i < j < |sources| ==> sources[i].id != sources[j].id
  }

  /** The file and the validators of one source after a run, from its own result. */
  ghost predicate Own(id: Id, r: FetchResult, c: Cache, t: Cache) {
    && (id in t.files <==> r.body.Some? || id in c.files)
    && (id in t.files ==> t.files[id] == if r.body.Some? then r.body.value else c.files[id])
    && (id in t.validators <==> Identifies(r.validators))
    && (id in t.validators ==> t.validators[id] == r.validators)
  }

  /** A source no run asks about keeps its file and loses its validators. */
  ghost predicate Untouched(id: Id, c: Cache, t: Cache) {
    && (id in t.files <==> id in c.files)
    && (id in t.files ==> t.files[id] == c.files[id])
    && id !in t.validators
  }

  lemma {:induction false} AfterStep(sources: seq<Source>, parse: Parser, c: Cache, web: (Id, Validators) -> Reply)
    requires sources != []
    ensures var n := |sources| - 1;
            var earlier := After(sources[..n], parse, c, web);
            var r := Result(sources[n], parse, c, web);
            After(sources, parse, c, web) == Cache(
              if r.body.Some? then earlier.files[r.id := r.body.value] else earlier.files,
              if Identifies(r.validators) then earlier.validators[r.id := r.validators] else earlier.validators)
    ensures Result(sources[|sources| - 1], parse, c, web).id == sources[|sources| - 1].id
  {
    hide Opens, Trim, SplitLines, Translate;
    var n := |sources| - 1;
    var rs := Results(sources, parse, c, web);
    assert rs[..n] == Results(sources[..n], parse, c, web);
  }

  lemma {:induction false} OthersUntouched(sources: seq<Source>, parse: Parser, c: Cache,
                                           web: (Id, Validators) -> Reply, id: Id)
    requires forall src :: src in sources ==> src.id != id
    ensures Untouched(id, c, After(sources, parse, c, web))
  {
    if sources != [] {
      hide Result, Identifies, After;
      var n := |sources| - 1;
      assert sources[n] in sources;
      OthersUntouched(sources[..n], parse, c, web, id);
      AfterStep(sources, parse, c, web);
    }
  }

  lemma {:induction false} OwnResult(sources: seq<Source>, parse: Parser, c: Cache,
                                     web: (Id, Validators) -> Reply, i: nat)
    requires DistinctIds(sources) && i < |sources|
    ensures Own(sources[i].id, Result(sources[i], parse, c, web), c, After(sources, parse, c, web))
  {
    hide Result, Identifies, After;
    var n := |sources| - 1;
    AfterStep(sources, parse, c, web);
    if i < n {
      OwnResult(sources[..n], parse, c, web, i);
    } else {
      OthersUntouched(sources[..n], parse, c, web, sources[n].id);
    }
  }

  // ---- an honest server --------------------------------------------------------------------

  /** What a source has to say at one moment, or why it says nothing. */
  datatype Moment = Serving(body: string, validators: Validators) | Down(error: Reply)

  /**
   * One moment of a server that sends 304 only for the validators of its current body:
   * `version` says which body a set of validators stands for.
   */
  ghost predicate Honest(version: Validators -> string, now: Moment, sent: Validators, reply: Reply) {
    match now
    case Down(error) => reply == error && (error.Transport? || error.HttpError? || error.Oversize?)
    case Serving(body, validators) =>
      && (Identifies(validators) ==> version(Sent(validators)) == body)
      && (reply == Page(body, validators) || (reply.NotModified? && sent != NOTHING && version(sent) == body))
  }

  /** What an unconditional fetch would have made of the same moment. */
  function Unconditional(src: Source, parse: Parser, now: Moment): FetchResult {
    Fetch(src, parse, NOTHING, None, match now case Down(e) => e case Serving(b, v) => Page(b, v))
  }

  /** A body held beside validators is, once read back, the body they stand for. */
  ghost predicate Faithful(version: Validators -> string, held: Option<string>, known: Validators) {
    held.Some? && Identifies(known) ==> held.value == Translate(version(Sent(known)))
  }

  /** A body is missing and only its validators were kept. */
  ghost predicate BodyLost(held: Option<string>, known: Validators) {
    held.None? && Identifies(known)
  }

  /** Conditional fetching concludes what unconditional fetching would, unless the body was lost. */
  lemma {:induction false} ConditionalAgrees(src: Source, parse: Parser, version: Validators -> string, now: Moment,
                                             held: Option<string>, known: Validators, reply: Reply)
    requires Faithful(version, held, known) && Honest(version, now, Sent(known), reply)
    ensures var r := Fetch(src, parse, known, held, reply);
            Agrees(r, Unconditional(src, parse, now))
            || (BodyLost(held, known) && reply.NotModified? && r == Refused(src.id, Failed, []))
  {
    if reply.NotModified? && held.Some? {
      ParseTranslated(src, parse, version(Sent(known)));
    }
    hide ParseBody, Translate;
  }

  /** What a run keeps is faithful again, and a failed fetch keeps no validators. */
  lemma {:induction false} KeptFaithful(src: Source, parse: Parser, version: Validators -> string, now: Moment,
                                        held: Option<string>, known: Validators, reply: Reply)
    requires Faithful(version, held, known) && Honest(version, now, Sent(known), reply)
    ensures var r := Fetch(src, parse, known, held, reply);
            && (r.outcome == Failed ==> !Identifies(r.validators) && r.body.None?)
            && (Identifies(r.validators) ==> r.body.Some?)
            && (r.body.Some? ==> Faithful(version, Some(Translate(r.body.value)), r.validators))
  {
    hide ParseBody;
    if held.Some? && Identifies(known) {
      TranslateTwice(version(Sent(known)));
    }
    hide Translate;
  }

  /**
   * A source that does not change is downloaded once: what one run keeps of a page answers a 304
   * with the same conclusions, and is what the next run keeps.
   */
  lemma {:induction false} DownloadedOnce(src: Source, parse: Parser, body: string, v: Validators)
    requires Identifies(v)
    ensures var first := Fetch(src, parse, NOTHING, None, Page(body, v));
            var held := Some(Translate(first.body.value));
            var again := Fetch(src, parse, first.validators, held, NotModified);
            && Agrees(again, first) && again.outcome == (if first.outcome == Ok then Unchanged else first.outcome)
            && again.validators == v && again.body == held
            && Some(Translate(again.body.value)) == held
  {
    ParseTranslated(src, parse, body);
    TranslateTwice(body);
    hide ParseBody, Translate;
  }

  // ---- whole histories -----------------------------------------------------------------------

  /** One run: the cache it read, what each source had to say, and how the web answered. */
  datatype Round = Round(cache: Cache, now: map<Id, Moment>, web: (Id, Validators) -> Reply)

  /** Between runs a cache may lose anything, but it never gains or changes an entry. */
  ghost predicate Survives(before: Cache, after: Cache) {
    && (forall id :: id in after.files ==> id in before.files && after.files[id] == before.files[id])
    && (forall id :: id in after.validators ==>
          id in before.validators && after.validators[id] == before.validators[id])
  }

  /** Runs over the same sources, from an empty cache, against honest servers. */
  ghost predicate IsHistory(sources: seq<Source>, parse: Parser, version: Id -> Validators -> string,
                            rounds: seq<Round>)
  {
    && DistinctIds(sources)
    && (rounds != [] ==> rounds[0].cache == Cache(map[], map[]))
    && (forall k :: 0 <= k < |rounds| - 1 ==>
          Survives(After(sources, parse, rounds[k].cache, rounds[k].web), rounds[k + 1].cache))
    && (forall k, i :: 0 <= k < |rounds| && 0 <= i < |sources| ==> HonestAt(sources[i], version, rounds[k]))
  }

  ghost predicate HonestAt(src: Source, version: Id -> Validators -> string, round: Round) {
    var sent := Sent(Known(round.cache, src.id));
    src.id in round.now && Honest(version(src.id), round.now[src.id], sent, round.web(src.id, sent))
  }

  ghost predicate FaithfulAt(id: Id, version: Id -> Validators -> string, c: Cache) {
    Faithful(version(id), Held(c, id), Known(c, id))
  }

  lemma {:induction false} AlwaysFaithful(sources: seq<Source>, parse: Parser, version: Id -> Validators -> string,
                                          rounds: seq<Round>, k: nat, i: nat)
    requires IsHistory(sources, parse, version, rounds) && k < |rounds| && i < |sources|
    ensures FaithfulAt(sources[i].id, version, rounds[k].cache)
  {
    if k > 0 {
      hide ParseBody, Translate, After, Fetch;
      AlwaysFaithful(sources, parse, version, rounds, k - 1, i);
      var src, c, web := sources[i], rounds[k - 1].cache, rounds[k - 1].web;
      OwnResult(sources, parse, c, web, i);
      assert HonestAt(src, version, rounds[k - 1]);
      var sent := Sent(Known(c, src.id));
      KeptFaithful(src, parse, version(src.id), rounds[k - 1].now[src.id], Held(c, src.id), Known(c, src.id),
                   web(src.id, sent));
    }
  }

  /**
   * Over any runs against honest servers, losing anything from the cache between them: each
   * conditional fetch concludes what an unconditional one would have, or its body was lost
   * while its validators were kept, and then it fails and keeps nothing to be wrong about.
   */
  lemma {:induction false} AgreesAlways(sources: seq<Source>, parse: Parser, version: Id -> Validators -> string,
                                        rounds: seq<Round>, k: nat, i: nat)
    requires IsHistory(sources, parse, version, rounds) && k < |rounds| && i < |sources|
    ensures var src, round := sources[i], rounds[k];
            var r := Result(src, parse, round.cache, round.web);
            && src.id in round.now
            && (Agrees(r, Unconditional(src, parse, round.now[src.id]))
                || (BodyLost(Held(round.cache, src.id), Known(round.cache, src.id))
                    && r == Refused(src.id, Failed, [])))
  {
    hide ParseBody, Translate, After, Fetch;
    var src, c, web := sources[i], rounds[k].cache, rounds[k].web;
    AlwaysFaithful(sources, parse, version, rounds, k, i);
    assert HonestAt(src, version, rounds[k]);
    ConditionalAgrees(src, parse, version(src.id), rounds[k].now[src.id], Held(c, src.id), Known(c, src.id),
                      web(src.id, Sent(Known(c, src.id))));
  }

  /** Over any runs: a source fails exactly when its request did, or a 304 came for a body that is not held. */
  lemma {:induction false} FailsExactly(sources: seq<Source>, parse: Parser, version: Id -> Validators -> string,
                                        rounds: seq<Round>, k: nat, i: nat)
    requires IsHistory(sources, parse, version, rounds) && k < |rounds| && i < |sources|
    ensures var src, round := sources[i], rounds[k];
            var reply := round.web(src.id, Sent(Known(round.cache, src.id)));
            Result(src, parse, round.cache, round.web).outcome == Failed <==>
              reply.Transport? || reply.HttpError? || (reply.NotModified? && src.id !in round.cache.files)
  {
    hide Fetch;
    var src, round := sources[i], rounds[k];
    OutcomeIs(src, parse, Known(round.cache, src.id), Held(round.cache, src.id),
              round.web(src.id, Sent(Known(round.cache, src.id))));
  }

  /** One failure is all a lost body costs: the run after a failed fetch asks unconditionally. */
  lemma {:induction false} HealsNextRun(sources: seq<Source>, parse: Parser, version: Id -> Validators -> string,
                                        rounds: seq<Round>, k: nat, i: nat)
    requires IsHistory(sources, parse, version, rounds) && k + 1 < |rounds| && i < |sources|
    requires Result(sources[i], parse, rounds[k].cache, rounds[k].web).outcome == Failed
    ensures var src, round := sources[i], rounds[k + 1];
            && src.id in round.now
            && Sent(Known(round.cache, src.id)) == NOTHING
            && Agrees(Result(src, parse, round.cache, round.web), Unconditional(src, parse, round.now[src.id]))
  {
    hide ParseBody, Translate, After, Fetch;
    var src, c, web := sources[i], rounds[k].cache, rounds[k].web;
    AlwaysFaithful(sources, parse, version, rounds, k, i);
    assert HonestAt(src, version, rounds[k]);
    KeptFaithful(src, parse, version(src.id), rounds[k].now[src.id], Held(c, src.id), Known(c, src.id),
                 web(src.id, Sent(Known(c, src.id))));
    OwnResult(sources, parse, c, web, i);
    assert Survives(After(sources, parse, c, web), rounds[k + 1].cache);
    AgreesAlways(sources, parse, version, rounds, k + 1, i);
  }

  // ---- a write that is cut short -------------------------------------------------------------

  /**
   * What may be read back from a file that got the first bytes of a body: a character that was cut
   * comes back as the replacement character.
   */
  ghost predicate IsPart(part: string, body: string) {
    part <= body || (part != [] && part[|part| - 1] == '\U{FFFD}' && part[..|part| - 1] < body)
  }

  /**
   * A write stopped before `validators.json` is opened: `n` results are dealt with, and the file of
   * the next one may have been opened and hold a part of its body.
   */
  ghost predicate IsStop(results: seq<FetchResult>, n: nat, part: Option<string>) {
    && n <= |results|
    && (part.Some? ==> n < |results| && results[n].body.Some? && IsPart(part.value, results[n].body.value))
  }

  /** What such a write leaves on disk. */
  ghost function CutShort(c: Cache, results: seq<FetchResult>, n: nat, part: Option<string>): Cache
    requires IsStop(results, n, part)
  {
    var files := FilesAfter(c.files, results[..n]);
    Cache(if part.Some? then files[results[n].id := part.value] else files, c.validators)
  }

  /** What one stopped inside `validators.json` leaves: a file that does not parse is no validators. */
  function CutInValidators(c: Cache, results: seq<FetchResult>): Cache {
    Cache(FilesAfter(c.files, results), map[])
  }

  ghost predicate DistinctResults(results: seq<FetchResult>) {
    forall i, j :: 0 <= i < j < |results| ==> results[i].id != results[j].id
  }

  /** The stopped write reached the file of result `i`, and left this in it. */
  ghost predicate Left(results: seq<FetchResult>, n: nat, part: Option<string>, i: nat, text: string) {
    || (i < n <= |results| && results[i].body == Some(text))
    || (i == n < |results| && part == Some(text))
  }

  lemma {:induction false} LastBodyWins(files: map<Id, string>, results: seq<FetchResult>, i: nat)
    requires i < |results| && forall j :: i < j < |results| ==> results[j].id != results[i].id
    requires results[i].body.Some?
    ensures var id := results[i].id;
            id in FilesAfter(files, results) && FilesAfter(files, results)[id] == results[i].body.value
  {
    if i < |results| - 1 {
      LastBodyWins(files, results[..|results| - 1], i);
    }
  }

  lemma {:induction false} NoBodyKeepsFile(files: map<Id, string>, results: seq<FetchResult>, id: Id)
    requires forall r :: r in results && r.id == id ==> r.body.None?
    ensures id in FilesAfter(files, results) <==> id in files
    ensures id in files ==> FilesAfter(files, results)[id] == files[id]
  {
    if results != [] {
      assert results[|results| - 1] in results;
      NoBodyKeepsFile(files, results[..|results| - 1], id);
    }
  }

  /** What a reached source holds is what was left in its file, beside the validators of before. */
  lemma {:induction false} CutShortLeaves(c: Cache, results: seq<FetchResult>, n: nat, part: Option<string>, i: nat,
                                          text: string)
    requires DistinctResults(results) && IsStop(results, n, part) && Left(results, n, part, i, text)
    ensures var cut := CutShort(c, results, n, part);
            && Held(cut, results[i].id) == Some(Translate(text))
            && Known(cut, results[i].id) == Known(c, results[i].id)
  {
    hide Translate;
    if i < n {
      LastBodyWins(c.files, results[..n], i);
    }
  }

  /** A source the stopped write did not reach is as it was. */
  lemma {:induction false} CutShortElsewhere(c: Cache, results: seq<FetchResult>, n: nat, part: Option<string>, id: Id)
    requires IsStop(results, n, part)
    requires forall r :: r in results[..n] && r.id == id ==> r.body.None?
    requires part.Some? ==> results[n].id != id
    ensures var cut := CutShort(c, results, n, part);
            Held(cut, id) == Held(c, id) && Known(cut, id) == Known(c, id)
  {
    hide Translate;
    NoBodyKeepsFile(c.files, results[..n], id);
  }

  /** All that a parser, or a page check, can see of a body. */
  datatype Reading = HtmlPage | Blank | Lines(lines: seq<string>)

  function Read(body: string): Reading {
    if LooksLikeHtml(body) then HtmlPage else if Trim(body) == [] then Blank else Lines(SplitLines(body))
  }

  lemma {:induction false} ReadTranslated(body: string)
    ensures Read(Translate(body)) == Read(body)
  {
    hide Trim, Translate, Opens, SplitLines;
    TrimTranslated(body, "<!doctype");
    TrimTranslated(body, "<html");
    TrimTranslated(body, "<?xml");
    SplitTranslated(body);
  }

  /** Two bodies agree under every parser exactly when they read alike. */
  lemma {:induction false} AgreeWhenReadAlike(src: Source, a: string, b: string)
    ensures (forall parse: Parser :: Agrees(ParseBody(src, parse, a), ParseBody(src, parse, b))) <==> Read(a) == Read(b)
  {
    hide LooksLikeHtml, Trim, SplitLines;
    var lines := SplitLines(b);
    var telling: Parser := (ls: seq<string>) => Parsed([], if ls == lines then ["b"] else ["a"]);
    assert Agrees(ParseBody(src, telling, a), ParseBody(src, telling, b)) ==> Read(a) == Read(b);
  }

  /**
   * Whatever is held, beside whatever validators: a conditional fetch agrees with an unconditional
   * one under every parser exactly when it is not answered 304, or what is held reads like what
   * is served.
   */
  lemma {:induction false} HeldAgrees(src: Source, version: Validators -> string, now: Moment,
                                      held: Option<string>, known: Validators, reply: Reply)
    requires Honest(version, now, Sent(known), reply)
    ensures (forall parse: Parser :: Agrees(Fetch(src, parse, known, held, reply), Unconditional(src, parse, now)))
       <==> (reply.NotModified? ==> held.Some? && Read(held.value) == Read(now.body))
    ensures reply.NotModified? ==> now.Serving? && version(Sent(known)) == now.body
  {
    hide Read, ParseBody;
    if reply.NotModified? && held.Some? {
      AgreeWhenReadAlike(src, held.value, now.body);
      forall parse: Parser
        ensures Agrees(Fetch(src, parse, known, held, reply), Unconditional(src, parse, now))
           <==> Agrees(ParseBody(src, parse, held.value), ParseBody(src, parse, now.body))
      { }
    } else if reply.NotModified? {
      var parse: Parser := (ls: seq<string>) => Parsed([], []);
      assert !Agrees(Fetch(src, parse, known, held, reply), Unconditional(src, parse, now));
    }
  }

  /**
   * `validators.json` is replaced last, so a stopped write leaves new bodies, one of them perhaps in
   * part, beside old validators. The next fetch of a source it reached agrees with an unconditional
   * one under every parser exactly when it is not answered 304, or the text left reads like the one
   * served; and what is served then is the version the old validators stand for.
   */
  lemma {:induction false} CutShortNextFetch(c: Cache, results: seq<FetchResult>, n: nat, part: Option<string>,
                                             i: nat, text: string, src: Source, version: Validators -> string,
                                             now: Moment, reply: Reply)
    requires DistinctResults(results) && IsStop(results, n, part) && Left(results, n, part, i, text)
    requires results[i].id == src.id && Honest(version, now, Sent(Known(c, src.id)), reply)
    ensures var cut := CutShort(c, results, n, part);
            (forall parse: Parser ::
              Agrees(Fetch(src, parse, Known(cut, src.id), Held(cut, src.id), reply), Unconditional(src, parse, now)))
            <==> (reply.NotModified? ==> Read(text) == Read(now.body))
    ensures reply.NotModified? ==> now.Serving? && version(Sent(Known(c, src.id))) == now.body
  {
    hide Read, Fetch, Unconditional, Agrees, Translate, Honest, CutShort, IsStop, Left;
    CutShortLeaves(c, results, n, part, i, text);
    var cut := CutShort(c, results, n, part);
    HeldAgrees(src, version, now, Held(cut, src.id), Known(cut, src.id), reply);
    ReadTranslated(text);
  }

  /** Stopped inside `validators.json`, nothing is asked conditionally, and the next fetch agrees. */
  lemma {:induction false} CutInValidatorsAgrees(c: Cache, results: seq<FetchResult>, src: Source, parse: Parser,
                                                 version: Validators -> string, now: Moment, reply: Reply)
    requires var cut := CutInValidators(c, results); Honest(version, now, Sent(Known(cut, src.id)), reply)
    ensures var cut := CutInValidators(c, results);
            && Sent(Known(cut, src.id)) == NOTHING
            && Agrees(Fetch(src, parse, Known(cut, src.id), Held(cut, src.id), reply), Unconditional(src, parse, now))
  {
    hide ParseBody, Translate, FilesAfter;
    var cut := CutInValidators(c, results);
    ConditionalAgrees(src, parse, version, now, Held(cut, src.id), Known(cut, src.id), reply);
  }

  /** Right or wrong, a pair that a 304 answers is kept as it is. */
  lemma {:induction false} NotModifiedKeeps(sources: seq<Source>, parse: Parser, c: Cache,
                                            web: (Id, Validators) -> Reply, i: nat)
    requires DistinctIds(sources) && i < |sources|
    requires var id := sources[i].id;
             Held(c, id).Some? && Identifies(Known(c, id)) && web(id, Sent(Known(c, id))).NotModified?
    ensures var id, t := sources[i].id, After(sources, parse, c, web);
            Held(t, id) == Held(c, id) && Known(t, id) == Known(c, id)
  {
    hide After, ParseBody, Translate, Identifies;
    var id := sources[i].id;
    OwnResult(sources, parse, c, web, i);
    TranslateTwice(c.files[id]);
  }

  lemma {:induction false} LettersBreakFree(s: string)
    requires forall c :: c in s ==> 'a' <= c <= 'b'
    ensures SplitLines(s) == (if s == [] then [] else [s]) && Translate(s) == s
  {
    if s != [] {
      assert s[0] in s;
      assert forall c :: c in s[1..] ==> c in s;
      LettersBreakFree(s[1..]);
      SplitStep(s[0], s[1..]);
      TranslateStep(s[0], s[1..]);
      hide SplitLines, Translate;
      assert s == [s[0]] + s[1..];
      assert Translate(s) == s;
      assert |s| == 1 ==> s[1..] == [] && s == [s[0]];
      assert [s[1..]][1..] == [];
      assert |s| > 1 ==> SplitLines(s) == [s] + [];
    }
  }

  // A source that serves short lines, and a web that answers one thing.
  const SOURCE := Source("s", 0, 9)
  const FIRST := Validators(Some("v"), None)
  const SECOND := Validators(Some("w"), None)

  function EachLine(lines: seq<string>): Parsed { Parsed(lines, []) }

  function Always(reply: Reply): (Id, Validators) -> Reply { (id: Id, sent: Validators) => reply }

  lemma {:induction false} LettersTrim(s: string)
    requires s != [] && forall c :: c in s ==> 'a' <= c <= 'b'
    ensures Trim(s) == s && !LooksLikeHtml(s)
  {
    assert s[0] in s && s[|s| - 1] in s;
    assert TrimLeft(s) == s && TrimRight(s) == s;
  }

  lemma {:induction false} LettersParse(s: string)
    requires s != [] && forall c :: c in s ==> 'a' <= c <= 'b'
    ensures ParseBody(SOURCE, EachLine, s) == FetchResult("s", Ok, Some([s]), [], None, NOTHING)
    ensures Translate(s) == s
  {
    hide SplitLines, Translate, Trim, LooksLikeHtml;
    LettersBreakFree(s);
    LettersTrim(s);
  }

  lemma {:induction false} FirstKept(s: string, v: Validators)
    requires s != [] && forall c :: c in s ==> 'a' <= c <= 'b'
    requires Identifies(v)
    ensures var c := After([SOURCE], EachLine, Cache(map[], map[]), Always(Page(s, v)));
            Held(c, "s") == Some(s) && Known(c, "s") == v
  {
    LettersParse(s);
    hide ParseBody, After, Translate, Identifies;
    OwnResult([SOURCE], EachLine, Cache(map[], map[]), Always(Page(s, v)), 0);
    assert [SOURCE][0] == SOURCE;
  }

  lemma {:induction false} OneResult(c: Cache, reply: Reply)
    ensures var r := Fetch(SOURCE, EachLine, Known(c, "s"), Held(c, "s"), reply);
            && Results([SOURCE], EachLine, c, Always(reply)) == [r] && r.id == "s"
            && Result(SOURCE, EachLine, c, Always(reply)) == r
  {
    hide ParseBody, Translate;
    assert [SOURCE][..0] == [];
    assert forall body: string :: ParseBody(SOURCE, EachLine, body).id == "s" by { ParsedIds(); }
  }

  lemma {:induction false} ParsedIds()
    ensures forall body: string :: ParseBody(SOURCE, EachLine, body).id == "s"
  {
    hide LooksLikeHtml, Trim, SplitLines;
  }

  /** The harm: "a" is kept, "b" is written and the write stopped, "a" comes back and is taken for "b". */
  lemma {:induction false} CutShortWitness()
    returns (c: Cache, results: seq<FetchResult>, cut: Cache, next: FetchResult)
    ensures c == After([SOURCE], EachLine, Cache(map[], map[]), Always(Page("a", FIRST)))
    ensures results == Results([SOURCE], EachLine, c, Always(Page("b", SECOND)))
    ensures IsStop(results, 1, None) && cut == CutShort(c, results, 1, None)
    ensures next == Result(SOURCE, EachLine, cut, Always(NotModified))
    ensures var version := (v: Validators) => if v == FIRST then "a" else "b";
            && Honest(version, Serving("a", FIRST), NOTHING, Page("a", FIRST))
            && Honest(version, Serving("b", SECOND), Sent(Known(c, "s")), Page("b", SECOND))
            && Honest(version, Serving("a", FIRST), Sent(Known(cut, "s")), NotModified)
    ensures next.outcome == Unchanged && next.trackers == Some(["b"])
    ensures Unconditional(SOURCE, EachLine, Serving("a", FIRST)).trackers == Some(["a"])
  {
    hide ParseBody, Translate, After, Results, FilesAfter, CutShort, Result, Held, Known;
    LettersParse("a");
    LettersParse("b");
    FirstKept("a", FIRST);
    c := After([SOURCE], EachLine, Cache(map[], map[]), Always(Page("a", FIRST)));
    OneResult(c, Page("b", SECOND));
    results := Results([SOURCE], EachLine, c, Always(Page("b", SECOND)));
    CutShortLeaves(c, results, 1, None, 0, "b");
    cut := CutShort(c, results, 1, None);
    OneResult(cut, NotModified);
    next := Result(SOURCE, EachLine, cut, Always(NotModified));
  }

  /**
   * The harm without any new version: "ab" is kept, a 304 rewrites it and the write stops after one
   * letter, and the next 304 takes that letter for the whole.
   */
  lemma {:induction false} CutInBodyWitness()
    returns (c: Cache, results: seq<FetchResult>, cut: Cache, next: FetchResult)
    ensures c == After([SOURCE], EachLine, Cache(map[], map[]), Always(Page("ab", FIRST)))
    ensures results == Results([SOURCE], EachLine, c, Always(NotModified))
    ensures IsStop(results, 0, Some("a")) && cut == CutShort(c, results, 0, Some("a"))
    ensures next == Result(SOURCE, EachLine, cut, Always(NotModified))
    ensures var version := (v: Validators) => "ab";
            && Honest(version, Serving("ab", FIRST), NOTHING, Page("ab", FIRST))
            && Honest(version, Serving("ab", FIRST), Sent(Known(c, "s")), NotModified)
            && Honest(version, Serving("ab", FIRST), Sent(Known(cut, "s")), NotModified)
    ensures next.outcome == Unchanged && next.trackers == Some(["a"])
    ensures Unconditional(SOURCE, EachLine, Serving("ab", FIRST)).trackers == Some(["ab"])
  {
    hide ParseBody, Translate, After, Results, FilesAfter, CutShort, Result, Held, Known;
    LettersParse("a");
    LettersParse("ab");
    FirstKept("ab", FIRST);
    c := After([SOURCE], EachLine, Cache(map[], map[]), Always(Page("ab", FIRST)));
    OneResult(c, NotModified);
    results := Results([SOURCE], EachLine, c, Always(NotModified));
    assert "a" <= "ab";
    CutShortLeaves(c, results, 0, Some("a"), 0, "a");
    cut := CutShort(c, results, 0, Some("a"));
    OneResult(cut, NotModified);
    next := Result(SOURCE, EachLine, cut, Always(NotModified));
  }
}
