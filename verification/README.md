# A verified model of the tracker aggregator

A Dafny 4.11 model of the parts of the repository where something can go wrong quietly: the
consent gate and its DNS client, the bencode decoder, the snapshot cache, the publishing swap,
the issue reconciler, the release channels, the arithmetic of the experiments, and the smaller
stateful pieces around them. `dafny verify dfyconfig.toml` checks all of it.

Code that loops or updates fields is a method or a class here, proved against a function; what
the code promises is then proved about that function, for every input, every run or every way of
being interrupted. Code that only computes is a function, with lemmas about it.

| files | what they model |
|---|---|
| `Bytes`, `Text`, `Lines`, `Order`, `Keys`, `Collections` | big-endian fields, join and split, `splitlines` and `strip`, Python's stable sort and ordered dictionary keys, sequences without repeats |
| `DnsName`, `DnsMessage`, `Bep34`, `Stream`, `Consent`, `ConsentSafety` | `src/trackers/bep34.py`: names, messages, the allow-list record, chunked streams, the resolver with its cache, and the decision (RFC 1035, BEP 34) |
| `Bencode`, `BencodeCanonical`, `BencodeUses` | `src/trackers/bencode.py`, and the torrent written by `experiments/23-client-list-compatibility.py` (BEP 3) |
| `Snapshots` | fetching in `src/trackers/acquire.py` and the cache in `scripts/generate.py` (RFC 9110 sections 13.1 and 15.4.5) |
| `Publish` | verification and the stage-and-rename sequence of `scripts/generate.py`, crash by crash |
| `IssueText`, `Issues`, `IssueRuns` | `src/trackers/issues.py` and the loops of `scripts/raise-issues.py` (UTF-8 as in RFC 3629) |
| `Channels` | `src/trackers/channels.py`: the calendar, tags and runs (ISO 8601 weeks) |
| `Reals`, `ValueGate`, `Binomial` | `experiments/27-value-gate.py` in exact reals |
| `Arms`, `Series` | `experiments/26-user-agent-block-rate.py` |
| `WebSocket` | the framing in `experiments/25-webtorrent-handshake.py` (RFC 6455) |
| `Sweeps`, `SweepRuns` | the fold loop of `scripts/update-state.py` and the bounded list of `src/trackers/state.py` |
| `Dedup`, `Slots`, `Bep15` | `src/trackers/dedup.py`, the slot choice of `experiments/37-schedule-delay.py`, the codec of `src/trackers/bep15.py` |

## Where the code and its documentation part

The model follows the code. For each of these there is a proof of the exact condition under which
the code does keep the promise, and a proof at an input, or for all inputs outside it, that it
otherwise does not.

- `bencode.py` says that bencode has one encoding per value. Lengths go through `int`, which takes
  underscores and trailing spaces, and dictionaries may be unsorted or repeat a key
  (`CanonicalIff`, `UnderscoreInLength`, `KeysOutOfOrder`, `RepeatedKey`).
- `_read_frame` calls a masked server frame a protocol error and then returns its payload still
  masked (`MaskedFrameStaysMasked`).
- `clamp` cuts a body to the cap; with a limit smaller than the notice the result is over it
  (`ClampWithinLimit`, `ClampOvershoots`). The default limit is large enough.
- `sweep_identity` promises that a copy of a sweep under a second name is folded once. Within one
  invocation it is folded twice (`CopyFoldedTwice`, `OncePerInvocation`).
- An identity is meant to name one sweep. The fields are joined by bars that they may hold themselves
  (`IdentityNamesSweep`).
- The list of applied sweeps keeps the 64 greatest identities, not the 64 latest, and a sweep that was
  forgotten is folded again (`RemembersGreatest`, `FoldedAtMostOnce`, `RerunChangesNothing`,
  `SixtyFifthFoldedTwice`).
- `verify` says the formats must hold the same tracker set. The plaintext is compared by its
  number of lines (`PlaintextAgrees`, `PlaintextMayDisagree`).
- A snapshot write that is cut short leaves new bodies, one of them perhaps in part, beside old
  validators. It does harm exactly when the next fetch is answered 304 while the text left does not
  read like the one served: when a source returns to its old version (`CutShortWitness`), or, with no
  new version at all, when the write stopped inside the body (`CutInBodyWitness`, `CutShortNextFetch`).
- A baseline that is a census with no live tracker cannot be beaten, because its worst-case ratio
  is undefined (`CountBar`, `NothingBeatsAnEmptyCensus`).

## Assumptions

- Each read of the network, a file, a clock, a hash or a random number is a parameter: what every
  resolver would answer at the moment of a call, what a server replies to the headers it was sent,
  which sweeps can be read, the digest of a URL, the mask key, the query id.
- A server is honest when it sends 304 only for the validators of its current body; only the
  lemmas about conditional fetching use this. `parse_many`, `apply_sweep`, `carries_private_credential`,
  the address test of `ipaddress` and `Tracker.sort_key` are arbitrary functions, the last one a
  strict total or weak order as each lemma says.
- `os.replace` is atomic; `shutil.rmtree` removes entries one at a time in any order; a file that
  is being written may hold any prefix of its content, and a `validators.json` cut short does not parse.
- The issue listing shows every open issue. Between runs people may close, file and reopen issues, but
  do not give a condition a second open one. New issues are numbered above all others.
- Two loops are composed here from functions of the repository that no single caller joins: a run that
  fetches and then writes the snapshots (`Snapshots.SnapshotDir.Run`), and a run that publishes each
  channel that is promotable and due (`Channels.TagsAfter`).
- Host names are ASCII; text is a sequence of Unicode scalar values.

## Model

| member | source | states |
|---|---|---|
| `DnsName.ReadName` | src/trackers/bep34.py:387-429 | the loop over labels and pointers terminates on every buffer and offset and returns exactly what the recursive expansion of RFC 1035 section 4.1.4 returns, with the same errors |
| `DnsName.ReadIff` | src/trackers/bep34.py:387-429 | a read succeeds on exactly the names that have a meaning within the jump and label caps, returns that meaning in lower case, and leaves the next offset inside the buffer |
| `DnsName.DenotesOnce` | src/trackers/bep34.py:387-429 | a compressed name has at most one meaning: one list of labels, one number of jumps |
| `DnsName.BackwardPointersCanCycle` | src/trackers/bep34.py:407-419 | a name whose pointers all point backwards and that still goes round for ever has no meaning, and the jump cap is what rejects it |
| `DnsName.AfterIs` | src/trackers/bep34.py:397-424 | where reading goes on behind a name: behind its zero or its first pointer |
| `DnsName.ErrorAt` | src/trackers/bep34.py:397-424 | the error for what stands at the offset, in the byte there |
| `DnsName.EncodeName` | src/trackers/bep34.py:364-384 | the label-by-label encoder accepts and rejects the same hosts, with the same errors, as joining all labels at once |
| `DnsName.EncodeIff` | src/trackers/bep34.py:364-384 | a host is encodable exactly when it is at most 253 characters with labels of 1 to 63; the encoding is two bytes longer than the name |
| `DnsName.HostNameIs` | src/trackers/bep34.py:371 | the name of a host: white space off both ends, then dots off the end |
| `DnsName.WireLength` | src/trackers/bep34.py:381-384 | every label costs at least two bytes, so 255 bytes hold at most 127 labels and the label cap of the reader never fires on an encoded name |
| `DnsName.EncodeRead` | src/trackers/bep34.py:364-429 | every encodable name is read back, wherever it stands in a message, as its lower-cased dotted form with all its bytes consumed |
| `DnsName.PointerRead` | src/trackers/bep34.py:407-419 | a pointer to such a name from anywhere behind it reads as the same name in two bytes |
| `DnsMessage.ParseResponse` | src/trackers/bep34.py:445-496 | the parser with its answer loop computes the recursive specification, error for error |
| `DnsMessage.QueryLayout` | src/trackers/bep34.py:432-442 | a query byte for byte |
| `DnsMessage.HeaderIs` | src/trackers/bep34.py:454-464 | the checks of the header in order, and code and truncation in the bits of its bytes |
| `DnsMessage.RecordErrors` | src/trackers/bep34.py:477-513 | fewer records than counted, and addresses of any length but 4 and 16, are errors |
| `DnsMessage.ReadTxt` | src/trackers/bep34.py:516-537 | the loop over character strings joins them, and rejects a string that runs past its record |
| `DnsMessage.ReadAnswers` | src/trackers/bep34.py:476-496 | the loop over the answer section keeps the records of the asked type and class and skips the others by their lengths |
| `DnsMessage.OnlyEchoesBelieved` | src/trackers/bep34.py:454-474 | an accepted message carries the id that was sent, the answer bit, and one question that echoes the name, type and class asked |
| `DnsMessage.QueryIsNoAnswer` | src/trackers/bep34.py:432-460 | our own query sent back to us is rejected |
| `DnsMessage.ParsePrint` | src/trackers/bep34.py:445-537 | any well-formed answer is read back: its code, its truncation bit and its values in order, for any bytes that mean a name where its owners stand, every splitting of strings and any other records in between |
| `DnsMessage.PlainOwnersMeant` | src/trackers/bep34.py:387-429 | owners spelled whole and pointers to the question are such bytes, in every message |
| `Bep34.ParseRecord` | src/trackers/bep34.py:311-351 | the loop over the words gathers exactly the specified allow-list, and refuses a record too long to read whole |
| `Bep34.AllowListExact` | src/trackers/bep34.py:311-351 | the allow-list is the endpoints the words advertise: none missing, none invented, none twice, in first-occurrence order, every port between 1 and 65535 |
| `Bep34.ParsedWhen` | src/trackers/bep34.py:311-351 | a string is no record exactly when its first word is not `BITTORRENT`; it is refused whole exactly with more than 64 words or more than 16 endpoints advertised |
| `Bep34.EndpointIs` | src/trackers/bep34.py:330-346 | a word advertises an endpoint exactly when it is `UDP:` or `TCP:` and digits that count 1 to 65535 |
| `Bep34.WordsFound` | src/trackers/bep34.py:323 | `split` finds the words between any gaps of white space |
| `Bep34.MadeOfWords` | src/trackers/bep34.py:323 | and every string is so made of the words found in it |
| `Bep34.UnknownWordsIgnored` | src/trackers/bep34.py:330-346 | a word that advertises nothing changes no allow-list, wherever it stands |
| `Bep34.ParseRender` | src/trackers/bep34.py:311-351 | rendering any list of at most 16 distinct endpoints and parsing it gives the list back |
| `Stream.Socket.Recv` | src/trackers/bep34.py:836-851 | the environment: `recv` returns any non-empty part of what is pending, and nothing once the stream is closed |
| `Stream.Socket.ReadExactly` | src/trackers/bep34.py:836-851 | exactly the asked number of bytes is taken from the stream however it is chunked; a short stream fails |
| `Consent.ReadTcp` | src/trackers/bep34.py:630-634 | the two-byte length and then that many bytes, for every chunking; longer than the cap or short is no message |
| `Consent.Query` | src/trackers/bep34.py:596-640 | one resolver: UDP, and TCP exactly when the UDP answer was truncated; every failure is no answer |
| `Consent.ReadRecords` | src/trackers/bep34.py:745-754 | the records among the TXT strings, or nothing at all when one of them is too long |
| `Consent.RecordsReadable` | src/trackers/bep34.py:745-752 | strings are read exactly when none of them is a record that is too long, wherever it stands |
| `Consent.RecordsExactly` | src/trackers/bep34.py:745-754 | what is read is every string that is a record, once each and in order |
| `Consent.DistinctAllowLists` | src/trackers/bep34.py:762-771 | more than one distinct allow-list is the same as two records that disagree |
| `Consent.Resolver.LookUp` | src/trackers/bep34.py:708-776 | the ordered fallback returns what the recursive specification over the resolvers returns |
| `Consent.Resolver.Consult` | src/trackers/bep34.py:778-833 | one call leaves exactly the cache, the list of lookups and the verdict of the step function |
| `Consent.StaysFrozen` | src/trackers/bep34.py:804-806 | invariant of every run: the cache holds, for each host asked so far, the answer at the moment of the first ask, and no host was asked twice |
| `Consent.AnsweredAsFirstAsked` | src/trackers/bep34.py:778-833 | over any sequence of calls, with resolvers changing their answers at will, each verdict equals a cache-free one with the answer frozen at first ask; exactly the hosts that are not addresses are looked up, once each |
| `ConsentSafety.DecisionIff` | src/trackers/bep34.py:708-833 | every decision: an address is allowed; with nobody heard it is undetermined; code 3 allows; for code 0 a string too long or two records with different endpoints leave it undetermined, and otherwise it is allowed exactly when every record names the endpoint |
| `ConsentSafety.AmbiguityIsUndetermined` | src/trackers/bep34.py:745-771 | two strings that are records with different endpoints, or one too long, decide nothing |
| `ConsentSafety.Established` | src/trackers/bep34.py:745-833 | the same for the strings of one resolver, with the record and the resolver the verdict names |
| `ConsentSafety.HeardFirst` | src/trackers/bep34.py:724-743 | who is heard: the first resolver whose reply has code 0 or 3, and nobody exactly when there is none |
| `ConsentSafety.RepliesAreRead` | src/trackers/bep34.py:596-640 | a reply is exactly an uncut datagram of which 4096 bytes are read, or behind a cut one a whole TCP message of at most 16384 bytes |
| `ConsentSafety.EveryCallDecision` | src/trackers/bep34.py:778-833 | the gate with its cache decides every call of a run so, as the network was at the first call about the host |
| `ConsentSafety.FailingResolversChangeNothing` | src/trackers/bep34.py:724-743 | putting resolvers that fail in front changes no decision |
| `ConsentSafety.AnswerHeard` | src/trackers/bep34.py:596-640 | a well-formed answer arrives whole over UDP, or over TCP after a truncated UDP answer |
| `ConsentSafety.RecordOfWords` | src/trackers/bep34.py:311-351 | a record within its two bounds allows exactly the endpoints its words advertise, however the words are spaced |
| `ConsentSafety.PublishedRecordHonoured` | src/trackers/bep34.py:311-833 | end to end, from the bytes on the wire: with one record published, an endpoint is allowed exactly when a word of the record advertises it, whatever failed before, however the words are spaced and however the message is laid out |
| `Bencode.Decode` | src/trackers/bencode.py:72-126 | the decoder with its list and dictionary loops computes the recursive specification |
| `Bencode.PrefixCode` | src/trackers/bencode.py:52-133 | what is consumed is within the input and not empty, any suffix leaves the result alone, and no proper prefix of the consumed bytes is accepted |
| `Bencode.LengthTaken` | src/trackers/bencode.py:113-120 | groups of digits joined by underscores, with white space behind, count as the digits alone, unless a zero stands in front |
| `Bencode.LengthShape` | src/trackers/bencode.py:113-120 | and no other length is taken |
| `Bencode.LengthRefused` | src/trackers/bencode.py:113-120 | the refusal of a length with a zero in front, exactly |
| `Bencode.StringIs` | src/trackers/bencode.py:113-125 | a string is as many bytes behind the first colon as its length says |
| `Bencode.IntegerIs` | src/trackers/bencode.py:75-90 | an integer has no zero in front of other digits and is not minus zero |
| `Bencode.OnlyIntegers` | src/trackers/bencode.py:75-90 | and is nothing but digits behind at most one minus sign |
| `BencodeCanonical.DecodeEncode` | src/trackers/bencode.py:72-126 | every value without repeated keys decodes from its encoding, to the last byte |
| `BencodeCanonical.DecUnique` | src/trackers/bencode.py:100-112 | a decoded dictionary never repeats a key |
| `BencodeCanonical.CanonicalIff` | src/trackers/bencode.py:58-64 | re-encoding an accepted value gives the consumed bytes exactly when lengths are all digits and every dictionary is in strictly ascending key order |
| `BencodeCanonical.OneEncodingPerValue` | src/trackers/bencode.py:58-64 | the documented promise of one encoding per value, on exactly that strict input, with values that differ only in key order being one value |
| `BencodeUses.TorrentIs` | experiments/23-client-list-compatibility.py:115-136 | the hand-written torrent bytes are the canonical encoding of the torrent they mean, for every list of entries |
| `BencodeUses.TorrentDecodes` | experiments/23-client-list-compatibility.py:115-136 | and the decoder reads it back whole, on input that is strict |
| `BencodeUses.AnySpelling` | src/trackers/bencode.py:113-125 | a string is accepted behind every spelling of its length that `int` takes, and only digits alone are canonical |
| `BencodeUses.UnderscoreInLength` | src/trackers/bencode.py:117-120 | the limit is sharp: `1_1:` and `11:` decode alike |
| `BencodeUses.KeyOrder` | src/trackers/bencode.py:100-112 | dictionaries are accepted in any key order, and exactly the sorted ones are canonical |
| `BencodeUses.KeysOutOfOrder` | src/trackers/bencode.py:100-112 | the second limit is sharp: an unsorted dictionary is accepted |
| `BencodeUses.RepeatedKey` | src/trackers/bencode.py:108-112 | a repeated key is accepted and its first value lost, for every key and value |
| `BencodeUses.TruncatedNeverTracker` | src/trackers/bencode.py:155-233 | a body taken for a tracker answer is never so taken when cut, and what follows it does not change the verdict |
| `BencodeUses.KindOfDictionary` | src/trackers/bencode.py:193-233 | a dictionary is a failure, an announce, a scrape or unrecognised exactly by the keys it holds, in this order |
| `BencodeUses.KindOfOthers` | src/trackers/bencode.py:175-190 | nothing at all, another value, a page, or neither: each exactly, in the bytes of the body |
| `Lines.SplitTranslated` | scripts/generate.py:166-172 | reading a kept body back through text mode moves no line boundary |
| `Lines.TrimTranslated` | src/trackers/acquire.py:138-153 | nor does it change whether the stripped body is empty or how it opens |
| `Lines.SplitIs` | src/trackers/acquire.py:197 | `splitlines`: nothing has no lines, and a line comes off the front with any of its eleven ends |
| `Lines.TrimIs` | src/trackers/acquire.py:143 | `strip`: white text off both ends, up to text white at neither |
| `Lines.WhiteIs` | src/trackers/acquire.py:143 | the characters that are white |
| `Lines.TranslateIs` | scripts/generate.py:166-172 | a text-mode read: each carriage return, with its line feed if it has one, becomes a line feed |
| `Snapshots.ParseBody` | src/trackers/acquire.py:156-212 | trackers are present exactly in an OK result, never none, and within the expected band; parsing alone never fails or reports unchanged |
| `Snapshots.ParseTranslated` | src/trackers/acquire.py:181-212 | a body parses to the same result after being written and read back |
| `Snapshots.OutcomeIs` | src/trackers/acquire.py:133-303 | every outcome from what came back: failed exactly for a transport or HTTP error or a 304 with nothing held; empty exactly for a blank body; OK only for a page and unchanged only for a 304, with a count within the band; rejected otherwise |
| `Snapshots.ResultCarries` | src/trackers/acquire.py:181-303 | the trackers, rejects, body and validators of every result |
| `Snapshots.UsableIs` | src/trackers/acquire.py:118-126 | a result is usable exactly when a body that is accepted was at hand |
| `Snapshots.SentIs` | src/trackers/acquire.py:236-240 | the conditional headers sent: each validator that is there and not empty |
| `Snapshots.IdentifiesIs` | scripts/generate.py:179-181 | validators are worth keeping exactly when one of them is there and not empty |
| `Snapshots.SnapshotDir.Write` | scripts/generate.py:177-191 | the loop keeps every fetched body, leaves the old file where none was fetched, and replaces the validators by those of this run |
| `Snapshots.SnapshotDir.Run` | scripts/generate.py:211-234 | each source is fetched with the validators and body its own cache entry holds |
| `Snapshots.OwnResult` | scripts/generate.py:177-234 | after a run each source has its own body and validators, or keeps its old body and loses its validators |
| `Snapshots.ConditionalAgrees` | src/trackers/acquire.py:215-303 | against a server that sends 304 only for its current version, a conditional fetch concludes what an unconditional one does, unless the body was lost |
| `Snapshots.KeptFaithful` | src/trackers/acquire.py:262-303 | what a fetch hands on to be kept is a body with the validators of that very body, and a failed fetch hands on none |
| `Snapshots.AlwaysFaithful` | scripts/generate.py:147-191 | invariant over any runs with any losses between them: a body held beside validators is the body they stand for |
| `Snapshots.AgreesAlways` | scripts/generate.py:147-234 | over any sequence of runs, same usability, trackers and rejects as unconditional fetching, except one failed fetch where only the body was lost |
| `Snapshots.FailsExactly` | src/trackers/acquire.py:262-292 | over any runs a source fails exactly when its request did, or a 304 came for a body that is not held |
| `Snapshots.HealsNextRun` | src/trackers/acquire.py:266-273 | the run after a failed fetch asks unconditionally and agrees again |
| `Snapshots.DownloadedOnce` | src/trackers/acquire.py:262-303 | a source that does not change is downloaded once: what a run keeps of a page answers a 304 with the same conclusions and is kept again |
| `Snapshots.HeldAgrees` | src/trackers/acquire.py:215-303 | whatever is held beside whatever validators: a conditional fetch agrees with an unconditional one under every parser exactly when it is not answered 304 or what is held reads like what is served |
| `Snapshots.CutShortNextFetch` | scripts/generate.py:177-191 | after a write stopped anywhere before `validators.json`, inside a body or between two: the next fetch of a source it reached agrees with an unconditional one under every parser exactly when it is not answered 304 or the text left in the file reads like the one served; 304 means that the version of the old validators is served |
| `Snapshots.CutShortLeaves` | scripts/generate.py:177-187 | what the stopped write left in the file of a source is what is read back, beside the validators of before |
| `Snapshots.CutInValidatorsAgrees` | scripts/generate.py:159-166 | a write stopped inside `validators.json` makes the next fetch unconditional, and it agrees |
| `Snapshots.NotModifiedKeeps` | scripts/generate.py:177-191 | a body and validators that a 304 answers are kept as they are, so a wrong pair stays until something else is answered |
| `Snapshots.CutShortElsewhere` | scripts/generate.py:177-191 | a source whose body the stopped write did not reach is held just as before |
| `Snapshots.AgreeWhenReadAlike` | src/trackers/acquire.py:156-212 | two bodies give the same conclusions under every parser exactly when both are pages, both are blank, or they have the same lines |
| `Snapshots.CutShortWitness` | scripts/generate.py:177-234 | such a history in full: a version is kept, the next is written and the write stopped, the first returns, and the next run publishes the second |
| `Snapshots.CutInBodyWitness` | scripts/generate.py:177-234 | and one in which the source never changes: a 304 rewrites the body, the write stops inside it, and the next 304 publishes a part for the whole |
| `Publish.Verify` | scripts/generate.py:63-144 | no problem is reported exactly when the output is publishable: every check, in both directions |
| `Publish.UrlIs` | scripts/generate.py:80-83 | the test of a line: not empty, no comment, no blank, and `://` somewhere |
| `Publish.PlaintextAgrees` | scripts/generate.py:76-79 | `verify` compares plaintext and dataset by number only; they hold the same URLs exactly when every line is one of them |
| `Publish.PlaintextMayDisagree` | scripts/generate.py:76-79 | a dataset of one URL, right in JSON and CSV, passes with another URL as its plaintext |
| `Publish.RenderedPasses` | scripts/generate.py:63-144 | one URL a line, and JSON and CSV in which the same URLs are found: a rendered dataset reads back as itself, and passes exactly when its URLs are distinct and clean and a source answered |
| `Publish.StoppedAnywhere` | scripts/generate.py:395-443 | wherever a run is stopped, after any system call or inside any file, the three directories are in one of six shapes, each given exactly |
| `Publish.DatasetHolds` | scripts/generate.py:400-433 | a dataset holds the names of its files and no others, each with the content last written to it |
| `Publish.StagedAsVerified` | scripts/generate.py:384-433 | the plaintext, JSON and CSV found in a published directory are the texts that were verified |
| `Publish.PublishedFiles` | scripts/generate.py:400-433 | each of the ten files, by its name, holds its own text |
| `Publish.TenFiles` | scripts/generate.py:400-433 | and there are ten |
| `Publish.AlwaysSafe` | scripts/generate.py:384-443 | over any sequence of runs stopped anywhere: at every moment `out` is absent or a whole dataset whose three texts, read back, pass every check of the run that rendered it (or one known before), and after the first completed publication `out` or `out.previous` is one |
| `Publish.ReaderFinds` | scripts/generate.py:63-144 | what a reader of such a directory finds: JSON and CSV with exactly the URLs of the corpus, and as many different lines that pass for URLs, none excluded and none with a credential |
| `Publish.CompletedRun` | scripts/generate.py:395-443 | a run that completes, from any disk a crash left, publishes its dataset, sets the old one aside, and leaves no staging |
| `Publish.Directories.Publish` | scripts/generate.py:395-443 | the code takes exactly those steps, and ends in exactly that disk |
| `Publish.VerifyAndPublish` | scripts/generate.py:384-443 | a run of the model, for every rendering: exit 1 exactly when the texts are not publishable; then, or when only checking, nothing on disk changes; otherwise `out` holds the verified texts |
| `IssueText.DecodeCut` | src/trackers/issues.py:142-153 | UTF-8 cut at any byte and decoded with errors ignored is the longest run of whole characters that fits |
| `IssueText.ClampKeepsPrefix` | src/trackers/issues.py:142-153 | for every limit a cut body is the most whole characters that fit in the bytes kept, then the notice |
| `IssueText.Utf8Is` | src/trackers/issues.py:148-152 | UTF-8 by the table of RFC 3629: lengths, first bytes and bits |
| `IssueText.HeadIff` | src/trackers/issues.py:153 | the decoder sees a character exactly where the encoding of one stands |
| `IssueText.ClampWithinLimit` | src/trackers/issues.py:142-153 | the result is within the limit exactly when nothing was cut or the limit holds the notice |
| `IssueText.ClampOvershoots` | src/trackers/issues.py:142-153 | two characters cut to one byte come out as the whole notice |
| `IssueText.BodyWithinCap` | src/trackers/issues.py:74-86 | a published body never takes more than 8000 bytes and is cut only when it would |
| `IssueText.ReadKey` | src/trackers/issues.py:129-139 | the loop over the lines finds the first one that carries a key |
| `IssueText.FirstKeyIs` | src/trackers/issues.py:136-139 | the key of a body is that of its first line that has one |
| `IssueText.PrefixSpelled` | src/trackers/issues.py:53 | how a marker starts |
| `IssueText.KeyOfMarker` | src/trackers/issues.py:137-138 | a line has a key only if it is the prefix, some text, an arrow and white space, and the key is that text stripped |
| `IssueText.MarkerHasKey` | src/trackers/issues.py:137-138 | and every such line has it |
| `IssueText.CleanKey` | src/trackers/issues.py:129-139 | whatever key is read is trimmed and on one line |
| `IssueText.MarkerReadBack` | src/trackers/issues.py:125-139 | a marker on the first line is read back exactly when its key is trimmed and without a line break |
| `IssueText.BodyCarriesKey` | src/trackers/issues.py:74-86 | the published body of any condition names that condition exactly when its key is trimmed, on one line, and its marker survives the cut |
| `IssueText.TextIs` | src/trackers/issues.py:74-86 | the text before any cut: marker, title, one line for each piece of evidence, action, run |
| `Keys.SortedKeysAscend` | src/trackers/issues.py:175-186 | the keys of a dictionary in strictly ascending order |
| `Issues.MakePlan` | src/trackers/issues.py:156-187 | the loops over dictionaries compute the specified plan |
| `Issues.WantedIsLast` | src/trackers/issues.py:164 | of several conditions with one key the last counts |
| `Issues.LowestWins` | src/trackers/issues.py:164-173 | for every listing of the open issues, each key keeps its lowest-numbered open issue |
| `IssueRuns.UpdatesOldest` | src/trackers/issues.py:176-182 | a comment is planned for exactly the wanted conditions with an open issue, on the oldest one |
| `IssueRuns.PlanInKeyOrder` | src/trackers/issues.py:175-186 | new issues, comments and closures each go by key, in ascending order |
| `IssueRuns.Tracker.Reconcile` | scripts/raise-issues.py:135-161 | one run takes exactly the actions of the plan, in order |
| `IssueRuns.StoppedRun` | scripts/raise-issues.py:146-161 | stopped after any number of actions, a run has opened no second issue for any key, and none for a key that is not wanted |
| `IssueRuns.CompletedRun` | scripts/raise-issues.py:146-161 | a completed run keeps the issues of a wanted key or opens one, and closes the oldest issue of a cleared key and no other, so duplicates shrink by one a run |
| `IssueRuns.Untouched` | src/trackers/issues.py:129-139 | issues without a marker, closed issues and issues whose condition persists come through any part of a run unchanged |
| `IssueRuns.DuplicatesNeverGrow` | scripts/raise-issues.py:135-161 | over any sequence of runs stopped anywhere, no key ever has more open issues than it began with, or than one |
| `IssueRuns.NeverTwice` | scripts/raise-issues.py:135-161 | so without duplicates to begin with no key ever has two open issues, with people closing, filing and reopening issues in between |
| `IssueRuns.ConvergesEveryRun` | scripts/raise-issues.py:135-161 | and after every completed run the open automated keys are exactly the conditions, one issue each, whatever was reopened since the last |
| `IssueRuns.ClearedKeysDrain` | scripts/raise-issues.py:135-161 | the duplicates of a cleared key shrink by one each completed run, to none: at most max(0, d - runs) are left, and exactly that many when nobody else opens or closes any |
| `IssueRuns.OrderIrrelevant` | src/trackers/issues.py:156-187 | the order of the listing and of the conditions never matters |
| `Channels.OrdinalInjective` | src/trackers/channels.py:117-119 | two dates with one day number are one date |
| `Channels.ValidIs` | src/trackers/channels.py:97-112 | every date there is, from its first second to its last |
| `Channels.MonthLengths` | src/trackers/channels.py:117-119 | the lengths of the months, leap years by the Gregorian rule |
| `Channels.FirstDay` | src/trackers/channels.py:117-119 | the first day is numbered 1, |
| `Channels.NextDay` | src/trackers/channels.py:117-119 | days are numbered one after the other within a month, |
| `Channels.NextMonth` | src/trackers/channels.py:117-119 | from month to month, |
| `Channels.NextYear` | src/trackers/channels.py:117-119 | and from year to year |
| `Channels.IsoNamesMonday` | src/trackers/channels.py:122-132 | the ISO year and week of a day give back the Monday of its week, with weeks 1 to 53 and year boundaries included |
| `Channels.SameIsoWeek` | src/trackers/channels.py:122-132 | two days carry one ISO year and week exactly when one Monday starts their week |
| `Channels.DailyTagReads` | src/trackers/channels.py:117-119 | a daily tag spells year, month and day, in this order, the last two in two digits |
| `Channels.WeeklyTagReads` | src/trackers/channels.py:122-141 | a weekly tag spells the ISO year and week, and each channel has its own kind of tag |
| `Channels.DailyTagsNameDays` | src/trackers/channels.py:117-119 | two instants share a daily tag exactly when they share a UTC day |
| `Channels.WeeklyTagsNameWeeks` | src/trackers/channels.py:122-132 | two instants share a weekly tag exactly when they share a UTC week from Monday to Sunday |
| `Channels.TagsByChannel` | src/trackers/channels.py:135-141 | tags of different channels never collide |
| `Channels.FirstOfEachPeriod` | src/trackers/channels.py:144-182 | over any sequence of runs, in any order of their instants: a run publishes exactly when it succeeded, counted a tracker and is not suspicious, and, by day or week, its tag was not there and no earlier such run shares its period |
| `Channels.TagsExactly` | src/trackers/channels.py:144-182 | the tags there after any runs: those there before, and those of every run that succeeded, counted a tracker and is not suspicious |
| `Channels.NeverRepublished` | src/trackers/channels.py:160-182 | no daily or weekly tag is published twice |
| `ValueGate.ScoreFactors` | experiments/27-value-gate.py:156-169 | the endpoints are the two roots of the score equation, for every count, size and z |
| `ValueGate.ScoreTest` | experiments/27-value-gate.py:156-169 | the interval holds exactly the proportions the score test does not reject |
| `ValueGate.ClampsNeverBite` | experiments/27-value-gate.py:156-169 | 0 <= lo <= k/n <= hi <= 1 before any clamp; lo is 0 exactly when nothing is live |
| `ValueGate.NothingMeasured` | experiments/27-value-gate.py:156-158 | with nothing measured the interval is everything |
| `ValueGate.Tally` | experiments/27-value-gate.py:274-299 | the loop counts the recorded and the live URLs of an arm |
| `ValueGate.EstimateExact` | experiments/27-value-gate.py:302-326 | an estimate in the counts of its arm: the live share of the population, its ends the population times the two roots; a census is the count itself |
| `ValueGate.EstimateOrdered` | experiments/27-value-gate.py:302-326 | an estimate encloses its point, and its ends are positive exactly when something is live |
| `ValueGate.RatiosOrdered` | experiments/27-value-gate.py:453-465 | the worst, point and best ratios are defined and in order as soon as the baseline has a live tracker |
| `ValueGate.RatiosExact` | experiments/27-value-gate.py:458-460 | each ratio is one more than added over baseline at its end, and undefined exactly for a zero baseline |
| `ValueGate.JudgedByCounts` | experiments/27-value-gate.py:440-500 | the whole verdict in the counts of the two arms and the lengths of the two lists |
| `ValueGate.CountBar` | experiments/27-value-gate.py:462-469 | the count bar is cleared exactly when one tracker of our own is live, unless the baseline is a census that found none |
| `ValueGate.NothingBeatsAnEmptyCensus` | experiments/27-value-gate.py:462-489 | one live tracker against a census of a dead one is judged not justified, with no ratio defined |
| `ValueGate.DensityBar` | experiments/27-value-gate.py:471-476 | the density bar compares what is added with what the baseline would have at the same length |
| `Binomial.LikelihoodsTotalOne` | experiments/27-value-gate.py:172-191 | the binomial theorem: the likelihoods of all outcomes total 1 |
| `Binomial.CountedOutcomes` | experiments/27-value-gate.py:182-191 | what is added up: each outcome with its likelihood, when that is at most the observed one and a billionth of it |
| `Binomial.TwoSidedIsAProbability` | experiments/27-value-gate.py:172-191 | the clamp at 1 never bites, the result is at least the observed likelihood, and it is 1 exactly when no outcome is likelier beyond the tolerance |
| `Binomial.OneAtAMode` | experiments/27-value-gate.py:172-191 | in particular it is 1 at a mode |
| `Arms.AssignArms` | experiments/26-user-agent-block-rate.py:127-151 | the loop fills the dictionary of the specification |
| `Arms.GroupIsInterval` | experiments/26-user-agent-block-rate.py:148-150 | `(index * k) // n` cuts the order into runs of consecutive indices |
| `Arms.Balanced` | experiments/26-user-agent-block-rate.py:145-151 | in every rotation each arm gets the floor or the ceiling of its share |
| `Arms.ArmExactly` | experiments/26-user-agent-block-rate.py:145-151 | whose turn it is: the URL at index i of n in hash order gets arm i * k // n plus the rotation, modulo k |
| `Arms.EveryArmOnce` | experiments/26-user-agent-block-rate.py:127-151 | over any k rotations in a row every URL meets every arm exactly once |
| `Arms.InputOrderIrrelevant` | experiments/26-user-agent-block-rate.py:145-151 | the order of the input is forgotten when the hashes differ |
| `Series.CountPairs` | experiments/26-user-agent-block-rate.py:302-320 | the two inner loops count each pair of one subject's arms as specified |
| `Series.Paired` | experiments/26-user-agent-block-rate.py:298-320 | a cell exists for exactly the pairs of arms some subject was seen under, with four exact counts |
| `Series.CellCountsEveryone` | experiments/26-user-agent-block-rate.py:308-320 | the four counts of a cell sum to the number of subjects seen under both arms |
| `WebSocket.Mask` | experiments/25-webtorrent-handshake.py:88-102 | the header built up in place is that of RFC 6455 section 5.2, in all three length forms |
| `WebSocket.MaskedFrameRecovered` | experiments/25-webtorrent-handshake.py:88-102 | unmasking the frame gives back the payload, for every key and length |
| `WebSocket.ClientFrameLayout` | experiments/25-webtorrent-handshake.py:88-102 | byte for byte: 129, the masked length in its form, the key, and the payload against the key |
| `WebSocket.XorIsBitwise` | experiments/25-webtorrent-handshake.py:93 | a bit of the exclusive or is set exactly when it is set in one of the two |
| `WebSocket.FrameIs` | experiments/25-webtorrent-handshake.py:105-127 | every reading in the bytes of the stream: where the payload starts, how long it is, and when it is none |
| `WebSocket.ReadFrame` | experiments/25-webtorrent-handshake.py:115-127 | what is read depends on the bytes of the stream and not on how they are chunked, and the stream is left at the end of the frame |
| `WebSocket.ServerFrameRead` | experiments/25-webtorrent-handshake.py:115-127 | an unmasked frame within the cap is read as its payload; over the cap its length is reported |
| `WebSocket.CutFrameIsClosed` | experiments/25-webtorrent-handshake.py:105-127 | a frame cut anywhere is no frame |
| `WebSocket.MaskedFrameStaysMasked` | experiments/25-webtorrent-handshake.py:123-124 | a masked server frame is not rejected: its payload is returned still masked, right exactly when the key masks nothing |
| `Sweeps.IdentityNamesSweep` | scripts/update-state.py:56-77 | an identity means one clock, mode, target, slice and record count exactly when no bar stands in the first three, and none in the slice before the word `slice` |
| `Sweeps.IdentitySpelled` | scripts/update-state.py:72-77 | the identity spelled out |
| `Sweeps.StateFile.Update` | scripts/update-state.py:124-159 | the fold loop leaves the state file, the exit code and the log of the specification |
| `Sweeps.DryRunWritesNothing` | scripts/update-state.py:150-159 | a dry run leaves the file alone and exits as the real one would |
| `SweepRuns.HistoryIsFold` | scripts/update-state.py:127-148 | the history is what folding exactly the new, non-empty sweeps makes of the old one, in path order |
| `SweepRuns.UnreadableWritesNothing` | scripts/update-state.py:127-133 | exit 2 exactly when some sweep cannot be read, and then nothing is folded or written |
| `SweepRuns.OncePerInvocation` | scripts/update-state.py:134-147 | one invocation folds no identity twice exactly when no two arguments name one new sweep |
| `SweepRuns.CopyFoldedTwice` | scripts/update-state.py:56-77 | the same sweep under two names in one invocation is folded twice |
| `SweepRuns.ArgumentOrderIrrelevant` | scripts/update-state.py:127 | the order of the arguments never matters |
| `SweepRuns.RemembersGreatest` | src/trackers/state.py:345-352 | after any sequence of invocations the file remembers the 64 greatest of all identities applied so far |
| `SweepRuns.FoldedAtMostOnce` | scripts/update-state.py:124-159 | over any sequence of invocations every identity is folded at most once exactly when none lists one new sweep twice and none lists a folded sweep with 64 or more greater identities applied so far |
| `SweepRuns.OnlyForgettingFoldsTwice` | scripts/update-state.py:124-159 | with distinct identities in each invocation, the second is the only way to fold twice |
| `SweepRuns.RerunChangesNothing` | scripts/update-state.py:124-159 | running the same arguments again folds nothing exactly when every non-empty sweep listed has fewer than 64 greater identities applied; then it exits 0 and leaves the file as it is |
| `SweepRuns.KeptExactly` | src/trackers/state.py:352 | an identity is remembered exactly when it was applied and fewer than 64 of those applied are greater |
| `SweepRuns.KeptOfKept` | src/trackers/state.py:345-352 | forgetting early forgets nothing more: cutting the list before adding to it leaves the same 64 |
| `SweepRuns.ForgottenFoldsAgain` | src/trackers/state.py:345-352 | a sweep listed again is folded again exactly when 64 or more greater identities were applied by the end of the first run |
| `SweepRuns.SixtyFifthFoldedTwice` | src/trackers/state.py:345-352 | from an empty file: after 64 sweeps are folded an earlier one is folded by a command, and again by the same command |
| `Dedup.Deduplicate` | src/trackers/dedup.py:79-130 | the two loops, with their dictionaries, compute the specified result |
| `Dedup.GroupByHost` | src/trackers/dedup.py:106-109 | the grouping holds every host and, in order, every tracker of it |
| `Dedup.KeepsEveryUrl` | src/trackers/dedup.py:79-130 | exactly the input's URLs are kept, once each, in order, each by the least of its copies; kept and removed add up to the input; one record for each kept endpoint that is not its host's least |
| `Dedup.SiblingsOfHost` | src/trackers/dedup.py:111-130 | a host with m endpoints gets m - 1 records that act on nothing, name its least endpoint, and name each of the others once |
| `Dedup.SiblingTotal` | src/trackers/dedup.py:111-130 | the sibling records are exactly those of the hosts, one for every endpoint beyond each host's first |
| `Dedup.InputOrderIrrelevant` | src/trackers/dedup.py:79-130 | permuting the input changes neither URLs nor decisions when equal sort keys mean equal URLs |
| `Slots.SlotsBetween` | experiments/37-schedule-delay.py:118-129 | exactly the scheduled slots of the interval, each once, oldest first |
| `Slots.SlotIs` | experiments/37-schedule-delay.py:118-129 | a slot is a scheduled hour of some day |
| `Slots.SlotOf` | experiments/37-schedule-delay.py:168-177 | of all slots there have ever been, the last one not after the firing: looking back two days is enough, and the delay is under one |
| `Bep15.BuildScrapeRequest` | src/trackers/bep15.py:141-160 | an empty list or a hash of the wrong length is refused; otherwise the bytes of the specification |
| `Bep15.ConnectRequestLayout` | src/trackers/bep15.py:91-93 | the protocol id, the action and the transaction of a connect request stand where BEP 15 puts them |
| `Bep15.ScrapeRequestLayout` | src/trackers/bep15.py:141-160 | every field of a scrape request stands where BEP 15 puts it |
| `Bep15.ParseScrapeResponse` | src/trackers/bep15.py:163-191 | the loop over the rows computes the specified result, error for error |
| `Bep15.ConnectRoundTrip` | src/trackers/bep15.py:96-127 | a connection id is given to the transaction that asked and to no other |
| `Bep15.ConnectIs` | src/trackers/bep15.py:96-127 | every reading of a connect answer, in its fields |
| `Bep15.ScrapeRoundTrip` | src/trackers/bep15.py:163-191 | an answer of any number of rows is read row for row, and a missing row is never filled in |
| `Bep15.ScrapeIs` | src/trackers/bep15.py:163-191 | every reading of a scrape answer, in its fields |
| `Order.SortOrderIndependent` | src/trackers/dedup.py:86 | Python's stable sort: the input order shows only where keys tie |
| `Text.SplitJoin` | scripts/update-state.py:72-77 | splitting on a separator undoes joining when no part holds it |
| `Text.LowerIs` | src/trackers/bep34.py:429 | `lower` of ASCII letters |
| `Bytes.UnpackPack` | src/trackers/bep15.py:91-93 | a packed big-endian field unpacks to its value |
| `Bytes.FirstByteHighest` | src/trackers/bep15.py:91-93 | most significant byte first |
| `Text.FirstDigitHighest` | src/trackers/bep34.py:340 | decimal numerals |

## Left out

- Sockets, HTTP, TLS, the WebSocket upgrade, `gh`, `git`, threads, timeouts and argument parsing: replaced by the parameters above.
- `Resolver.addresses`, `usable_addresses` and `classify_resolution` of `src/trackers/bep34.py`: a second cache of the same shape and branching over its result.
- DnsMessage.ParseResponse: gives an address value as its packed bytes; its spelling by `ipaddress` is not part of this model.
- IDNA encoding of host names, Python's recursion limit and its limit on the digits of an integer.
- The wording of details, reasons and log lines, and the counts and digests that only feed them. `byte_count` and `content_sha256` do change through a newline translation; nothing else of a fetch result does.
- The blacklist parser that reads raw bodies, and `read_cached`, the offline path of `load_corpus`.
- Rendering and parsing of JSON and CSV: which URLs are found in a text, or that it does not parse, is given by two arbitrary functions in `Publish.Rules`.
- `metadata.json` is one more staged file; that its digests are those of the other files is not modelled.
- Parsing of ISO 8601 instants: `Channels` starts from a valid UTC date and time, and years are written without padding.
- Floating-point rounding: `ValueGate` and `Binomial` are in exact reals, with the square root as a non-negative root of its radicand.
- `disagreements`, `load_records` and `best_evidence` of `experiments/27-value-gate.py`; the pooled half of `aggregate_series` and its strata in `experiments/26-user-agent-block-rate.py`.
- `note_shared_addresses` of `src/trackers/dedup.py`, which removes nothing.
- `variants`, `as_a_consumer_would` and the client adapters of `experiments/23-client-list-compatibility.py`.
- The condition builders of `src/trackers/issues.py` (which keys exist) and the 200-issue cap of the listing.
- The contents of the history in `Sweeps`: `apply_sweep` is a parameter, so what folding a sweep twice does to a tracker is not modelled.
- The intervals, failure texts and trailing byte counts that `classify_body` reports beside the kind.
- A state file that is corrupt or unreadable: `Sweeps` starts once it has been read.
