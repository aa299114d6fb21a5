/**
 * Publishing a dataset (`scripts/generate.py`): the checks on the staged text, then stage every
 * file and rename twice. Each primitive change to the disk is a step, and a run may be stopped
 * after any of them; the next run starts from whatever disk that left.
 */
module Publish {
  import opened Collections
  import opened Text
  import opened Lines

  type Content = string
  type Dir = map<string, Content>

  /** The three sibling directories. */
  datatype Disk = Disk(out: Option<Dir>, previous: Option<Dir>, staging: Option<Dir>)

  /** Where `main` is in its publishing sequence. */
  datatype Phase = ClearStaging | Write(done: nat) | ClearPrevious | MoveOut | MoveStaging | Done

  datatype State = State(disk: Disk, phase: Phase)

  /** A file to stage: its name and everything it should hold. */
  datatype File = File(name: string, content: Content)

  /** The directory that holds exactly these files. */
  function Dataset(files: seq<File>): Dir {
    if files == [] then map[]
    else Dataset(files[..|files| - 1])[files[|files| - 1].name := files[|files| - 1].content]
  }

  function Names(files: seq<File>): set<string> { set f | f in files :: f.name }

  lemma {:induction false} DatasetNames(files: seq<File>)
    ensures Dataset(files).Keys == Names(files)
  {
    if files != [] {
      var n := |files| - 1;
      assert files == files[..n] + [files[n]];
      DatasetNames(files[..n]);
    }
  }

  /** The directory holds the files' names and no others, each with what was last written to it. */
  lemma {:induction false} DatasetHolds(files: seq<File>, i: nat)
    requires i < |files| && forall j :: i < j < |files| ==> files[i].name != files[j].name
    ensures Dataset(files).Keys == Names(files)
    ensures files[i].name in Dataset(files) && Dataset(files)[files[i].name] == files[i].content
  {
    DatasetNames(files);
    var n := |files| - 1;
    if i < n {
      DatasetHolds(files[..n], i);
    }
  }

  // ---- the steps -----------------------------------------------------------------------

  /** One system call of `shutil.rmtree`: a file goes, in no particular order, or the empty directory. */
  ghost predicate Shrinks(before: Dir, after: Option<Dir>) {
    if before == map[] then after == None
    else exists name :: name in before && after == Some(before - {name})
  }

  /** A staged file holds `part` of what it should. */
  ghost predicate Puts(before: Disk, file: File, part: Content, after: Disk) {
    && before.staging.Some? && part <= file.content
    && after == before.(staging := Some(before.staging.value[file.name := part]))
  }

  /** What follows staging: an existing `out` has to be moved away first. */
  function AfterWriting(d: Disk): Phase {
    if d.out.None? then MoveStaging else if d.previous.Some? then ClearPrevious else MoveOut
  }

  /** One primitive change made while publishing `files`. */
  ghost predicate Step(files: seq<File>, s: State, t: State) {
    var d := s.disk;
    match s.phase
    case ClearStaging =>
      if d.staging.None? then t == State(d.(staging := Some(map[])), Write(0))
      else Shrinks(d.staging.value, t.disk.staging)
           && t == State(d.(staging := t.disk.staging), ClearStaging)
    case Write(done) =>
      if done >= |files| then t == State(d, AfterWriting(d))
      else
        && (exists part: Content :: Puts(d, files[done], part, t.disk))
        && (t.phase == Write(done) || (t.phase == Write(done + 1) && Puts(d, files[done], files[done].content, t.disk)))
    case ClearPrevious =>
      && d.previous.Some? && Shrinks(d.previous.value, t.disk.previous)
      && t == State(d.(previous := t.disk.previous),
                    if t.disk.previous.Some? then ClearPrevious else MoveOut)
    case MoveOut => t == State(d.(out := None, previous := d.out), MoveStaging)
    case MoveStaging => t == State(d.(out := d.staging, staging := None), Done)
    case Done => false
  }

  /** A run from `start`, stopped wherever its trace ends. */
  ghost predicate IsTrace(files: seq<File>, start: Disk, trace: seq<State>) {
    && trace != [] && trace[0] == State(start, ClearStaging)
    && forall i :: 0 <= i < |trace| - 1 ==> Step(files, trace[i], trace[i + 1])
  }

  // ---- what a stopped run can leave ---------------------------------------------------

  /** Where the previous dataset goes: aside if there is one, else what was aside stays. */
  function SetAside(start: Disk): Option<Dir> {
    if start.out.Some? then start.out else start.previous
  }

  /** The file being written may hold anything; the ones before it are whole. */
  ghost predicate Staged(files: seq<File>, done: nat, staging: Option<Dir>) {
    && done <= |files| && staging.Some?
    && (done == |files| ==> staging.value == Dataset(files))
    && (done < |files| ==>
          staging.value - {files[done].name} == Dataset(files[..done]) - {files[done].name})
  }

  /** Everything a run can have done by each point. */
  ghost predicate Reached(files: seq<File>, start: Disk, s: State) {
    var d := s.disk;
    match s.phase
    case ClearStaging => d == start.(staging := d.staging)
    case Write(done) => d == start.(staging := d.staging) && Staged(files, done, d.staging)
    case ClearPrevious =>
      && start.out.Some? && d.previous.Some?
      && d == Disk(start.out, d.previous, Some(Dataset(files)))
    case MoveOut => start.out.Some? && d == Disk(start.out, None, Some(Dataset(files)))
    case MoveStaging => d == Disk(None, SetAside(start), Some(Dataset(files)))
    case Done => d == Disk(Some(Dataset(files)), SetAside(start), None)
  }

  lemma {:induction false} DatasetNext(files: seq<File>, done: nat)
    requires done < |files|
    ensures Dataset(files[..done + 1]) == Dataset(files[..done])[files[done].name := files[done].content]
  {
    assert files[..done + 1][..done] == files[..done];
  }

  /** Filling in the file being written finishes it, whatever it held before. */
  lemma {:induction false} FileWritten(files: seq<File>, done: nat, dir: Dir)
    requires done < |files| && Staged(files, done, Some(dir))
    ensures Staged(files, done + 1, Some(dir[files[done].name := files[done].content]))
  {
    var name := files[done].name;
    var next := dir[name := files[done].content];
    DatasetNext(files, done);
    var want := Dataset(files[..done + 1]);
    assert next == want by {
      forall k ensures k in next <==> k in want
        ensures k in next ==> next[k] == want[k]
      {
        assert k != name ==> (k in dir <==> k in dir - {name});
        assert k != name ==> (k in want <==> k in Dataset(files[..done]) - {name});
        if k != name && k in dir {
          assert (dir - {name})[k] == (Dataset(files[..done]) - {name})[k];
        }
      }
    }
    assert files[..|files|] == files;
  }

  lemma {:induction false} StepReaches(files: seq<File>, start: Disk, s: State, t: State)
    requires Reached(files, start, s) && Step(files, s, t)
    ensures Reached(files, start, t)
  {
    match s.phase
    case ClearStaging =>
      assert files[..0] == [];
    case Write(done) =>
      if done < |files| {
        var part: Content :| Puts(s.disk, files[done], part, t.disk);
        var name := files[done].name;
        var dir := s.disk.staging.value;
        assert dir[name := part] - {name} == dir - {name};
        FileWritten(files, done, dir);
      }
    case _ =>
  }

  /** Wherever a run is stopped, the disk is one of the six shapes. */
  lemma {:induction false} StoppedAnywhere(files: seq<File>, start: Disk, trace: seq<State>, i: nat)
    requires IsTrace(files, start, trace) && i < |trace|
    ensures Reached(files, start, trace[i])
  {
    if i > 0 {
      StoppedAnywhere(files, start, trace, i - 1);
      StepReaches(files, start, trace[i - 1], trace[i]);
    }
  }

  // ---- what has to hold before anything is staged ------------------------------------------

  datatype Problem =
    | Empty | LineCount | NotAUrl(line: string) | RepeatedLine | Blacklisted(urls: set<string>)
    | Credentials(count: nat) | JsonUnreadable | JsonDisagrees | JsonRepeats | CsvDisagrees | NoSource

  /** `aggregate`'s result as far as `verify` looks, and the renderings it is given. */
  datatype Output = Output(
    urls: seq<string>, sourcesOk: nat, plaintext: string, json: Option<string>, csv: Option<string>)

  /** What a line may not be, and how the URLs are found in JSON (if it parses) and in CSV. */
  datatype Rules = Rules(
    blacklist: set<string>, credential: string -> bool,
    readJson: string -> Option<seq<string>>, readCsv: string -> seq<string>)

  /** `needle in s`, for the three characters before an authority. */
  predicate HasScheme(s: string) {
    |s| >= 3 && (s[..3] == "://" || HasScheme(s[1..]))
  }

  predicate LooksLikeUrl(line: string) {
    line != "" && line[0] != '#' && ' ' !in line && HasScheme(line)
  }

  predicate SchemeAt(s: string, i: nat) {
    i + 3 <= |s| && s[i] == ':' && s[i + 1] == '/' && s[i + 2] == '/'
  }

  /** A line passes for a URL: not empty, no comment, no blank, and `://` somewhere. */
  lemma {:induction false} UrlIs(line: string)
    ensures LooksLikeUrl(line) <==>
              && |line| > 0 && line[0] != '#' && (forall i :: 0 <= i < |line| ==> line[i] != ' ')
              && exists i: nat :: SchemeAt(line, i)
  {
    SchemeIs(line);
    hide HasScheme, SchemeAt;
    assert ' ' in line <==> exists i :: 0 <= i < |line| && line[i] == ' ';
  }

  lemma {:induction false} SchemeIs(s: string)
    ensures HasScheme(s) <==> exists i: nat :: SchemeAt(s, i)
  {
    if |s| >= 3 {
      var rest := s[1..];
      SchemeIs(rest);
      assert s[..3] == [s[0], s[1], s[2]];
      assert s[..3] == "://" <==> SchemeAt(s, 0);
      assert forall i: nat :: SchemeAt(rest, i) <==> SchemeAt(s, i + 1);
      if i: nat :| SchemeAt(s, i) && i > 0 {
        var j: nat := i - 1;
        assert SchemeAt(s, j + 1) && SchemeAt(rest, j);
      }
    }
  }

  /** What `verify` finds nothing wrong with. */
  ghost predicate Publishable(o: Output, rules: Rules) {
    var lines := SplitLines(o.plaintext);
    && o.urls != [] && o.sourcesOk > 0
    && |lines| == |o.urls| && NoRepeats(lines)
    && (forall l :: l in lines ==> LooksLikeUrl(l) && l !in rules.blacklist && !rules.credential(l))
    && (o.json.Some? ==> JsonAgrees(rules.readJson(o.json.value), Elements(o.urls)))
    && (o.csv.Some? ==> Elements(rules.readCsv(o.csv.value)) == Elements(o.urls))
  }

  /** The rows of the JSON name each URL once. */
  ghost predicate JsonAgrees(rows: Option<seq<string>>, urls: set<string>) {
    rows.Some? && NoRepeats(rows.value) && Elements(rows.value) == urls
  }

  /** `verify`: every check, in order. */
  method Verify(o: Output, rules: Rules) returns (problems: seq<Problem>)
    ensures problems == [] <==> Publishable(o, rules)
  {
    problems := [];
    if o.urls == [] {
      problems := problems + [Empty];
    }
    var lines := SplitLines(o.plaintext);
    if |lines| != |o.urls| {
      problems := problems + [LineCount];
    }
    ghost var first := problems;
    for i := 0 to |lines|
      invariant problems == first && forall j :: 0 <= j < i ==> LooksLikeUrl(lines[j])
    {
      if !LooksLikeUrl(lines[i]) {
        problems := problems + [NotAUrl(lines[i])];
        break;
      }
    }
    if |Elements(lines)| != |lines| {
      problems := problems + [RepeatedLine];
    }
    var leaked := Elements(lines) * rules.blacklist;
    assert leaked == {} <==> forall l :: l in lines ==> l !in rules.blacklist by {
      assert forall l :: l in leaked <==> l in lines && l in rules.blacklist;
    }
    if leaked != {} {
      problems := problems + [Blacklisted(leaked)];
    }
    var creds := 0;
    for i := 0 to |lines|
      invariant creds == 0 <==> forall j :: 0 <= j < i ==> !rules.credential(lines[j])
    {
      if rules.credential(lines[i]) {
        creds := creds + 1;
      }
    }
    if creds > 0 {
      problems := problems + [Credentials(creds)];
    }
    var expected := Elements(o.urls);
    if o.json.Some? {
      var parsed := rules.readJson(o.json.value);
      if parsed.None? {
        problems := problems + [JsonUnreadable];
      } else {
        var rows := parsed.value;
        if Elements(rows) != expected {
          problems := problems + [JsonDisagrees];
        }
        ElementsCount(rows);
        if |rows| != |Elements(rows)| {
          problems := problems + [JsonRepeats];
        }
      }
    }
    if o.csv.Some? && Elements(rules.readCsv(o.csv.value)) != expected {
      problems := problems + [CsvDisagrees];
    }
    if o.sourcesOk == 0 {
      problems := problems + [NoSource];
    }
    ElementsCount(lines);
  }

  /**
   * `verify` compares the plaintext with the dataset by number only, so it can publish other
   * URLs than the dataset's; it publishes the same ones exactly when each line is one of them.
   */
  lemma {:induction false} PlaintextAgrees(o: Output, rules: Rules)
    requires Publishable(o, rules) && NoRepeats(o.urls)
    ensures Elements(SplitLines(o.plaintext)) == Elements(o.urls)
       <==> forall l :: l in SplitLines(o.plaintext) ==> l in o.urls
  {
    var lines := SplitLines(o.plaintext);
    ElementsCount(lines);
    ElementsCount(o.urls);
    if forall l :: l in lines ==> l in o.urls {
      SubsetSize(Elements(lines), Elements(o.urls));
    } else {
      var l :| l in lines && l !in o.urls;
      assert l in Elements(lines) && l !in Elements(o.urls);
    }
  }

  /** A dataset of one URL, right in JSON and in CSV, published as another in plaintext. */
  lemma {:induction false} PlaintextMayDisagree()
    ensures exists o: Output, rules: Rules ::
              Publishable(o, rules) && o.json.Some? && o.csv.Some? && SplitLines(o.plaintext)[0] !in o.urls
  {
    hide HasScheme, Render, SplitLines;
    var url := "c://d";
    var urls := ["a://b"];
    var o := Output(urls, 1, Render([url]), Some(""), Some(""));
    var rules := Rules({}, (s: string) => false, (s: string) => Some(urls), (s: string) => urls);
    SchemeBehind('c', "://d");
    assert url == ['c'] + "://d";
    SplitRender([url]);
    assert Publishable(o, rules);
  }

  lemma {:induction false} SchemeBehind(c: char, rest: string)
    requires "://" <= rest
    ensures HasScheme([c] + rest)
  {
    assert ([c] + rest)[1..] == rest;
  }

  /**
   * Rendered one URL a line, and as JSON and CSV that name the same URLs, a clean dataset passes,
   * and what is read back is the dataset.
   */
  lemma {:induction false} RenderedPasses(urls: seq<string>, sourcesOk: nat, json: string, csv: string, rules: Rules)
    requires forall u :: u in urls ==> BreakFree(u)
    requires rules.readJson(json) == Some(urls) && rules.readCsv(csv) == urls
    ensures SplitLines(Render(urls)) == urls
    ensures Publishable(Output(urls, sourcesOk, Render(urls), Some(json), Some(csv)), rules)
       <==> urls != [] && sourcesOk > 0 && NoRepeats(urls)
            && forall u :: u in urls ==> LooksLikeUrl(u) && u !in rules.blacklist && !rules.credential(u)
  {
    SplitRender(urls);
  }

  // ---- what a run renders, verifies and stages ---------------------------------------

  const PLAINTEXT := "trackers_all.txt"
  const JSON := "trackers_all.json"
  const CSV := "trackers_all.csv"

  /** Every text of a run, and the corpus they were rendered from. */
  datatype Rendering = Rendering(
    urls: seq<string>, sourcesOk: nat, plaintext: string, json: string, csv: string, report: string,
    anime: string, common: string, foss: string, hardcoded: string, stable: string, metadata: string)

  /** What `main` gives to `verify`. */
  function ToVerify(r: Rendering): Output {
    Output(r.urls, r.sourcesOk, r.plaintext, Some(r.json), Some(r.csv))
  }

  /** What `main` stages, in order: the verified texts, the report, the categories, the description. */
  function Files(r: Rendering): seq<File> {
    [File(PLAINTEXT, r.plaintext), File(JSON, r.json), File(CSV, r.csv), File("report.md", r.report),
     File("anime.txt", r.anime), File("common.txt", r.common), File("foss.txt", r.foss),
     File("hardcoded.txt", r.hardcoded), File("stable.txt", r.stable), File("metadata.json", r.metadata)]
  }

  /** What a reader of a directory finds in it. */
  ghost predicate Holds(dir: Dir, o: Output) {
    && PLAINTEXT in dir && JSON in dir && CSV in dir
    && o.plaintext == dir[PLAINTEXT] && o.json == Some(dir[JSON]) && o.csv == Some(dir[CSV])
  }

  lemma {:induction false} NamesDiffer(r: Rendering)
    ensures var files := Files(r);
            && |files| == 10 && files[0] == File(PLAINTEXT, r.plaintext) && files[1] == File(JSON, r.json)
            && files[2] == File(CSV, r.csv)
            && forall i, j :: 0 <= i < 3 && i < j < 10 ==> files[i].name != files[j].name
  {
    var files := Files(r);
    assert |PLAINTEXT| == |CSV| == 16 && |JSON| == 17 && PLAINTEXT[13] != CSV[13];
    assert forall j :: 2 < j < 10 ==> |files[j].name| < 16;
  }

  lemma {:induction false} FileHeld(r: Rendering, i: nat)
    requires i < 10
    ensures |Files(r)| == 10
    ensures var d := Dataset(Files(r)); Files(r)[i].name in d && d[Files(r)[i].name] == Files(r)[i].content
  {
    hide Dataset, Files;
    AllNamesDiffer(r);
    DatasetHolds(Files(r), i);
  }

  /** The ten files of a published directory, by name. */
  lemma {:induction false} PublishedFiles(r: Rendering, d: Dir)
    requires d == Dataset(Files(r))
    ensures "trackers_all.txt" in d && d["trackers_all.txt"] == r.plaintext
    ensures "trackers_all.json" in d && d["trackers_all.json"] == r.json
    ensures "trackers_all.csv" in d && d["trackers_all.csv"] == r.csv
    ensures "report.md" in d && d["report.md"] == r.report
    ensures "anime.txt" in d && d["anime.txt"] == r.anime
    ensures "common.txt" in d && d["common.txt"] == r.common
    ensures "foss.txt" in d && d["foss.txt"] == r.foss
    ensures "hardcoded.txt" in d && d["hardcoded.txt"] == r.hardcoded
    ensures "stable.txt" in d && d["stable.txt"] == r.stable
    ensures "metadata.json" in d && d["metadata.json"] == r.metadata
  {
    hide Dataset;
    FileHeld(r, 0);
    FileHeld(r, 1);
    FileHeld(r, 2);
    FileHeld(r, 3);
    FileHeld(r, 4);
    FileHeld(r, 5);
    FileHeld(r, 6);
    FileHeld(r, 7);
    FileHeld(r, 8);
    FileHeld(r, 9);
  }

  /** And no others. */
  lemma {:induction false} TenFiles(r: Rendering)
    ensures |Dataset(Files(r)).Keys| == 10
  {
    hide Dataset, Files;
    AllNamesDiffer(r);
    DatasetNames(Files(r));
    var names := seq(10, i requires 0 <= i < 10 => Files(r)[i].name);
    ElementsCount(names);
    assert Names(Files(r)) == Elements(names) by {
      forall f | f in Files(r) ensures f.name in names {
        var i :| 0 <= i < 10 && Files(r)[i] == f;
        assert names[i] == f.name;
      }
      forall n | n in names ensures n in Names(Files(r)) {
        var i :| 0 <= i < 10 && names[i] == n;
        assert Files(r)[i] in Files(r);
      }
    }
  }

  lemma {:induction false} AllNamesDiffer(r: Rendering)
    ensures var files := Files(r);
            |files| == 10 && forall i, j :: 0 <= i < j < 10 ==> files[i].name != files[j].name
  {
    NamesDiffer(r);
    var files := Files(r);
    assert files[3].name[0] == 'r' && files[4].name[0] == 'a' && files[5].name[0] == 'c';
    assert files[6].name[0] == 'f' && files[7].name[0] == 'h' && files[8].name[0] == 's' && files[9].name[0] == 'm';
  }

  /** The three files of a dataset are the texts that were verified. */
  lemma {:induction false} StagedAsVerified(r: Rendering)
    ensures Holds(Dataset(Files(r)), ToVerify(r))
  {
    hide Dataset, Files;
    var files := Files(r);
    NamesDiffer(r);
    DatasetHolds(files, 0);
    DatasetHolds(files, 1);
    DatasetHolds(files, 2);
  }

  // ---- whole histories --------------------------------------------------------------

  /** One invocation: what it rendered, the rules it verified by, how far it got. */
  datatype Run = Run(rendering: Rendering, rules: Rules, trace: seq<State>)

  ghost predicate Accepted(run: Run) { Publishable(ToVerify(run.rendering), run.rules) }

  /** The directory a run publishes. */
  function Whole(run: Run): Dir { Dataset(Files(run.rendering)) }

  /** A run that verification refuses changes nothing. */
  ghost predicate IsRun(start: Disk, run: Run) {
    IsTrace(Files(run.rendering), start, run.trace) && (!Accepted(run) ==> |run.trace| == 1)
  }

  function DiskAfter(start: Disk, runs: seq<Run>): Disk
    requires forall r :: r in runs ==> r.trace != []
  {
    if runs == [] then start else runs[|runs| - 1].trace[|runs[|runs| - 1].trace| - 1].disk
  }

  /** Each run starts from the disk the one before it left. */
  ghost predicate IsHistory(start: Disk, runs: seq<Run>) {
    && (forall r :: r in runs ==> r.trace != [])
    && (forall k :: 0 <= k < |runs| ==> IsRun(DiskAfter(start, runs[..k]), runs[k]))
  }

  /** Every dataset that verification let through. */
  ghost function Verified(kept: set<Dir>, runs: seq<Run>): set<Dir> {
    kept + set i | 0 <= i < |runs| && Accepted(runs[i]) :: Whole(runs[i])
  }

  predicate Completed(run: Run) {
    run.trace != [] && run.trace[|run.trace| - 1].phase == Done
  }

  predicate Complete(dir: Option<Dir>, good: set<Dir>) {
    dir.Some? && dir.value in good
  }

  /** What a reader of the two directories can rely on. */
  predicate Safe(d: Disk, good: set<Dir>, published: bool) {
    && (d.out.Some? ==> d.out.value in good)
    && (published ==> Complete(d.out, good) || Complete(d.previous, good))
  }

  lemma {:induction false} StoppedSafely(files: seq<File>, start: Disk, s: State, good: set<Dir>, published: bool)
    requires Reached(files, start, s) && Safe(start, good, published)
    ensures Safe(s.disk, good + {Dataset(files)}, published || s.phase == Done)
  {
  }

  lemma {:induction false} RunSafe(start: Disk, run: Run, good: set<Dir>, published: bool, i: nat)
    requires IsRun(start, run) && Safe(start, good, published) && i < |run.trace|
    ensures Safe(run.trace[i].disk, good + if Accepted(run) then {Whole(run)} else {},
                 published || run.trace[i].phase == Done)
  {
    StoppedAnywhere(Files(run.rendering), start, run.trace, i);
    StoppedSafely(Files(run.rendering), start, run.trace[i], good, published);
  }

  lemma {:induction false} VerifiedNext(kept: set<Dir>, runs: seq<Run>, k: nat)
    requires k < |runs|
    ensures Verified(kept, runs[..k + 1])
         == Verified(kept, runs[..k]) + if Accepted(runs[k]) then {Whole(runs[k])} else {}
  {
    hide Whole, Accepted;
    assert runs[..k + 1] == runs[..k] + [runs[k]];
  }

  lemma {:induction false} HistoryStep(start: Disk, runs: seq<Run>, k: nat)
    requires IsHistory(start, runs) && k < |runs|
    ensures forall r :: r in runs[..k] ==> r.trace != []
    ensures IsRun(DiskAfter(start, runs[..k]), runs[k])
    ensures runs[k].trace != []
    ensures DiskAfter(start, runs[..k]) == if k == 0 then start else runs[k - 1].trace[|runs[k - 1].trace| - 1].disk
  {
    hide IsRun;
    assert k > 0 ==> runs[..k][k - 1] == runs[k - 1];
    assert runs[k] in runs;
  }

  lemma {:induction false} AlwaysVerified(start: Disk, runs: seq<Run>, kept: set<Dir>, published: bool, k: nat, i: nat)
    requires IsHistory(start, runs) && Safe(start, kept, published)
    requires k < |runs| && i < |runs[k].trace|
    ensures Safe(runs[k].trace[i].disk, Verified(kept, runs[..k + 1]),
                 published || runs[k].trace[i].phase == Done || exists j :: 0 <= j < k && Completed(runs[j]))
  {
    hide IsRun, IsHistory, Safe, Verified, DiskAfter;
    HistoryStep(start, runs, k);
    var from := DiskAfter(start, runs[..k]);
    var good := Verified(kept, runs[..k]);
    var before := published || exists j :: 0 <= j < k && Completed(runs[j]);
    assert Safe(from, good, before) by {
      if k > 0 {
        HistoryStep(start, runs, k - 1);
        AlwaysVerified(start, runs, kept, published, k - 1, |runs[k - 1].trace| - 1);
      } else {
        assert good == kept by { assert runs[..0] == []; NothingVerified(kept); }
      }
    }
    RunSafe(from, runs[k], good, before, i);
    VerifiedNext(kept, runs, k);
  }

  /** A dataset known from before, or one in which a reader finds what some run verified. */
  ghost predicate Sound(dir: Option<Dir>, kept: set<Dir>, runs: seq<Run>) {
    && dir.Some?
    && (dir.value in kept
        || exists j :: 0 <= j < |runs| && dir.value == Whole(runs[j]) && ReadsPublishable(dir.value, runs[j]))
  }

  /** The texts read back from the directory pass every check of the run. */
  ghost predicate ReadsPublishable(dir: Dir, run: Run) {
    exists o: Output ::
      && Holds(dir, o) && o.urls == run.rendering.urls && o.sourcesOk == run.rendering.sourcesOk
      && Publishable(o, run.rules)
  }

  /**
   * What a reader finds in such a directory: JSON and CSV with exactly the corpus's URLs, and as many
   * lines of text, all different, that pass for URLs and that nobody asked to be left out.
   */
  lemma {:induction false} ReaderFinds(dir: Dir, run: Run)
    requires ReadsPublishable(dir, run)
    ensures "trackers_all.txt" in dir && "trackers_all.json" in dir && "trackers_all.csv" in dir
    ensures run.rendering.sourcesOk > 0 && |run.rendering.urls| > 0
    ensures var rows := run.rules.readJson(dir["trackers_all.json"]);
            && rows.Some?
            && (forall u :: u in rows.value <==> u in run.rendering.urls)
            && forall i, j :: 0 <= i < j < |rows.value| ==> rows.value[i] != rows.value[j]
    ensures forall u :: u in run.rules.readCsv(dir["trackers_all.csv"]) <==> u in run.rendering.urls
    ensures var lines := SplitLines(dir["trackers_all.txt"]);
            && |lines| == |run.rendering.urls|
            && (forall i, j :: 0 <= i < j < |lines| ==> lines[i] != lines[j])
            && forall l :: l in lines ==>
                 LooksLikeUrl(l) && l !in run.rules.blacklist && !run.rules.credential(l)
  {
    hide SplitLines, LooksLikeUrl;
    var o: Output :| Holds(dir, o) && o.urls == run.rendering.urls && o.sourcesOk == run.rendering.sourcesOk
                     && Publishable(o, run.rules);
    var urls := Elements(o.urls);
    assert forall u :: u in urls <==> u in o.urls;
    var rows := run.rules.readJson(dir[JSON]).value;
    assert forall u :: u in Elements(rows) <==> u in rows;
    var cells := run.rules.readCsv(dir[CSV]);
    assert forall u :: u in Elements(cells) <==> u in cells;
  }

  lemma {:induction false} VerifiedIsSound(dir: Dir, kept: set<Dir>, runs: seq<Run>)
    requires dir in Verified(kept, runs)
    ensures Sound(Some(dir), kept, runs)
  {
    hide Whole, Publishable;
    if dir !in kept {
      var j :| 0 <= j < |runs| && Accepted(runs[j]) && dir == Whole(runs[j]);
      WholeReadsPublishable(runs[j]);
    }
  }

  lemma {:induction false} WholeReadsPublishable(run: Run)
    requires Accepted(run)
    ensures ReadsPublishable(Whole(run), run)
  {
    hide Publishable, Dataset, Files;
    StagedAsVerified(run.rendering);
  }

  /**
   * Over any sequence of runs, each stopped anywhere: at every moment `out` is absent or a whole
   * dataset whose texts read back pass the checks of the run that published it, and from the first
   * completed publication on, `out` or `previous` is one.
   */
  lemma {:induction false} AlwaysSafe(start: Disk, runs: seq<Run>, kept: set<Dir>, published: bool, k: nat, i: nat)
    requires IsHistory(start, runs) && Safe(start, kept, published)
    requires k < |runs| && i < |runs[k].trace|
    ensures
      var d := runs[k].trace[i].disk;
      && (d.out.Some? ==> Sound(d.out, kept, runs[..k + 1]))
      && (published || runs[k].trace[i].phase == Done || (exists j :: 0 <= j < k && Completed(runs[j]))
          ==> Sound(d.out, kept, runs[..k + 1]) || Sound(d.previous, kept, runs[..k + 1]))
  {
    hide IsHistory, Verified, Completed, Sound;
    AlwaysVerified(start, runs, kept, published, k, i);
    var d := runs[k].trace[i].disk;
    var good := Verified(kept, runs[..k + 1]);
    if Complete(d.out, good) {
      VerifiedIsSound(d.out.value, kept, runs[..k + 1]);
    }
    if Complete(d.previous, good) {
      VerifiedIsSound(d.previous.value, kept, runs[..k + 1]);
    }
  }

  lemma {:induction false} NothingVerified(kept: set<Dir>)
    ensures Verified(kept, []) == kept
  {
  }

  /** An uninterrupted run from whatever an earlier crash left: exactly this, and no other disk. */
  lemma {:induction false} CompletedRun(start: Disk, run: Run)
    requires IsRun(start, run) && Completed(run)
    ensures run.trace[|run.trace| - 1].disk == Disk(Some(Whole(run)), SetAside(start), None)
    ensures Accepted(run)
  {
    StoppedAnywhere(Files(run.rendering), start, run.trace, |run.trace| - 1);
  }

  // ---- the code that takes the steps ---------------------------------------------------

  class Directories {
    var out: Option<Dir>
    var previous: Option<Dir>
    var staging: Option<Dir>
    /** Every disk a crash could leave, in order. */
    ghost var trace: seq<State>

    ghost function Now(): Disk
      reads this
    {
      Disk(out, previous, staging)
    }

    /** The trace so far is a run of `files` from `start`, and `phase` comes next. */
    ghost predicate At(files: seq<File>, start: Disk, phase: Phase)
      reads this
    {
      IsTrace(files, start, trace) && trace[|trace| - 1] == State(Now(), phase)
    }

    ghost method Log(files: seq<File>, start: Disk, phase: Phase)
      requires IsTrace(files, start, trace)
      requires Step(files, trace[|trace| - 1], State(Now(), phase))
      modifies this`trace
      ensures At(files, start, phase)
    {
      trace := trace + [State(Now(), phase)];
    }

    /** `shutil.rmtree(staging)` when there is one, then `os.makedirs`. */
    method EmptyStaging(ghost files: seq<File>, ghost start: Disk)
      requires At(files, start, ClearStaging)
      modifies this`staging, this`trace
      ensures At(files, start, Write(0))
    {
      hide IsTrace;
      if staging.Some? {
        while staging.value != map[]
          invariant staging.Some? && At(files, start, ClearStaging)
          decreases |staging.value|
        {
          var name := SomeName(staging.value);
          staging := Some(staging.value - {name});
          Log(files, start, ClearStaging);
        }
        staging := None;
        Log(files, start, ClearStaging);
      }
      staging := Some(map[]);
      Log(files, start, Write(0));
    }

    /** Opening a file for writing empties it; the content follows. */
    method StageFiles(files: seq<File>, ghost start: Disk)
      requires At(files, start, Write(0)) && staging.Some?
      modifies this`staging, this`trace
      ensures At(files, start, Write(|files|))
    {
      hide IsTrace;
      for k := 0 to |files|
        invariant staging.Some? && At(files, start, Write(k))
      {
        var name := files[k].name;
        ghost var opened_ := Disk(out, previous, staging);
        staging := Some(staging.value[name := ""]);
        assert Puts(opened_, files[k], "", Now());
        Log(files, start, Write(k));
        ghost var written := Now();
        staging := Some(staging.value[name := files[k].content]);
        assert Puts(written, files[k], files[k].content, Now());
        Log(files, start, Write(k + 1));
      }
    }

    /** `shutil.rmtree(previous)`. */
    method RemovePrevious(ghost files: seq<File>, ghost start: Disk)
      requires At(files, start, ClearPrevious) && previous.Some?
      modifies this`previous, this`trace
      ensures At(files, start, MoveOut)
    {
      hide IsTrace, Step, Shrinks;
      while previous.value != map[]
        invariant previous.Some? && At(files, start, ClearPrevious)
        decreases |previous.value|
      {
        var name := SomeName(previous.value);
        OneFewer(files, Now(), Some(previous.value - {name}));
        previous := Some(previous.value - {name});
        Log(files, start, ClearPrevious);
      }
      OneFewer(files, Now(), None);
      previous := None;
      Log(files, start, MoveOut);
    }

    /** Stage, set the old dataset aside, move the new one in: a run nothing interrupts. */
    method Publish(files: seq<File>)
      modifies this
      ensures Now() == Disk(Some(Dataset(files)), SetAside(old(Now())), None)
      ensures At(files, old(Now()), Done)
    {
      ghost var start := Now();
      trace := [State(start, ClearStaging)];
      EmptyStaging(files, start);
      StoppedAnywhere(files, start, trace, |trace| - 1);
      StageFiles(files, start);
      Log(files, start, AfterWriting(Now()));
      if out.Some? {
        if previous.Some? {
          RemovePrevious(files, start);
        }
        StoppedAnywhere(files, start, trace, |trace| - 1);
        previous, out := out, None;
        Log(files, start, MoveStaging);
      }
      out, staging := staging, None;
      Log(files, start, Done);
      StoppedAnywhere(files, start, trace, |trace| - 1);
    }
  }

  lemma {:induction false} OneFewer(files: seq<File>, d: Disk, after: Option<Dir>)
    requires d.previous.Some?
    requires if d.previous.value == map[] then after == None else Shrinks(d.previous.value, after)
    ensures Step(files, State(d, ClearPrevious),
                 State(d.(previous := after), if after.Some? then ClearPrevious else MoveOut))
  {
  }

  method SomeName(dir: Dir) returns (name: string)
    requires dir != map[]
    ensures name in dir && |dir - {name}| < |dir|
    ensures Shrinks(dir, Some(dir - {name}))
  {
    assert exists n :: n in dir;
    name :| name in dir;
    assert dir.Keys == (dir - {name}).Keys + {name};
  }

  /** The end of `main`: nothing is staged unless `verify` found nothing wrong. */
  method VerifyAndPublish(r: Rendering, rules: Rules, checkOnly: bool, disk: Directories) returns (code: int)
    modifies disk
    ensures code == 1 <==> !Publishable(ToVerify(r), rules)
    ensures code == 0 || code == 1
    ensures code == 1 || checkOnly ==> disk.Now() == old(disk.Now())
    ensures code == 0 && !checkOnly ==>
              && disk.Now() == Disk(Some(Dataset(Files(r))), SetAside(old(disk.Now())), None)
              && Holds(disk.out.value, ToVerify(r))
    ensures IsRun(old(disk.Now()), Run(r, rules, disk.trace))
  {
    disk.trace := [State(disk.Now(), ClearStaging)];
    var problems := Verify(ToVerify(r), rules);
    if problems != [] {
      return 1;
    }
    if !checkOnly {
      disk.Publish(Files(r));
      StagedAsVerified(r);
    }
    return 0;
  }
}
