/**
 * The in-memory job registry of the web front end (app.py:138-381): `/start` validates the
 * uploads and registers a queued job, `_run_job` converts the files one after the other
 * while updating the job's record, `/progress` turns the record into events and
 * `/download` hands out the finished archive.
 */
module Jobs {
  import opened Wrappers
  import opened XmlTree
  import opened Table
  import opened Sheets
  import opened Naming

  /** One archive member: `{base}.xlsx` and the sheets of its workbook. */
  datatype ZipEntry = ZipEntry(name: string, sheets: seq<Sheet>)

  /** A job record: the keys `total`, `index`, `stage`, `file`, `done`, `error`, `zip_bytes`. */
  datatype Job = Job(total: nat, index: nat, stage: string, file: Option<string>, done: bool,
                     error: Option<string>, zip: Option<seq<ZipEntry>>)

  /** An uploaded file: its name and what parsing its bytes gives. */
  datatype Upload = Upload(filename: string, doc: Document)

  /** The `aliases` form field: empty, JSON text for an object of names, or text that is
      not JSON. */
  datatype AliasForm = Blank | Json(aliases: map<string, string>) | NotJson

  /** The record `/start` registers for `total` files. */
  function Queued(total: nat): Job {
    Job(total, 0, "queued", None, false, None, None)
  }

  // ----- /start -----

  /** The name of the first upload whose name does not end in `.xml` (any case). */
  function FirstBadName(files: seq<Upload>): Option<string>
    decreases |files|
  {
    if files == [] then None
    else
      var before := FirstBadName(files[..|files| - 1]);
      if before.Some? then before
      else if !IsXmlUpload(files[|files| - 1].filename) then Some(files[|files| - 1].filename)
      else None
  }

  /** What `/start` answers: the alias map the job will use, or the error detail. */
  function StartOutcome(files: seq<Upload>, form: AliasForm): Result<map<string, string>> {
    if files == [] then Err("No files uploaded")
    else if form.NotJson? then Err("Aliases must be valid JSON")
    else match FirstBadName(files)
      case Some(name) => Err("Only .xml files allowed: " + name)
      case None => Ok(if form.Blank? then map[] else form.aliases)
  }

  /** No name is rejected exactly when every name ends in `.xml`. */
  lemma {:induction false} FirstBadNameNone(files: seq<Upload>)
    ensures FirstBadName(files).None? <==> forall i :: 0 <= i < |files| ==> IsXmlUpload(files[i].filename)
    decreases |files|
  {
    if files != [] {
      var init := files[..|files| - 1];
      FirstBadNameNone(init);
      assert forall i :: 0 <= i < |init| ==> init[i] == files[i];
    }
  }

  /** A rejected name is that of the first upload not ending in `.xml`. */
  lemma {:induction false} FirstBadNameAt(files: seq<Upload>) returns (k: nat)
    requires FirstBadName(files).Some?
    ensures k < |files| && FirstBadName(files).value == files[k].filename
    ensures !IsXmlUpload(files[k].filename)
    ensures forall i :: 0 <= i < k ==> IsXmlUpload(files[i].filename)
    decreases |files|
  {
    var init := files[..|files| - 1];
    if FirstBadName(init).Some? {
      k := FirstBadNameAt(init);
      assert files[k] == init[k];
      assert forall i :: 0 <= i < k ==> init[i] == files[i];
    } else {
      k := |files| - 1;
      FirstBadNameNone(init);
      assert forall i :: 0 <= i < k ==> init[i] == files[i];
    }
  }

  /** Once a prefix holds a rejected name, the longer list rejects the same name. */
  lemma {:induction false} FirstBadNameExtends(files: seq<Upload>, n: nat)
    requires n <= |files| && FirstBadName(files[..n]).Some?
    ensures FirstBadName(files) == FirstBadName(files[..n])
    decreases |files| - n
  {
    if n < |files| {
      assert files[..n + 1][..n] == files[..n];
      FirstBadNameExtends(files, n + 1);
    } else {
      assert files[..n] == files;
    }
  }

  /** A job starts exactly when at least one file is given, the aliases are absent or JSON
      and every file name ends in `.xml`; the checks run in that order. */
  lemma StartSpec(files: seq<Upload>, form: AliasForm)
    ensures StartOutcome(files, form).Ok? <==>
      files != [] && !form.NotJson? && forall i :: 0 <= i < |files| ==> IsXmlUpload(files[i].filename)
    ensures files == [] ==> StartOutcome(files, form) == Err("No files uploaded")
    ensures files != [] && form.NotJson? ==> StartOutcome(files, form) == Err("Aliases must be valid JSON")
    ensures form.Blank? && StartOutcome(files, form).Ok? ==> StartOutcome(files, form).value == map[]
  {
    FirstBadNameNone(files);
  }

  // ----- converting one file -----

  /** The records a parsed table can be renamed into are still rectangular. */
  lemma FrameReady(doc: Document, aliases: map<string, string>)
    requires DataFrameOf(doc).Ok?
    ensures Rectangular(ApplyAliases(DataFrameOf(doc).value, aliases))
  {
    TableSpec(RecordsOf(Detect.RowsOf(doc.root)));
    AliasesSpec(DataFrameOf(doc).value, aliases);
  }

  /** The archive member for one upload: its table, renamed, split into sheets, named
      after the upload; or the parse error. */
  function Convert(u: Upload, aliases: map<string, string>): Result<ZipEntry> {
    match DataFrameOf(u.doc)
    case Err(msg) => Err(msg)
    case Ok(df) =>
      FrameReady(u.doc, aliases);
      match WorkbookOf(ApplyAliases(df, aliases))
      case Err(msg) => Err(msg)
      case Ok(sheets) => Ok(ZipEntry(EntryName(u.filename, ".xlsx"), sheets))
  }

  /**
   * One file of a job fails with its parse error, or with the size error when it has more
   * than 1048576 records; otherwise its member is `base.xlsx` holding the sheets of the
   * renamed table.
   */
  lemma ConvertSpec(u: Upload, aliases: map<string, string>)
    ensures u.doc.Malformed? ==> Convert(u, aliases) == Err(u.doc.message)
    ensures u.doc.Parsed? ==> (Convert(u, aliases).Ok? <==> |Detect.RowsOf(u.doc.root)| <= MaxRows)
    ensures u.doc.Parsed? && |Detect.RowsOf(u.doc.root)| > MaxRows ==>
      Convert(u, aliases) == Err(TooLarge(|Detect.RowsOf(u.doc.root)|, Min(|DataFrameOf(u.doc).value.columns|, MaxCols)))
    ensures Convert(u, aliases).Ok? ==>
      Convert(u, aliases).value == ZipEntry(Stem(u.filename) + ".xlsx", SheetsOf(ApplyAliases(DataFrameOf(u.doc).value, aliases)))
  {
    DataFrameRows(u.doc);
    if u.doc.Parsed? {
      FrameReady(u.doc, aliases);
      AliasesSpec(DataFrameOf(u.doc).value, aliases);
    }
  }

  /** The record while file `i` (0-based) is parsed: index `i + 1`, the file's name,
      stage `parsing`. */
  function Parsing(j: Job, i: nat, name: string): Job {
    j.(index := i + 1, file := Some(name), stage := "parsing")
  }

  /** The record once the file's conversion is over: `written`, or the error, `done`
      and stage `error`. */
  function After(p: Job, r: Result<ZipEntry>): Job {
    match r
    case Err(msg) => p.(error := Some(msg), done := true, stage := "error")
    case Ok(_) => p.(stage := "written")
  }

  /** The record after the last file: the archive, `done` and stage `complete`. */
  function Complete(j: Job, entries: seq<ZipEntry>): Job {
    j.(zip := Some(entries), done := true, stage := "complete")
  }

  /** What converting each upload gives, in upload order. */
  function Outcomes(blobs: seq<Upload>, aliases: map<string, string>): (outs: seq<Result<ZipEntry>>)
    ensures |outs| == |blobs|
    decreases |blobs|
  {
    if blobs == [] then []
    else Outcomes(blobs[..|blobs| - 1], aliases) + [Convert(blobs[|blobs| - 1], aliases)]
  }

  lemma {:induction false} OutcomesAt(blobs: seq<Upload>, aliases: map<string, string>, k: nat)
    requires k < |blobs|
    ensures Outcomes(blobs, aliases)[k] == Convert(blobs[k], aliases)
    decreases |blobs|
  {
    if k < |blobs| - 1 {
      OutcomesAt(blobs[..|blobs| - 1], aliases, k);
    }
  }

  /**
   * The records the worker writes for the files from `i` on, one after the other, given
   * record `j`, the conversion outcome `outs[k]` of each file `k` and the members `entries`
   * already written: for each file its index (1-based) and name with stage `parsing`, then
   * stage `written`; after the last file the archive with `done` and stage `complete`; at
   * a failing file the error with `done` and stage `error`, and nothing after it.
   */
  function Trace(j: Job, blobs: seq<Upload>, outs: seq<Result<ZipEntry>>, i: nat, entries: seq<ZipEntry>): (t: seq<Job>)
    requires |outs| == |blobs| && i <= |blobs|
    ensures t != []
    decreases |blobs| - i
  {
    if i == |blobs| then [Complete(j, entries)]
    else
      var p := Parsing(j, i, blobs[i].filename);
      if outs[i].Err? then [p, After(p, outs[i])]
      else [p, After(p, outs[i])] + Trace(After(p, outs[i]), blobs, outs, i + 1, entries + [outs[i].value])
  }

  /** Writing a record twice leaves the second. */
  lemma Overwrite(m: map<string, Job>, id: string, a: Job, b: Job)
    ensures m[id := a][id := b] == m[id := b]
  {
  }

  function Last<T>(s: seq<T>): T
    requires s != []
  {
    s[|s| - 1]
  }

  /** A `/download` response body: the archive, or nothing once the archive's buffer has
      been read to its end by an earlier download. */
  datatype Body = Archive(entries: seq<ZipEntry>) | Exhausted

  /** The registry `JOBS`: job id to record. */
  class Registry {
    var jobs: map<string, Job>
    /** The jobs whose archive buffer an earlier download has read to the end. */
    var drained: set<string>

    constructor ()
      ensures jobs == map[] && drained == {}
    {
      jobs := map[];
      drained := {};
    }

    /** `/start`: check the uploads in order and, when they pass, register `id` as a queued
        job (replacing a record under the same id); answer the aliases the worker gets. */
    method Start(id: string, files: seq<Upload>, form: AliasForm) returns (r: Result<map<string, string>>)
      modifies this
      ensures r == StartOutcome(files, form)
      ensures r.Ok? ==> jobs == old(jobs)[id := Queued(|files|)]
      ensures r.Err? ==> jobs == old(jobs)
      ensures drained == old(drained)
    {
      if files == [] {
        return Err("No files uploaded");
      }
      var aliases: map<string, string> := map[];
      match form {
        case NotJson => return Err("Aliases must be valid JSON");
        case Json(m) => aliases := m;
        case Blank =>
      }
      var bad := CheckNames(files);
      if bad.Some? {
        return Err("Only .xml files allowed: " + bad.value);
      }
      jobs := jobs[id := Queued(|files|)];
      return Ok(aliases);
    }

    /** The upload loop of `/start`: the first name not ending in `.xml`, if any. */
    static method CheckNames(files: seq<Upload>) returns (bad: Option<string>)
      ensures bad == FirstBadName(files)
    {
      for i := 0 to |files|
        invariant FirstBadName(files[..i]).None?
      {
        assert files[..i + 1][..i] == files[..i];
        if !IsXmlUpload(files[i].filename) {
          FirstBadNameExtends(files, i + 1);
          return Some(files[i].filename);
        }
      }
      assert files[..|files|] == files;
      return None;
    }

    /** One file of `_run_job`: parse, rename, split into sheets, name the member. */
    static method ConvertFile(u: Upload, aliases: map<string, string>) returns (r: Result<ZipEntry>)
      ensures r == Convert(u, aliases)
    {
      var df := XmlRowsToDataFrame(u.doc);
      if df.Err? {
        return Err(df.message);
      }
      FrameReady(u.doc, aliases);
      var renamed := ApplyAliases(df.value, aliases);
      var sheets := WriteSheets(renamed);
      if sheets.Err? {
        return Err(sheets.message);
      }
      var base := Stem(u.filename);
      return Ok(ZipEntry(base + ".xlsx", sheets.value));
    }

    /** The body of `_run_job`'s loop for file `i`: record it as `parsing`, convert it,
        record the outcome; `recs` are the two records written, which begin the trace of
        the remaining files. */
    method RunFile(id: string, blobs: seq<Upload>, aliases: map<string, string>, i: nat, ghost entries: seq<ZipEntry>)
      returns (r: Result<ZipEntry>, ghost recs: seq<Job>)
      requires id in jobs && i < |blobs|
      modifies this
      ensures r == Outcomes(blobs, aliases)[i] && id in jobs
      ensures recs == [Parsing(old(jobs[id]), i, blobs[i].filename), jobs[id]]
      ensures jobs == old(jobs)[id := After(Parsing(old(jobs[id]), i, blobs[i].filename), r)]
      ensures drained == old(drained)
      ensures Trace(old(jobs[id]), blobs, Outcomes(blobs, aliases), i, entries) ==
        if r.Err? then recs else recs + Trace(jobs[id], blobs, Outcomes(blobs, aliases), i + 1, entries + [r.value])
    {
      var parsing := Parsing(jobs[id], i, blobs[i].filename);
      jobs := jobs[id := parsing];
      r := ConvertFile(blobs[i], aliases);
      OutcomesAt(blobs, aliases, i);
      Overwrite(old(jobs), id, parsing, After(parsing, r));
      jobs := jobs[id := After(parsing, r)];
      recs := [parsing, jobs[id]];
    }

    /** `_run_job`: convert the files in order, recording progress in the job's record; the
        ghost `trace` lists every record written, the last being the one left behind. */
    method RunJob(id: string, blobs: seq<Upload>, aliases: map<string, string>) returns (ghost trace: seq<Job>)
      requires id in jobs
      modifies this
      ensures trace == Trace(old(jobs[id]), blobs, Outcomes(blobs, aliases), 0, [])
      ensures jobs == old(jobs)[id := Last(trace)]
      ensures drained == if Last(trace).stage == "complete" then old(drained) - {id} else old(drained)
    {
      var entries: seq<ZipEntry> := [];
      trace := [];
      var i := 0;
      ghost var outs := Outcomes(blobs, aliases);
      ghost var full := Trace(jobs[id], blobs, outs, 0, []);
      while i < |blobs|
        invariant i <= |blobs| && id in jobs
        invariant jobs == old(jobs)[id := jobs[id]] && drained == old(drained)
        invariant trace + Trace(jobs[id], blobs, outs, i, entries) == full
        decreases |blobs| - i
      {
        ghost var job := jobs[id];
        ghost var recs;
        var r;
        r, recs := RunFile(id, blobs, aliases, i, entries);
        Overwrite(old(jobs), id, job, jobs[id]);
        if r.Err? {
          trace := trace + recs;
          assert Last(trace).stage == "error";
          return;
        }
        ghost var rest := Trace(jobs[id], blobs, outs, i + 1, entries + [r.value]);
        assert trace + (recs + rest) == (trace + recs) + rest;
        trace := trace + recs;
        entries := entries + [r.value];
        i := i + 1;
      }
      var complete := Complete(jobs[id], entries);
      Overwrite(old(jobs), id, jobs[id], complete);
      jobs := jobs[id := complete];
      drained := drained - {id};
      trace := trace + [complete];
    }

    /** `/progress` for an id: the events the stream sends while it sees the records in
        `polls` (what the worker has written by each poll), stopping at the first final one. */
    method Progress(id: string, polls: seq<Job>) returns (events: seq<Event>)
      ensures id !in jobs ==> events == [ErrorEvent("unknown job")]
      ensures id in jobs ==> events == EventsOf(id, jobs[id].total, polls)
    {
      if id !in jobs {
        return [ErrorEvent("unknown job")];
      }
      var total := jobs[id].total;
      events := [];
      var k := 0;
      while k < |polls|
        invariant k <= |polls|
        invariant events == EventsOf(id, total, polls[..k])
        invariant !Ends(events)
        decreases |polls| - k
      {
        var ev := Classify(id, total, polls[k]);
        assert polls[..k + 1][..k] == polls[..k];
        events := events + [ev];
        assert EventsOf(id, total, polls[..k + 1]) == events;
        if !ev.UpdateEvent? {
          assert !events[|events| - 1].UpdateEvent?;
          EventsOfStops(id, total, polls, k + 1);
          return;
        }
        k := k + 1;
      }
      assert polls[..k] == polls;
    }

    /** `/download`: `Not ready` until the job has an archive. The response streams the
        archive's buffer, which is never rewound: the first download reads it to the end
        and every later one gets an empty body. */
    method Download(id: string) returns (r: Result<Body>)
      modifies this
      ensures jobs == old(jobs)
      ensures r.Ok? <==> id in jobs && jobs[id].zip.Some?
      ensures r.Err? ==> r.message == "Not ready" && drained == old(drained)
      ensures r.Ok? ==> drained == old(drained) + {id}
      ensures r.Ok? ==> r.value == if id in old(drained) then Exhausted else Archive(jobs[id].zip.value)
    {
      if id !in jobs || jobs[id].zip.None? {
        return Err("Not ready");
      }
      if id in drained {
        r := Ok(Exhausted);
      } else {
        r := Ok(Archive(jobs[id].zip.value));
      }
      drained := drained + {id};
    }
  }

  // ----- progress events -----

  datatype Event =
    | ErrorEvent(error: string)
    | DoneEvent(jobId: string)
    | UpdateEvent(total: nat, index: nat, stage: string, file: Option<string>)

  /** The event for one poll of record `j` (`total` read once when the stream opens). */
  function Classify(id: string, total: nat, j: Job): Event {
    if j.error.Some? && j.error.value != "" then ErrorEvent(j.error.value)
    else if j.done && j.stage == "complete" then DoneEvent(id)
    else UpdateEvent(total, j.index, j.stage, j.file)
  }

  /** An error or done event ends the stream. */
  predicate Ends(events: seq<Event>) {
    exists k :: 0 <= k < |events| && !events[k].UpdateEvent?
  }

  /** The events for successive polls: one per poll up to and including the first final one. */
  function EventsOf(id: string, total: nat, polls: seq<Job>): seq<Event>
    decreases |polls|
  {
    if polls == [] then []
    else
      var before := EventsOf(id, total, polls[..|polls| - 1]);
      if Ends(before) then before else before + [Classify(id, total, polls[|polls| - 1])]
  }

  /** Once a final event is sent, later polls add nothing. */
  lemma {:induction false} EventsOfStops(id: string, total: nat, polls: seq<Job>, k: nat)
    requires k <= |polls| && Ends(EventsOf(id, total, polls[..k]))
    ensures EventsOf(id, total, polls) == EventsOf(id, total, polls[..k])
    decreases |polls| - k
  {
    if k < |polls| {
      assert polls[..k + 1][..k] == polls[..k];
      EventsOfStops(id, total, polls, k + 1);
    } else {
      assert polls[..k] == polls;
    }
  }

  /** A truthy error wins over completion; a finished job gives `done`; everything else,
      including a failure whose message is empty, gives an update. */
  lemma ClassifySpec(id: string, total: nat, j: Job)
    ensures Classify(id, total, j).ErrorEvent? <==> j.error.Some? && j.error.value != ""
    ensures Classify(id, total, j).DoneEvent? <==> (j.error.None? || j.error.value == "") && j.done && j.stage == "complete"
    ensures Classify(id, total, j).UpdateEvent? ==>
      Classify(id, total, j) == UpdateEvent(total, j.index, j.stage, j.file)
  {
  }

  /**
   * The stream is a run of updates, one per poll, closed by at most one final event: the
   * event of the first poll whose record has a truthy error or is complete.
   */
  lemma {:induction false} EventsOfSpec(id: string, total: nat, polls: seq<Job>)
    ensures |EventsOf(id, total, polls)| <= |polls|
    ensures forall k :: 0 <= k < |EventsOf(id, total, polls)| ==>
      EventsOf(id, total, polls)[k] == Classify(id, total, polls[k])
    ensures forall k :: 0 <= k < |EventsOf(id, total, polls)| - 1 ==> EventsOf(id, total, polls)[k].UpdateEvent?
    ensures |EventsOf(id, total, polls)| < |polls| ==> Ends(EventsOf(id, total, polls))
    decreases |polls|
  {
    if polls != [] {
      var init := polls[..|polls| - 1];
      EventsOfSpec(id, total, init);
      var before := EventsOf(id, total, init);
      if !Ends(before) {
        assert |before| == |init|;
        forall k | 0 <= k < |before| ensures before[k].UpdateEvent? {
          if !before[k].UpdateEvent? { assert Ends(before); }
        }
      }
    }
  }

  /** A job that failed with an empty message (`str(e) == ""`) never ends its stream: every
      poll gives another update. */
  lemma {:induction false} SilentFailureKeepsUpdating(id: string, total: nat, polls: seq<Job>)
    requires forall k :: 0 <= k < |polls| ==> polls[k].error == Some("") && polls[k].stage == "error"
    ensures |EventsOf(id, total, polls)| == |polls|
    ensures forall k :: 0 <= k < |polls| ==> EventsOf(id, total, polls)[k].UpdateEvent?
    decreases |polls|
  {
    if polls != [] {
      var init := polls[..|polls| - 1];
      SilentFailureKeepsUpdating(id, total, init);
      var before := EventsOf(id, total, init);
      assert !Ends(before);
    }
  }

  // ----- what a run leaves behind -----

  /** The members of outcomes `i` up to `n`, all of which succeeded. */
  function Members(outs: seq<Result<ZipEntry>>, i: nat, n: nat): (m: seq<ZipEntry>)
    requires i <= n <= |outs|
    requires forall k :: i <= k < n ==> outs[k].Ok?
    ensures |m| == n - i && forall k :: 0 <= k < n - i ==> m[k] == outs[i + k].value
    decreases n - i
  {
    if i == n then [] else [outs[i].value] + Members(outs, i + 1, n)
  }

  /**
   * The last record of the trace from file `i` on when no outcome from `i` on fails: the
   * archive of every member, `done` and `complete`, the error untouched, and the index of
   * the last file (or the one it started with, when there was no file left).
   */
  lemma {:induction false} TraceCompletes(j: Job, blobs: seq<Upload>, outs: seq<Result<ZipEntry>>, i: nat, entries: seq<ZipEntry>)
    requires |outs| == |blobs| && i <= |blobs|
    requires forall k :: i <= k < |outs| ==> outs[k].Ok?
    ensures var t := Trace(j, blobs, outs, i, entries);
      |t| == 2 * (|blobs| - i) + 1 &&
      Last(t).done && Last(t).stage == "complete" && Last(t).error == j.error &&
      Last(t).zip == Some(entries + Members(outs, i, |blobs|)) &&
      Last(t).index == (if i == |blobs| then j.index else |blobs|)
    decreases |blobs| - i
  {
    if i < |blobs| {
      var p := Parsing(j, i, blobs[i].filename);
      var w := After(p, outs[i]);
      var e := outs[i].value;
      TraceCompletes(w, blobs, outs, i + 1, entries + [e]);
      var rest := Trace(w, blobs, outs, i + 1, entries + [e]);
      assert Trace(j, blobs, outs, i, entries) == [p, w] + rest;
      assert Last([p, w] + rest) == Last(rest);
      var m := Members(outs, i + 1, |blobs|);
      assert Members(outs, i, |blobs|) == [e] + m;
      assert entries + ([e] + m) == (entries + [e]) + m;
    } else {
      assert entries + Members(outs, i, |blobs|) == entries;
    }
  }

  /**
   * The last record of the trace from file `i` on when file `f` is the first from `i` on
   * whose outcome fails: its message, index and name, `done` and `error`, the archive
   * untouched; two records were written for each file up to and including `f`.
   */
  lemma {:induction false} TraceFails(j: Job, blobs: seq<Upload>, outs: seq<Result<ZipEntry>>, i: nat, entries: seq<ZipEntry>, f: nat)
    requires |outs| == |blobs| && i <= f < |blobs| && outs[f].Err?
    requires forall k :: i <= k < f ==> outs[k].Ok?
    ensures var t := Trace(j, blobs, outs, i, entries);
      |t| == 2 * (f - i) + 2 &&
      Last(t).done && Last(t).stage == "error" && Last(t).error == Some(outs[f].message) &&
      Last(t).zip == j.zip && Last(t).index == f + 1 && Last(t).file == Some(blobs[f].filename)
    decreases f - i
  {
    if i < f {
      var p := Parsing(j, i, blobs[i].filename);
      var w := After(p, outs[i]);
      var e := outs[i].value;
      TraceFails(w, blobs, outs, i + 1, entries + [e], f);
      var rest := Trace(w, blobs, outs, i + 1, entries + [e]);
      assert Trace(j, blobs, outs, i, entries) == [p, w] + rest;
      assert Last([p, w] + rest) == Last(rest);
    }
  }

  /**
   * Record `k` of the trace from file `i` on, other than the last, is file `i + k / 2`'s,
   * numbered from 1, `parsing` then `written`, and no more `done` than the record the run
   * started from.
   */
  lemma {:induction false} TraceStep(j: Job, blobs: seq<Upload>, outs: seq<Result<ZipEntry>>, i: nat, entries: seq<ZipEntry>, k: nat)
    requires |outs| == |blobs| && i <= |blobs| && k < |Trace(j, blobs, outs, i, entries)| - 1
    ensures var t := Trace(j, blobs, outs, i, entries);
      i + k / 2 < |blobs| && t[k].index == i + k / 2 + 1 && t[k].file == Some(blobs[i + k / 2].filename) &&
      t[k].stage == (if k % 2 == 0 then "parsing" else "written") && t[k].done == j.done
    decreases k
  {
    var p := Parsing(j, i, blobs[i].filename);
    var w := After(p, outs[i]);
    if k >= 2 {
      var e := outs[i].value;
      var rest := Trace(w, blobs, outs, i + 1, entries + [e]);
      assert Trace(j, blobs, outs, i, entries) == [p, w] + rest;
      assert Trace(j, blobs, outs, i, entries)[k] == rest[k - 2];
      TraceStep(w, blobs, outs, i + 1, entries + [e], k - 2);
      assert (k - 2) / 2 == k / 2 - 1 && (k - 2) % 2 == k % 2;
    } else if k == 1 {
      assert Trace(j, blobs, outs, i, entries)[1] == w;
    } else {
      assert Trace(j, blobs, outs, i, entries)[0] == p;
    }
  }

  /**
   * What `_run_job` leaves in a queued job's record when every file converts (`outs[k]`
   * is file `k`'s conversion, by `OutcomesAt`): `done`, stage `complete`, no error, index
   * = number of files, and the archive holding each file's member in upload order.
   */
  lemma JobCompletes(total: nat, blobs: seq<Upload>, aliases: map<string, string>)
    requires blobs != []
    requires forall k :: 0 <= k < |blobs| ==> Outcomes(blobs, aliases)[k].Ok?
    ensures var last := Last(Trace(Queued(total), blobs, Outcomes(blobs, aliases), 0, []));
      last.done && last.stage == "complete" && last.error == None && last.index == |blobs| &&
      last.zip.Some? && |last.zip.value| == |blobs| &&
      forall k :: 0 <= k < |blobs| ==> last.zip.value[k] == Outcomes(blobs, aliases)[k].value
  {
    var outs := Outcomes(blobs, aliases);
    TraceCompletes(Queued(total), blobs, outs, 0, []);
  }

  /**
   * What `_run_job` leaves in a queued job's record when file `f` is the first whose
   * conversion fails: `done`, stage `error`, its message, index `f + 1`, its name, and no
   * archive.
   */
  lemma JobFails(total: nat, blobs: seq<Upload>, aliases: map<string, string>, f: nat)
    requires f < |blobs| && Outcomes(blobs, aliases)[f].Err?
    requires forall k :: 0 <= k < f ==> Outcomes(blobs, aliases)[k].Ok?
    ensures var last := Last(Trace(Queued(total), blobs, Outcomes(blobs, aliases), 0, []));
      last.done && last.stage == "error" && last.error == Some(Outcomes(blobs, aliases)[f].message) &&
      last.index == f + 1 && last.file == Some(blobs[f].filename) && last.zip == None
  {
    var outs := Outcomes(blobs, aliases);
    TraceFails(Queued(total), blobs, outs, 0, [], f);
  }

  /** While files are being converted no record is `done`, so the registry only ever shows
      `done` together with `complete` or `error`; and the stream of a queued job reports
      indices that never decrease. */
  lemma TraceOrdered(total: nat, blobs: seq<Upload>, aliases: map<string, string>)
    ensures var t := Trace(Queued(total), blobs, Outcomes(blobs, aliases), 0, []);
      (forall k :: 0 <= k < |t| ==> (t[k].done <==> k == |t| - 1)) &&
      (forall k, l :: 0 <= k <= l < |t| - 1 ==> t[k].index <= t[l].index) &&
      Last(t).stage in {"complete", "error"}
  {
    TraceShape(total, blobs, Outcomes(blobs, aliases));
  }

  /** `TraceOrdered` for any outcomes of the files. */
  lemma TraceShape(total: nat, blobs: seq<Upload>, outs: seq<Result<ZipEntry>>)
    requires |outs| == |blobs|
    ensures var t := Trace(Queued(total), blobs, outs, 0, []);
      (forall k :: 0 <= k < |t| ==> (t[k].done <==> k == |t| - 1)) &&
      (forall k, l :: 0 <= k <= l < |t| - 1 ==> t[k].index <= t[l].index) &&
      Last(t).stage in {"complete", "error"}
  {
    var t := Trace(Queued(total), blobs, outs, 0, []);
    match FirstFailure(outs, 0) {
      case None => TraceCompletes(Queued(total), blobs, outs, 0, []);
      case Some(f) => TraceFails(Queued(total), blobs, outs, 0, [], f);
    }
    forall k | 0 <= k < |t| - 1
      ensures !t[k].done && t[k].index == k / 2 + 1
    {
      TraceStep(Queued(total), blobs, outs, 0, [], k);
    }
    forall k, l | 0 <= k <= l < |t| - 1
      ensures t[k].index <= t[l].index
    {
      assert k / 2 <= l / 2;
    }
  }
}
