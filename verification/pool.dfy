/** `master`: run one worker per record in a process pool and read the rows back
    by submission index. Workers touch disjoint files when ids are distinct, so a
    run is modelled as the workers taking effect one after another, in the order
    they complete. The run itself is stated over any job with the worker's
    locality properties, and `TaskJobIsWorkerJob` shows the worker has them. */
module Pool {
  import opened Wrappers
  import opened Download
  import opened Tasks

  /** The network's answer to a GET of each URL during a run: one answer per
      URL for the whole run. */
  type Network = string -> Response

  /** `multiprocessing.Pool` refuses fewer than one process. */
  datatype PoolError = InvalidProcessCount(processes: int)

  /** The report `master` hands to the spreadsheet writer, and the files left behind. */
  datatype Report = Report(header: seq<string>, rows: seq<Row>, path: string, fs: Fs)

  const Header: seq<string> :=
    ["ID", "Downloaded", "Error message download link 1", "Error message download link 2"]

  /** Rows filed under their submission index, and the filesystem afterwards. */
  datatype Run = Run(table: map<nat, Row>, fs: Fs)

  /** One submitted call: the record and the filesystem it runs on give its step. */
  type Job = (Record, Fs) -> Step

  /** The worker call `master` submits for a record: overwrite is left at its
      default, off, so a present file is kept and reported without a request,
      and no file is lost. The primary URL's answer is the first attempt ("link
      1") and the backup URL's answer the second ("link 2"). */
  function Task(rec: Record, outputDir: string, net: Network, valid: PdfCheck, fs: Fs): (w: Step)
    ensures PdfPath(outputDir, rec.id) in fs ==> w == Step(Present(rec.id), fs, [])
    ensures fs.Keys <= w.fs.Keys
    ensures PdfPath(outputDir, rec.id) !in fs && FailureOf(net(rec.primaryUrl), valid).None? ==>
      PdfPath(outputDir, rec.id) in w.fs && w.fs[PdfPath(outputDir, rec.id)] == net(rec.primaryUrl).body
    ensures PdfPath(outputDir, rec.id) !in fs && w.row.downloaded == No ==>
      && Explain(w.row.message1) == FailureOf(net(rec.primaryUrl), valid)
      && Explain(w.row.message2) == FailureOf(net(rec.backupUrl), valid)
  {
    WorkerFileContents(rec, outputDir, false, net(rec.primaryUrl), net(rec.backupUrl), valid, fs);
    WorkerOutcome(rec, outputDir, false, net(rec.primaryUrl), net(rec.backupUrl), valid, fs);
    Worker(rec, outputDir, false, net(rec.primaryUrl), net(rec.backupUrl), valid, fs)
  }

  function TaskJob(outputDir: string, net: Network, valid: PdfCheck): Job {
    (rec: Record, fs: Fs) => Task(rec, outputDir, net, valid, fs)
  }

  /** Every row keeps its record's id and says "yes" or "no". */
  ghost predicate RowsWellFormed(job: Job) {
    forall rec: Record, fs: Fs :: job(rec, fs).row.id == rec.id && job(rec, fs).row.downloaded in {Yes, No}
  }

  /** A job changes no file but its record's own. */
  ghost predicate WritesOwnFile(job: Job, outputDir: string) {
    forall rec: Record, fs: Fs, p: string :: p != PdfPath(outputDir, rec.id) ==> AgreeAt(job(rec, fs).fs, fs, p)
  }

  /** A job's row, and what it leaves in its record's file, depend on the
      filesystem only through that file. */
  ghost predicate ReadsOwnFile(job: Job, outputDir: string) {
    forall rec: Record, fsA: Fs, fsB: Fs :: AgreeAt(fsA, fsB, PdfPath(outputDir, rec.id)) ==>
      && job(rec, fsA).row == job(rec, fsB).row
      && AgreeAt(job(rec, fsA).fs, job(rec, fsB).fs, PdfPath(outputDir, rec.id))
  }

  /** The overwrite-off rules: no file disappears, a "yes" leaves the record's
      file present, and a present file gives the "yes" row. */
  ghost predicate KeepsFiles(job: Job, outputDir: string) {
    forall rec: Record, fs: Fs ::
      && fs.Keys <= job(rec, fs).fs.Keys
      && (job(rec, fs).row.downloaded == Yes ==> PdfPath(outputDir, rec.id) in job(rec, fs).fs)
      && (PdfPath(outputDir, rec.id) in fs ==> job(rec, fs).row == Present(rec.id))
  }

  /** The worker `master` submits has all the properties the run relies on. */
  lemma TaskJobIsWorkerJob(outputDir: string, net: Network, valid: PdfCheck)
    ensures RowsWellFormed(TaskJob(outputDir, net, valid))
    ensures WritesOwnFile(TaskJob(outputDir, net, valid), outputDir)
    ensures ReadsOwnFile(TaskJob(outputDir, net, valid), outputDir)
    ensures KeepsFiles(TaskJob(outputDir, net, valid), outputDir)
  {
    var job := TaskJob(outputDir, net, valid);
    forall rec: Record, fs: Fs, p: string | p != PdfPath(outputDir, rec.id)
      ensures AgreeAt(job(rec, fs).fs, fs, p)
    {
      FrameAgrees(job(rec, fs).fs, fs, PdfPath(outputDir, rec.id), p);
    }
    forall rec: Record, fsA: Fs, fsB: Fs | AgreeAt(fsA, fsB, PdfPath(outputDir, rec.id))
      ensures job(rec, fsA).row == job(rec, fsB).row
      ensures AgreeAt(job(rec, fsA).fs, job(rec, fsB).fs, PdfPath(outputDir, rec.id))
    {
      WorkerIsLocal(rec, outputDir, false, net(rec.primaryUrl), net(rec.backupUrl), valid, fsA, fsB);
    }
  }

  predicate InRange(order: seq<nat>, n: nat) {
    forall k :: 0 <= k < |order| ==> order[k] < n
  }

  predicate NoRepeats(order: seq<nat>) {
    forall k, l :: 0 <= k < l < |order| ==> order[k] != order[l]
  }

  /** Every submitted task completes exactly once. */
  predicate IsCompletionOrder(order: seq<nat>, n: nat) {
    && InRange(order, n)
    && NoRepeats(order)
    && forall i :: 0 <= i < n ==> i in order
  }

  predicate DistinctIds(records: seq<Record>) {
    forall i, j :: 0 <= i < j < |records| ==> records[i].id != records[j].id
  }

  /** The submission order itself. */
  function Submitted(n: nat): (order: seq<nat>)
    ensures |order| == n
    ensures forall k :: 0 <= k < n ==> order[k] == k
  {
    seq(n, k requires 0 <= k < n => k)
  }

  /** Jobs take effect in `order`; each row is filed under its record's index. */
  function RunInOrder(records: seq<Record>, job: Job, order: seq<nat>, fs: Fs): (run: Run)
    requires InRange(order, |records|)
    ensures forall i :: i in run.table <==> i in order
    decreases |order|
  {
    if |order| == 0 then Run(map[], fs)
    else
      var w := job(records[order[0]], fs);
      var rest := RunInOrder(records, job, order[1..], w.fs);
      Run(rest.table[order[0] := w.row], rest.fs)
  }

  /** Every row filed keeps its record's id and says "yes" or "no". */
  lemma {:induction false} RunRows(records: seq<Record>, job: Job, order: seq<nat>, fs: Fs)
    requires InRange(order, |records|) && RowsWellFormed(job)
    ensures var run := RunInOrder(records, job, order, fs);
      forall k :: 0 <= k < |order| ==>
        run.table[order[k]].id == records[order[k]].id && run.table[order[k]].downloaded in {Yes, No}
    decreases |order|
  {
    if |order| > 0 {
      var o := order[0];
      var w := job(records[o], fs);
      var rest := order[1..];
      assert InRange(rest, |records|);
      RunRows(records, job, rest, w.fs);
      forall k | 0 <= k < |order| && order[k] != o ensures order[k] == rest[k - 1] {}
    }
  }

  /** The table read back by submission index, as the `ress[i].get()` loop does. */
  function Collect(table: map<nat, Row>, n: nat): (rows: seq<Row>)
    requires forall i :: 0 <= i < n ==> i in table
    ensures |rows| == n
    ensures forall i :: 0 <= i < n ==> rows[i] == table[i]
  {
    seq(n, i requires 0 <= i < n => table[i])
  }

  function Master(processes: int, records: seq<Record>, outputDir: string, net: Network,
                  valid: PdfCheck, fs: Fs): (r: Result<Report, PoolError>)
    ensures r.Failure? <==> processes < 1
    ensures r.Success? ==> |r.value.rows| == |records|
    ensures r.Success? ==> forall i :: 0 <= i < |records| ==>
      r.value.rows[i].id == records[i].id && r.value.rows[i].downloaded in {Yes, No}
    ensures r.Success? ==> r.value.path == outputDir + "/results.xlsx" && r.value.header == Header
  {
    if processes < 1 then Failure(InvalidProcessCount(processes))
    else
      var job := TaskJob(outputDir, net, valid);
      var order := Submitted(|records|);
      var run := RunInOrder(records, job, order, fs);
      assert forall i :: 0 <= i < |records| ==> i in run.table by {
        forall i | 0 <= i < |records| ensures i in run.table {
          assert order[i] == i;
          assert i in order;
        }
      }
      TaskJobIsWorkerJob(outputDir, net, valid);
      RunRows(records, job, order, fs);
      Success(Report(Header, Collect(run.table, |records|), outputDir + "/results.xlsx", run.fs))
  }

  /** `master` is the run in submission order, read back by index. */
  lemma MasterIsSubmittedRun(processes: int, records: seq<Record>, outputDir: string,
                             net: Network, valid: PdfCheck, fs: Fs)
    requires 1 <= processes
    ensures var run := RunInOrder(records, TaskJob(outputDir, net, valid), Submitted(|records|), fs);
      && (forall i :: 0 <= i < |records| ==> Submitted(|records|)[i] == i && i in run.table)
      && Master(processes, records, outputDir, net, valid, fs)
           == Success(Report(Header, Collect(run.table, |records|), outputDir + "/results.xlsx", run.fs))
  {
    var order := Submitted(|records|);
    var run := RunInOrder(records, TaskJob(outputDir, net, valid), order, fs);
    forall i | 0 <= i < |records| ensures i in run.table {
      assert order[i] == i;
      assert i in order;
    }
  }

  /** Path `p` is not the file of any record in `order`. */
  predicate Untouched(records: seq<Record>, outputDir: string, order: seq<nat>, p: string)
    requires InRange(order, |records|)
  {
    forall k :: 0 <= k < |order| ==> p != PdfPath(outputDir, records[order[k]].id)
  }

  /** A run changes no file other than those of its records. */
  lemma {:induction false} RunLeavesOthersAlone(records: seq<Record>, outputDir: string, job: Job,
                                                order: seq<nat>, fs: Fs, p: string)
    requires InRange(order, |records|) && WritesOwnFile(job, outputDir)
    requires Untouched(records, outputDir, order, p)
    ensures AgreeAt(RunInOrder(records, job, order, fs).fs, fs, p)
    decreases |order|
  {
    if |order| > 0 {
      var w := job(records[order[0]], fs);
      var rest := order[1..];
      assert InRange(rest, |records|);
      assert Untouched(records, outputDir, rest, p) by {
        forall k | 0 <= k < |rest| ensures p != PdfPath(outputDir, records[rest[k]].id) {
          assert rest[k] == order[k + 1];
        }
      }
      RunLeavesOthersAlone(records, outputDir, job, rest, w.fs, p);
      assert AgreeAt(w.fs, fs, p);
    }
  }

  /** A job for another id sees, and leaves, its own file as if the first job
      had not run. */
  lemma JobAfterOtherJob(first: Record, rec: Record, outputDir: string, job: Job, fs: Fs)
    requires first.id != rec.id
    requires WritesOwnFile(job, outputDir) && ReadsOwnFile(job, outputDir)
    ensures job(rec, job(first, fs).fs).row == job(rec, fs).row
    ensures AgreeAt(job(rec, job(first, fs).fs).fs, job(rec, fs).fs, PdfPath(outputDir, rec.id))
  {
    var pj := PdfPath(outputDir, rec.id);
    if pj == PdfPath(outputDir, first.id) {
      PdfPathInjective(outputDir, first.id, rec.id);
    }
    assert AgreeAt(job(first, fs).fs, fs, pj);
  }

  /** With distinct ids, no later task in `order` writes the first task's file. */
  lemma LaterTasksAvoidFirst(records: seq<Record>, outputDir: string, order: seq<nat>)
    requires InRange(order, |records|) && NoRepeats(order) && DistinctIds(records) && |order| > 0
    ensures InRange(order[1..], |records|)
    ensures Untouched(records, outputDir, order[1..], PdfPath(outputDir, records[order[0]].id))
  {
    var rest := order[1..];
    var path := PdfPath(outputDir, records[order[0]].id);
    forall k | 0 <= k < |rest| ensures path != PdfPath(outputDir, records[rest[k]].id) {
      assert rest[k] == order[k + 1] != order[0];
      if path == PdfPath(outputDir, records[rest[k]].id) {
        PdfPathInjective(outputDir, records[order[0]].id, records[rest[k]].id);
      }
    }
  }

  /** With distinct ids, the job at position `k` of the order sees its own file
      as it was before the run: its row and its file are those of the job run
      alone on the initial filesystem. */
  lemma {:induction false} RunInOrderSettles(records: seq<Record>, outputDir: string, job: Job,
                                             order: seq<nat>, fs: Fs, k: nat)
    requires InRange(order, |records|) && NoRepeats(order) && DistinctIds(records) && k < |order|
    requires WritesOwnFile(job, outputDir) && ReadsOwnFile(job, outputDir)
    ensures var run := RunInOrder(records, job, order, fs);
      && run.table[order[k]] == job(records[order[k]], fs).row
      && AgreeAt(run.fs, job(records[order[k]], fs).fs, PdfPath(outputDir, records[order[k]].id))
    decreases |order|
  {
    var o := order[0];
    var w := job(records[o], fs);
    var rest := order[1..];
    LaterTasksAvoidFirst(records, outputDir, order);
    var later := RunInOrder(records, job, rest, w.fs);
    assert RunInOrder(records, job, order, fs) == Run(later.table[o := w.row], later.fs);
    if k == 0 {
      RunLeavesOthersAlone(records, outputDir, job, rest, w.fs, PdfPath(outputDir, records[o].id));
    } else {
      assert NoRepeats(rest);
      assert order[k] == rest[k - 1] != o;
      RunInOrderSettles(records, outputDir, job, rest, w.fs, k - 1);
      JobAfterOtherJob(records[o], records[order[k]], outputDir, job, fs);
    }
  }

  /** With distinct ids, row `i` of the report is what the worker for record `i`
      returns on the filesystem as it was when the run started. */
  lemma MasterRowsAreWorkerResults(processes: int, records: seq<Record>, outputDir: string,
                                   net: Network, valid: PdfCheck, fs: Fs)
    requires 1 <= processes && DistinctIds(records)
    ensures Master(processes, records, outputDir, net, valid, fs).Success?
    ensures forall i :: 0 <= i < |records| ==>
      Master(processes, records, outputDir, net, valid, fs).value.rows[i] == Task(records[i], outputDir, net, valid, fs).row
  {
    var job := TaskJob(outputDir, net, valid);
    var order := Submitted(|records|);
    MasterIsSubmittedRun(processes, records, outputDir, net, valid, fs);
    TaskJobIsWorkerJob(outputDir, net, valid);
    forall i | 0 <= i < |records|
      ensures Master(processes, records, outputDir, net, valid, fs).value.rows[i] == Task(records[i], outputDir, net, valid, fs).row
    {
      assert order[i] == i;
      RunInOrderSettles(records, outputDir, job, order, fs, i);
      assert job(records[i], fs) == Task(records[i], outputDir, net, valid, fs);
    }
  }

  /** The row filed for record `i`, and what its file ends up holding, in a run
      that includes it. */
  lemma RecordSettled(records: seq<Record>, outputDir: string, job: Job, fs: Fs, order: seq<nat>, i: nat)
    requires InRange(order, |records|) && NoRepeats(order) && DistinctIds(records) && i in order
    requires WritesOwnFile(job, outputDir) && ReadsOwnFile(job, outputDir)
    ensures var run := RunInOrder(records, job, order, fs);
      && i in run.table
      && run.table[i] == job(records[i], fs).row
      && AgreeAt(run.fs, job(records[i], fs).fs, PdfPath(outputDir, records[i].id))
  {
    var k :| 0 <= k < |order| && order[k] == i;
    RunInOrderSettles(records, outputDir, job, order, fs, k);
  }

  /** Two complete runs in different completion orders leave path `p` alike. */
  lemma SameFileAnyOrder(records: seq<Record>, outputDir: string, job: Job, fs: Fs,
                         a: seq<nat>, b: seq<nat>, p: string)
    requires DistinctIds(records) && IsCompletionOrder(a, |records|) && IsCompletionOrder(b, |records|)
    requires WritesOwnFile(job, outputDir) && ReadsOwnFile(job, outputDir)
    ensures AgreeAt(RunInOrder(records, job, a, fs).fs, RunInOrder(records, job, b, fs).fs, p)
  {
    if i :| 0 <= i < |records| && p == PdfPath(outputDir, records[i].id) {
      assert i in a && i in b;
      RecordSettled(records, outputDir, job, fs, a, i);
      RecordSettled(records, outputDir, job, fs, b, i);
    } else {
      assert Untouched(records, outputDir, a, p);
      assert Untouched(records, outputDir, b, p);
      RunLeavesOthersAlone(records, outputDir, job, a, fs, p);
      RunLeavesOthersAlone(records, outputDir, job, b, fs, p);
    }
  }

  /** With distinct ids, two complete runs in different completion orders file
      the same row under every index and leave the same files. */
  lemma SameRunAnyOrder(records: seq<Record>, outputDir: string, job: Job, fs: Fs, a: seq<nat>, b: seq<nat>)
    requires DistinctIds(records) && IsCompletionOrder(a, |records|) && IsCompletionOrder(b, |records|)
    requires WritesOwnFile(job, outputDir) && ReadsOwnFile(job, outputDir)
    ensures RunInOrder(records, job, a, fs) == RunInOrder(records, job, b, fs)
  {
    var ra := RunInOrder(records, job, a, fs);
    var rb := RunInOrder(records, job, b, fs);
    forall p ensures (p in ra.fs <==> p in rb.fs) && (p in ra.fs ==> ra.fs[p] == rb.fs[p]) {
      SameFileAnyOrder(records, outputDir, job, fs, a, b, p);
    }
    forall i | i in ra.table ensures i in rb.table && ra.table[i] == rb.table[i] {
      assert i in a && i in b;
      RecordSettled(records, outputDir, job, fs, a, i);
      RecordSettled(records, outputDir, job, fs, b, i);
    }
    assert ra.table == rb.table;
  }

  /** With distinct ids, the order in which the pool's workers complete changes
      nothing: reading the rows back by index gives the report `master` writes,
      and the files left behind are the same. */
  lemma CompletionOrderIrrelevant(processes: int, records: seq<Record>, outputDir: string,
                                  net: Network, valid: PdfCheck, fs: Fs, order: seq<nat>)
    requires 1 <= processes && DistinctIds(records) && IsCompletionOrder(order, |records|)
    ensures var run := RunInOrder(records, TaskJob(outputDir, net, valid), order, fs);
      && (forall i :: 0 <= i < |records| ==> i in run.table)
      && Collect(run.table, |records|) == Master(processes, records, outputDir, net, valid, fs).value.rows
      && run.fs == Master(processes, records, outputDir, net, valid, fs).value.fs
  {
    var job := TaskJob(outputDir, net, valid);
    var submitted := Submitted(|records|);
    MasterIsSubmittedRun(processes, records, outputDir, net, valid, fs);
    assert IsCompletionOrder(submitted, |records|);
    TaskJobIsWorkerJob(outputDir, net, valid);
    SameRunAnyOrder(records, outputDir, job, fs, order, submitted);
  }

  /** With overwrite off no file disappears during a run, and every record
      reported "yes" has its file present afterwards. */
  lemma {:induction false} RunKeepsFiles(records: seq<Record>, outputDir: string, job: Job,
                                         order: seq<nat>, fs: Fs)
    requires InRange(order, |records|) && KeepsFiles(job, outputDir)
    ensures var run := RunInOrder(records, job, order, fs);
      && fs.Keys <= run.fs.Keys
      && forall k :: 0 <= k < |order| && run.table[order[k]].downloaded == Yes ==>
           PdfPath(outputDir, records[order[k]].id) in run.fs
    decreases |order|
  {
    if |order| > 0 {
      var o := order[0];
      var w := job(records[o], fs);
      var rest := order[1..];
      assert InRange(rest, |records|);
      RunKeepsFiles(records, outputDir, job, rest, w.fs);
      forall k | 0 <= k < |order| && order[k] != o ensures order[k] == rest[k - 1] {}
    }
  }

  /** Every record whose file is present when the run starts is reported "yes". */
  lemma {:induction false} RunSkipsPresent(records: seq<Record>, outputDir: string, job: Job,
                                           order: seq<nat>, fs: Fs)
    requires InRange(order, |records|) && KeepsFiles(job, outputDir)
    ensures var run := RunInOrder(records, job, order, fs);
      forall k :: 0 <= k < |order| && PdfPath(outputDir, records[order[k]].id) in fs ==>
        run.table[order[k]] == Present(records[order[k]].id)
    decreases |order|
  {
    if |order| > 0 {
      var o := order[0];
      var w := job(records[o], fs);
      var rest := order[1..];
      assert InRange(rest, |records|);
      RunSkipsPresent(records, outputDir, job, rest, w.fs);
      forall k | 0 <= k < |order| && order[k] != o ensures order[k] == rest[k - 1] {}
    }
  }

  /** Running `master` again on the files the first run left reports "yes" for
      every record the first run reported "yes", whatever the network answers. */
  lemma RerunReportsPresent(processes: int, records: seq<Record>, outputDir: string,
                            net: Network, net2: Network, valid: PdfCheck, fs: Fs)
    requires 1 <= processes
    ensures var first := Master(processes, records, outputDir, net, valid, fs).value;
      var second := Master(processes, records, outputDir, net2, valid, first.fs).value;
      forall i :: 0 <= i < |records| && first.rows[i].downloaded == Yes ==>
        second.rows[i] == Present(records[i].id)
  {
    var order := Submitted(|records|);
    MasterIsSubmittedRun(processes, records, outputDir, net, valid, fs);
    var first := Master(processes, records, outputDir, net, valid, fs).value;
    MasterIsSubmittedRun(processes, records, outputDir, net2, valid, first.fs);
    TaskJobIsWorkerJob(outputDir, net, valid);
    TaskJobIsWorkerJob(outputDir, net2, valid);
    RunKeepsFiles(records, outputDir, TaskJob(outputDir, net, valid), order, fs);
    RunSkipsPresent(records, outputDir, TaskJob(outputDir, net2, valid), order, first.fs);
  }
}
