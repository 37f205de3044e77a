/** `worker`: resolve one record into one report row, skipping a file that is
    already there, trying the primary URL and falling back to the backup URL. */
module Tasks {
  import opened Wrappers
  import opened Download

  /** One input row: the id names the output file. */
  datatype Record = Record(id: string, primaryUrl: string, backupUrl: string)

  /** One output row `(id, "yes"|"no", message for link 1, message for link 2)`. */
  datatype Row = Row(id: string, downloaded: string, message1: Msg, message2: Msg)

  /** One call of `download_pdf`: the URL requested and the file it writes to. */
  datatype Attempt = Attempt(url: string, path: string)

  /** What one worker call returns, the filesystem after it, and the attempts it made. */
  datatype Step = Step(row: Row, fs: Fs, attempts: seq<Attempt>)

  const Yes := "yes"
  const No := "no"

  /** The row of a record whose file is present: no messages. */
  function Present(id: string): Row {
    Row(id, Yes, Text(""), Text(""))
  }

  /** `output_dir + "/%s.pdf" % id`: the directory, a slash, the id, and the
      extension, in that order. */
  function PdfPath(outputDir: string, id: string): (p: string)
    ensures |p| == |outputDir| + |id| + 5
    ensures p[..|outputDir|] == outputDir && p[|outputDir|] == '/'
    ensures p[|outputDir| + 1 .. |p| - 4] == id && p[|p| - 4 ..] == ".pdf"
  {
    var p := outputDir + "/" + id + ".pdf";
    assert p[..|outputDir|] == outputDir;
    assert p[|outputDir| + 1 .. |p| - 4] == id;
    p
  }

  /** Within one output directory, distinct ids never share a file. */
  lemma PdfPathInjective(outputDir: string, a: string, b: string)
    requires PdfPath(outputDir, a) == PdfPath(outputDir, b)
    ensures a == b
  {
    var s := PdfPath(outputDir, a);
    assert |a| == |b|;
    assert s[|outputDir| + 1 .. |outputDir| + 1 + |a|] == a;
    assert PdfPath(outputDir, b)[|outputDir| + 1 .. |outputDir| + 1 + |b|] == b;
  }

  /** The worker leaves an existing file alone without any request. */
  predicate Skips(rec: Record, outputDir: string, allowOverwrite: bool, fs: Fs) {
    !allowOverwrite && PdfPath(outputDir, rec.id) in fs
  }

  function Worker(rec: Record, outputDir: string, allowOverwrite: bool,
                  primary: Response, backup: Response, valid: PdfCheck, fs: Fs): (w: Step)
    ensures w.row.id == rec.id
    ensures w.row.downloaded == Yes || w.row.downloaded == No
    // nothing but the record's own file changes
    ensures w.fs - {PdfPath(outputDir, rec.id)} == fs - {PdfPath(outputDir, rec.id)}
    // skip rule
    ensures Skips(rec, outputDir, allowOverwrite, fs) ==> w == Step(Present(rec.id), fs, [])
    // a "yes" always leaves the file in place
    ensures w.row.downloaded == Yes ==> w.row == Present(rec.id) && PdfPath(outputDir, rec.id) in w.fs
    // with overwrite off, no existing file ever disappears
    ensures !allowOverwrite ==> fs.Keys <= w.fs.Keys
  {
    var path := PdfPath(outputDir, rec.id);
    if !allowOverwrite && path in fs then
      Step(Present(rec.id), fs, [])
    else
      var first := DownloadPdf(primary, path, fs, valid);
      if !first.ok then
        var second := DownloadPdf(backup, path, first.fs, valid);
        var attempts := [Attempt(rec.primaryUrl, path), Attempt(rec.backupUrl, path)];
        if second.ok then Step(Present(rec.id), second.fs, attempts)
        else Step(Row(rec.id, No, first.msg, second.msg), second.fs, attempts)
      else
        Step(Present(rec.id), first.fs, [Attempt(rec.primaryUrl, path)])
  }

  /** Both attempts target the record's own file; the primary URL is tried first
      and the backup URL only when the primary attempt fails. */
  lemma WorkerAttempts(rec: Record, outputDir: string, allowOverwrite: bool,
                       primary: Response, backup: Response, valid: PdfCheck, fs: Fs)
    ensures var w := Worker(rec, outputDir, allowOverwrite, primary, backup, valid, fs);
      && (forall a :: a in w.attempts ==> a.path == PdfPath(outputDir, rec.id))
      && (Skips(rec, outputDir, allowOverwrite, fs) <==> |w.attempts| == 0)
      && (!Skips(rec, outputDir, allowOverwrite, fs) ==> 1 <= |w.attempts| <= 2 && w.attempts[0].url == rec.primaryUrl)
      && (|w.attempts| == 2 <==> !Skips(rec, outputDir, allowOverwrite, fs) && FailureOf(primary, valid).Some?)
      && (|w.attempts| == 2 ==> w.attempts[1].url == rec.backupUrl)
  {
  }

  /** The row is "yes" exactly when the file was present (and kept) or one of
      the attempts succeeded; a "no" row carries the primary attempt's failure
      first and the backup's second; a freshly downloaded file passed the PDF
      check, while a present one was not checked. */
  lemma WorkerOutcome(rec: Record, outputDir: string, allowOverwrite: bool,
                      primary: Response, backup: Response, valid: PdfCheck, fs: Fs)
    ensures var w := Worker(rec, outputDir, allowOverwrite, primary, backup, valid, fs);
      && (w.row.downloaded == Yes <==>
            Skips(rec, outputDir, allowOverwrite, fs) || FailureOf(primary, valid).None? || FailureOf(backup, valid).None?)
      && (w.row.downloaded == No ==>
            Explain(w.row.message1) == FailureOf(primary, valid) && Explain(w.row.message2) == FailureOf(backup, valid))
      && (w.row.downloaded == Yes && !Skips(rec, outputDir, allowOverwrite, fs) ==> valid(w.fs[PdfPath(outputDir, rec.id)]))
  {
  }

  /** After a download, the record's file holds the body of the attempt that
      succeeded: the primary's when it succeeds, otherwise the backup's. */
  lemma WorkerFileContents(rec: Record, outputDir: string, allowOverwrite: bool,
                           primary: Response, backup: Response, valid: PdfCheck, fs: Fs)
    ensures var w := Worker(rec, outputDir, allowOverwrite, primary, backup, valid, fs);
      && (!Skips(rec, outputDir, allowOverwrite, fs) && FailureOf(primary, valid).None? ==>
            primary.Answered? && PdfPath(outputDir, rec.id) in w.fs && w.fs[PdfPath(outputDir, rec.id)] == primary.body)
      && (!Skips(rec, outputDir, allowOverwrite, fs) && FailureOf(primary, valid).Some? && FailureOf(backup, valid).None? ==>
            backup.Answered? && PdfPath(outputDir, rec.id) in w.fs && w.fs[PdfPath(outputDir, rec.id)] == backup.body)
  {
  }

  /** After a "no" row the record's file is what the last attempt that opened it
      left: the partial body of an attempt cut off mid-stream, nothing after a
      complete body that failed the PDF check, and the file as it was when
      neither attempt got a 200 answer. */
  lemma WorkerFileAfterFailure(rec: Record, outputDir: string, allowOverwrite: bool,
                               primary: Response, backup: Response, valid: PdfCheck, fs: Fs)
    ensures var w := Worker(rec, outputDir, allowOverwrite, primary, backup, valid, fs);
      var path := PdfPath(outputDir, rec.id);
      w.row.downloaded == No ==>
        && (OpensFile(backup) && backup.interruption.Some? ==> path in w.fs && w.fs[path] == backup.body)
        && (OpensFile(backup) && backup.interruption.None? ==> path !in w.fs)
        && (!OpensFile(backup) && OpensFile(primary) && primary.interruption.Some? ==>
              path in w.fs && w.fs[path] == primary.body)
        && (!OpensFile(backup) && OpensFile(primary) && primary.interruption.None? ==> path !in w.fs)
        && (!OpensFile(backup) && !OpensFile(primary) ==> w.fs == fs)
  {
  }

  /** When the primary attempt succeeds the backup URL is never fetched: the
      worker's result is the same whatever the backup would have answered. */
  lemma PrimarySuccessIgnoresBackup(rec: Record, outputDir: string, allowOverwrite: bool,
                                    primary: Response, backup1: Response, backup2: Response,
                                    valid: PdfCheck, fs: Fs)
    requires FailureOf(primary, valid).None?
    ensures Worker(rec, outputDir, allowOverwrite, primary, backup1, valid, fs)
         == Worker(rec, outputDir, allowOverwrite, primary, backup2, valid, fs)
  {
  }

  /** The worker's row and requests depend on the filesystem only through the
      record's own file, and so does what it leaves in that file. */
  lemma WorkerIsLocal(rec: Record, outputDir: string, allowOverwrite: bool,
                      primary: Response, backup: Response, valid: PdfCheck, fsA: Fs, fsB: Fs)
    requires AgreeAt(fsA, fsB, PdfPath(outputDir, rec.id))
    ensures Worker(rec, outputDir, allowOverwrite, primary, backup, valid, fsA).row
         == Worker(rec, outputDir, allowOverwrite, primary, backup, valid, fsB).row
    ensures Worker(rec, outputDir, allowOverwrite, primary, backup, valid, fsA).attempts
         == Worker(rec, outputDir, allowOverwrite, primary, backup, valid, fsB).attempts
    ensures AgreeAt(Worker(rec, outputDir, allowOverwrite, primary, backup, valid, fsA).fs,
                    Worker(rec, outputDir, allowOverwrite, primary, backup, valid, fsB).fs,
                    PdfPath(outputDir, rec.id))
  {
    var path := PdfPath(outputDir, rec.id);
    var firstA, firstB := DownloadPdf(primary, path, fsA, valid), DownloadPdf(primary, path, fsB, valid);
    DownloadOutcomeIgnoresFs(primary, path, fsA, fsB, valid);
    DownloadOutcomeIgnoresFs(backup, path, firstA.fs, firstB.fs, valid);
    DownloadIsLocal(primary, path, fsA, fsB, valid);
    DownloadIsLocal(backup, path, firstA.fs, firstB.fs, valid);
  }

  /** Re-running a record that came out "yes" with overwrite off makes no request
      and reports "yes" again, whatever the network now answers. */
  lemma RerunSkipsDownloaded(rec: Record, outputDir: string, allowOverwrite: bool,
                             primary: Response, backup: Response, valid: PdfCheck, fs: Fs,
                             primary2: Response, backup2: Response)
    requires Worker(rec, outputDir, allowOverwrite, primary, backup, valid, fs).row.downloaded == Yes
    ensures var w := Worker(rec, outputDir, allowOverwrite, primary, backup, valid, fs);
      Worker(rec, outputDir, false, primary2, backup2, valid, w.fs) == Step(Present(rec.id), w.fs, [])
  {
  }

  /** A primary body cut off mid-stream leaves a partial file behind. When the
      backup then fails before any response, the row is "no", the partial file
      stays, and a re-run with overwrite off reports the record as "yes". */
  lemma PartialFileLaterReportedPresent(rec: Record, outputDir: string, body: Bytes, cut: Exc,
                                        e: Exc, valid: PdfCheck, fs: Fs, primary2: Response, backup2: Response)
    requires PdfPath(outputDir, rec.id) !in fs
    ensures var w := Worker(rec, outputDir, false, Answered(200, body, Some(cut)), Raised(e), valid, fs);
      && w.row.downloaded == No
      && PdfPath(outputDir, rec.id) in w.fs
      && w.fs[PdfPath(outputDir, rec.id)] == body
      && Worker(rec, outputDir, false, primary2, backup2, valid, w.fs).row == Present(rec.id)
  {
  }

  /** With overwrite on, an existing file is always re-fetched, and a complete
      primary body that is not a PDF deletes it even when the backup then fails
      before any response: the row is "no" and the old file is gone. */
  lemma OverwriteMayLoseExistingFile(rec: Record, outputDir: string, body: Bytes, e: Exc,
                                     valid: PdfCheck, fs: Fs)
    requires PdfPath(outputDir, rec.id) in fs
    requires !valid(body)
    ensures var w := Worker(rec, outputDir, true, Answered(200, body, None), Raised(e), valid, fs);
      && |w.attempts| == 2
      && w.row.downloaded == No
      && w.row.message1 == Text(InvalidPdfText)
      && PdfPath(outputDir, rec.id) !in w.fs
  {
  }
}
