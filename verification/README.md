# PDF bulk downloader: download decision model

This project models the per-record download logic of a Python script that
bulk-downloads PDF reports from a spreadsheet of records. Each record has an
id (`BRnum`), a primary URL (`Pdf_URL`) and a backup URL
(`Report Html Address`). The script writes `<output_dir>/<id>.pdf` and a
`results.xlsx` report with one row per record:
`ID`, `Downloaded` (`"yes"`/`"no"`), and one error message per link.

The model covers three functions of `download.py`:

- `download_pdf` is `Download.DownloadPdf`. It makes one fetch attempt. It
  classifies the outcome by status code and by the first matching `except`
  clause. It writes the body, checks it with `check_pdf_file`, and removes the
  file when the check fails.
- `worker` is `Tasks.Worker`. It applies the skip rule for an existing file,
  tries the primary URL, and falls back to the backup URL only after a failure.
  It always returns exactly one `(id, "yes"|"no", m1, m2)` row.
- `master` is `Pool.Master`. It runs one worker per record (with overwrite
  left at its default, off) and reads the rows back by submission index.

The world outside the script is passed in as values:

- The network is a `Response`. The worker is given one for each of its two
  URLs, and `master` is given one per URL for the whole run. A `Response` is
  either an exception raised by `requests.get` itself, or an answer with a
  status code, the bytes its body yields, and an optional exception that cut
  the stream short.
- `check_pdf_file` is a predicate over file contents (`PdfCheck`). Its PDF
  parsing is done by a foreign library.
- The filesystem is a map from path to contents (`Fs`).

Concurrency of the process pool is modelled as the workers taking effect one
after another, in whatever order they complete. The run is defined for any
worker call (`Pool.Job`). The lemmas about it assume only the properties that
`Pool.TaskJobIsWorkerJob` proves of the call `master` submits.
`Pool.CompletionOrderIrrelevant` proves that, when ids are distinct, every
completion order gives the same report and the same files. With distinct ids
each worker touches only its own file, so interleaving workers inside this
order changes nothing either.

Three behaviours of the code are worth stating plainly, since a reader might
expect otherwise:

- A download can leave a partial file. An exception while streaming the body,
  after `open(filepath, "wb")`, is caught and returned as a failure, and the
  truncated file stays on disk (download.py:105-120). A later run with
  overwrite off then reports that record as `"yes"`
  (`Tasks.PartialFileLaterReportedPresent`).
- The last `except Exception` clause returns the bound method `err.__str__`,
  not a string (download.py:118-120). The model keeps this as the message
  `StrMethod`.
- The report has only two outcomes, `"yes"` and `"no"` (download.py:146-158).
  A record skipped because its file exists gives the same row as one that was
  downloaded.

## Model

| member | source | states |
|---|---|---|
| Decimal.IntToString | download.py:103 | `%s` of a status code: digits of the magnitude with no leading zeros, after a minus sign for negative codes (never "-0") |
| Decimal.ParseIntToString | download.py:103 | the rendering of a status code can be read back, so the code is recoverable from the message |
| Decimal.StringToParseInt | download.py:103 | the reverse direction: any text the parser reads as a code is exactly that code's rendering, so leading zeros and "-0" are rejected |
| Decimal.IntToStringInjective | download.py:103 | different status codes give different messages |
| Download.FirstCatch | download.py:108-120 | the index found is of a clause that catches the exception, and no earlier clause catches it; with no index found, no clause catches it |
| Download.HandlerIndex | download.py:108-120 | the handling clause catches the exception and is the first written clause that does; the final `except Exception` means there always is one |
| Download.HandleTable | download.py:108-120 | the clause each exception kind ends in; a connect timeout is a ConnectionError but not a ReadTimeout, so it lands in the ConnectionError clause |
| Download.TransportMessages | download.py:108-120 | an exception from the GET gives `(False, fixed message)` per kind ("Invalid url schema", "No url provided", "Timeout", "Connection error", "Redirect error", or the bound `__str__` method) and creates or truncates no file |
| Download.NotFoundMessage | tests.py:12-15 | a 404 answer gives `(False, "Error status code 404")` and leaves the filesystem as it was |
| Download.StatusMessage | download.py:103 | `"Error status code %s" % code` is the fixed prefix followed by text that reads back as the code |
| Download.ExplainStatusExact | download.py:103 | a message that decodes as a status failure is exactly `"Error status code "` plus the code's rendering; no other text decodes to it |
| Download.DownloadPdf | download.py:100-125 | success exactly when the status is 200, the stream completes, and the written file passes the PDF check; on success the message is the path and the file holds the body; a non-200 answer gives exactly `"Error status code <code>"`; every failure message names its cause; only the destination path changes; nothing is written before a 200; a partial body stays after a mid-stream exception; a complete non-PDF body is removed, even over a file that was there before |
| Download.DownloadOutcomeIgnoresFs | download.py:100-125 | the `(ok, message)` pair of an attempt is the same on any two filesystems |
| Download.DownloadIsLocal | download.py:100-125 | what an attempt leaves at its destination depends only on what was at that path before |
| Download.MessageExplained | download.py:102-125 | the failure messages are pairwise distinct: each one decodes back to its cause (exception clause, status code, or invalid PDF) |
| Tasks.PdfPath | download.py:144 | the file name is the output directory, a slash, the id and `.pdf`, in that order, so the id can be read back from it |
| Tasks.PdfPathInjective | download.py:144 | `output_dir + "/" + id + ".pdf"` gives different paths for different ids |
| Tasks.Worker | download.py:131-161 | the row keeps the input id, and its status is "yes" or "no"; only the record's own file changes; with overwrite off and the file present, the result is `(id, "yes", "", "")` with no attempt and no change, so the existing file is never checked; a "yes" row has empty messages and leaves the file in place; with overwrite off no existing file disappears |
| Tasks.WorkerAttempts | download.py:144-156 | every attempt targets the same `<dir>/<id>.pdf`; there are no attempts exactly when the worker skips; otherwise the primary URL is requested first, and the backup URL second only when the primary attempt fails |
| Tasks.WorkerOutcome | download.py:146-158 | "yes" exactly when the worker skips or either attempt succeeds, dropping the primary failure when the backup succeeds; a "no" row carries the primary failure message then the backup failure message; a downloaded file passed the PDF check |
| Tasks.WorkerFileContents | download.py:149-158 | after a download the record's file holds the body of the primary answer when the primary attempt succeeds, and the backup answer's body when only the backup succeeds |
| Tasks.WorkerFileAfterFailure | download.py:105-156 | after a "no" row the record's file holds the backup's partial body when the backup was cut off mid-stream, is absent when the backup's complete body failed the PDF check, and otherwise (the backup got no 200 answer) is what the primary attempt left in the same way; with no 200 answer to either attempt the filesystem is unchanged |
| Tasks.PrimarySuccessIgnoresBackup | download.py:149-158 | when the primary attempt succeeds the backup URL is never used: the worker's row, files and requests are the same whatever the backup would answer |
| Tasks.WorkerIsLocal | download.py:144-158 | the row, the requests, and the final state of the record's file depend on the filesystem only through that file |
| Tasks.RerunSkipsDownloaded | download.py:146-147 | a record reported "yes" is reported "yes" again, with no request, by a re-run with overwrite off |
| Tasks.PartialFileLaterReportedPresent | download.py:105-107 | a body cut off mid-stream leaves the partial file, and when the backup also fails the row is "no"; a re-run with overwrite off then reports "yes" |
| Tasks.OverwriteMayLoseExistingFile | download.py:121-125 | with overwrite on, a complete non-PDF primary body deletes an existing file; when the backup then fails the row is "no" and the old file is gone |
| Pool.Task | download.py:182-185 | the worker call submitted for a record has overwrite off: a present file gives the `"yes"` row with no request and no change, and no file is lost; the primary URL's answer is the first attempt and the backup URL's the second: a successful primary leaves its body in the file, and a "no" row's messages decode to the primary URL's failure, then the backup URL's |
| Pool.TaskJobIsWorkerJob | download.py:144-161 | the worker call `master` submits keeps the record's id with a "yes"/"no" status, changes no file but the record's own, depends on the filesystem only through that file, and (overwrite being off) loses no file, leaves a "yes" record's file present, and reports a present file as "yes" |
| Pool.RunInOrder | download.py:184-188 | the rows are filed under exactly the indices of the tasks that ran |
| Pool.RunRows | download.py:184-188 | when every worker call keeps its record's id and says "yes" or "no", so does every row the run files |
| Pool.RunInOrderSettles | download.py:184-188 | with distinct ids and workers that touch only their own file, the worker at any position of the completion order ends with the row and the file it would have produced alone on the starting filesystem |
| Pool.Collect | download.py:186-188 | reading the results back by index gives one row per submitted task, row `i` being the one filed under index `i` |
| Pool.Master | download.py:163-191 | fails when the pool size is below one; otherwise produces exactly one row per record, in input order, with the record's id, a "yes"/"no" status, the fixed column header, and the report path `<dir>/results.xlsx` |
| Pool.MasterRowsAreWorkerResults | download.py:182-188 | with distinct ids, row `i` is the worker result for record `i` on the filesystem as it was when the run started |
| Pool.SameRunAnyOrder | download.py:184-188 | with distinct ids and workers that touch only their own file, any two completion orders file the same row under every index and leave the same files |
| Pool.CompletionOrderIrrelevant | download.py:184-188 | with distinct ids, any completion order of the pool's tasks, read back by index, gives the same rows and the same files as `master` |
| Pool.RunKeepsFiles | download.py:146-158 | when every worker call follows the overwrite-off rules, no file disappears during a run, and every record reported "yes" has its file afterwards |
| Pool.RunSkipsPresent | download.py:146-147 | when every worker call follows the overwrite-off rules, every record whose file exists when the run starts is reported "yes" |
| Pool.RerunReportsPresent | download.py:182-188 | running `master` again on the files left by a run reports "yes" for every record the first run reported "yes", whatever the network now answers |

## Left out

- Network I/O by `requests`: the responses are inputs. The
  10-unit timeout and the 16384-byte chunk size are not modelled. The file
  holds the bytes the stream yielded, whatever the chunking.
- The PDF parsing inside `check_pdf_file` (PyPDF2, a foreign library) is the
  `PdfCheck` parameter. That function catches every error itself, so it is
  total.
- Exceptions are grouped by the clause that decides them. `ConnectionErrorExc`
  stands for `ConnectionError` and all its subclasses other than
  `ConnectTimeout` (for example `SSLError` and `ProxyError`), which the code
  reports as "Connection error". `OtherExc` stands for every other `Exception`
  outside the five classes the earlier clauses name, handled by the generic
  clause. The
  exception that stops a stream is given as it reaches `download_pdf`: requests
  re-raises a read timeout inside `iter_content` as a `ConnectionError`, so a
  timeout mid-stream is `ConnectionErrorExc` and reads "Connection error".
  `BaseException`s that are not `Exception`s (for example a keyboard interrupt)
  are not modelled.
- Failure of `open` on the destination is not modelled; the output directory
  is assumed writable. In the code such a failure would land in the generic
  clause. Failure of `os.remove` is not modelled either.
- `req.raise_for_status()` is not modelled. It runs only after the status was
  found to be 200, so it never raises.
- Ids are strings. The code formats whatever value the spreadsheet holds with
  `%s`.
- Pool.Master: the network (`Pool.Network`) gives one answer per URL for the
  whole run, not one per request. So within one run a URL requested twice (the
  same URL as primary and backup, or shared by two records) gets the same
  answer, and a transient failure followed by a success on the same URL is not
  covered by the pool lemmas. The worker itself (`Tasks.Worker`) takes its two
  answers independently, so that case is covered for one record. A second run
  (`Pool.RerunReportsPresent`) may use a different network.
- A file is identified by its path string: `Fs` maps path strings to contents.
  Distinct ids are taken to name distinct files. On a case-insensitive
  filesystem ("ab1" and "AB1"), or with an id that holds "/" or "..", two
  distinct ids can name the same file. Every lemma that assumes distinct ids
  (`Pool.CompletionOrderIrrelevant`, `Pool.MasterRowsAreWorkerResults`,
  `Pool.SameRunAnyOrder`, `Pool.RunInOrderSettles`) then does not apply.
- `multiprocessing.Pool` scheduling is modelled as a completion order. With
  duplicate ids, concurrent workers would race on one file. The model then
  gives the sequential result of the submission order, and does not model the
  race.
- `pool.apply_async(...).get()` re-raising a worker exception is not modelled.
  The modelled worker cannot raise.
- The spreadsheet side is not modelled: `import_excel_data`,
  `save_excel_data`, and `get_urls_from_dataframe`. These wrap pandas. The
  report is returned with its header and path, but writing it is not modelled.
- The tkinter prompts, `dialog`, and the `__main__` pool size of 4 are user
  interface code.
- `print` output is not modelled.
- `setup.py` only installs dependencies.
