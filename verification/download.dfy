/** One fetch attempt of `download_pdf`: classify the response, write the body,
    validate it, and remove it again when it is not a PDF. The network and the PDF
    parser are inputs: the response is given, and `check_pdf_file` is a predicate
    over the file's contents. */
module Download {
  import opened Wrappers
  import Decimal

  newtype byte = b: int | 0 <= b < 256

  type Bytes = seq<byte>

  /** The files that exist, each with its contents. */
  type Fs = map<string, Bytes>

  /** `check_pdf_file`: whether a file with these contents opens as a PDF. */
  type PdfCheck = Bytes -> bool

  /** The two filesystems say the same about path `p`. */
  predicate AgreeAt(a: Fs, b: Fs, p: string) {
    && (p in a <==> p in b)
    && (p in a ==> a[p] == b[p])
  }

  /** Two filesystems equal away from `path` agree at every other path. */
  lemma FrameAgrees(a: Fs, b: Fs, path: string, p: string)
    requires a - {path} == b - {path} && p != path
    ensures AgreeAt(a, b, p)
  {
    assert p in a <==> p in a - {path};
    assert p in b <==> p in b - {path};
    if p in a {
      assert a[p] == (a - {path})[p];
      assert b[p] == (b - {path})[p];
    }
  }

  /** The exceptions that can reach `download_pdf`, grouped by the clause
      hierarchy that decides them. */
  datatype Exc =
    | InvalidSchemaExc
    | MissingSchemaExc
    | ReadTimeoutExc
    | ConnectTimeoutExc    // a subclass of both ConnectionError and Timeout
    | ConnectionErrorExc   // ConnectionError and its other subclasses (SSLError, ProxyError, ...)
    | TooManyRedirectsExc
    | OtherExc             // any other Exception, outside the five classes the earlier clauses name

  /** What a streamed GET of one URL produced. `Raised` is an exception out of
      `requests.get` itself, before any response. `Answered` is a response whose
      body, once streamed, yields `body`; when `interruption` is present, the
      stream stopped with that exception after `body` had been written. */
  datatype Response =
    | Raised(exc: Exc)
    | Answered(status: int, body: Bytes, interruption: Option<Exc>)

  /** The `except` clauses of `download_pdf`, by the class each names. */
  datatype Clause =
    | OnInvalidSchema
    | OnMissingSchema
    | OnReadTimeout
    | OnConnectionError
    | OnTooManyRedirects
    | OnException

  /** The clauses in the order they are written. */
  const Handlers: seq<Clause> :=
    [OnInvalidSchema, OnMissingSchema, OnReadTimeout, OnConnectionError, OnTooManyRedirects, OnException]

  /** `isinstance(e, c)` for the class hierarchy of requests' exceptions. */
  predicate Catches(c: Clause, e: Exc) {
    match c
    case OnInvalidSchema => e == InvalidSchemaExc
    case OnMissingSchema => e == MissingSchemaExc
    case OnReadTimeout => e == ReadTimeoutExc
    case OnConnectionError => e == ConnectionErrorExc || e == ConnectTimeoutExc
    case OnTooManyRedirects => e == TooManyRedirectsExc
    case OnException => true
  }

  /** Index of the first clause of `hs` that catches `e`. */
  function FirstCatch(hs: seq<Clause>, e: Exc): (r: Option<nat>)
    ensures r.Some? ==> r.value < |hs| && Catches(hs[r.value], e)
    ensures r.Some? ==> forall k :: 0 <= k < r.value ==> !Catches(hs[k], e)
    ensures r.None? ==> forall k :: 0 <= k < |hs| ==> !Catches(hs[k], e)
  {
    if |hs| == 0 then None
    else if Catches(hs[0], e) then Some(0)
    else match FirstCatch(hs[1..], e)
      case None => None
      case Some(k) => Some(k + 1)
  }

  /** The position of the clause of `download_pdf` that handles `e`. The final
      `except Exception` catches everything, so the search never comes back empty. */
  function HandlerIndex(e: Exc): (k: nat)
    ensures k < |Handlers| && Catches(Handlers[k], e)
    ensures forall j :: 0 <= j < k ==> !Catches(Handlers[j], e)
  {
    var r := FirstCatch(Handlers, e);
    if r.Some? then r.value else |Handlers| - 1
  }

  /** The clause of `download_pdf` that handles `e`. */
  function Handle(e: Exc): Clause {
    Handlers[HandlerIndex(e)]
  }

  /** A returned message: a string, or the bound method `err.__str__` that the
      generic clause returns in place of one. */
  datatype Msg = Text(text: string) | StrMethod

  const StatusPrefix := "Error status code "
  const InvalidPdfText := "Invalid pdf format downloaded"

  function ClauseMessage(c: Clause): Msg {
    match c
    case OnInvalidSchema => Text("Invalid url schema")
    case OnMissingSchema => Text("No url provided")
    case OnReadTimeout => Text("Timeout")
    case OnConnectionError => Text("Connection error")
    case OnTooManyRedirects => Text("Redirect error")
    case OnException => StrMethod
  }

  /** `"Error status code %s" % code`: the fixed prefix, then text that reads
      back as the code. */
  function StatusMessage(code: int): (s: string)
    ensures |StatusPrefix| < |s| && s[..|StatusPrefix|] == StatusPrefix
    ensures Decimal.ParseInt(s[|StatusPrefix|..]) == Some(code)
  {
    var s := StatusPrefix + Decimal.IntToString(code);
    assert s[..|StatusPrefix|] == StatusPrefix;
    assert s[|StatusPrefix|..] == Decimal.IntToString(code);
    Decimal.ParseIntToString(code);
    s
  }

  /** Why an attempt failed: a handled exception, a non-200 status, or content
      that is not a PDF. */
  datatype Failure = Transport(clause: Clause) | BadStatus(code: int) | NotPdf

  function Message(f: Failure): Msg {
    match f
    case Transport(c) => ClauseMessage(c)
    case BadStatus(code) => Text(StatusMessage(code))
    case NotPdf => Text(InvalidPdfText)
  }

  /** Reads the cause of a failure back from its message (None: not a failure message). */
  function Explain(m: Msg): Option<Failure> {
    match m
    case StrMethod => Some(Transport(OnException))
    case Text(s) =>
      if s == "Invalid url schema" then Some(Transport(OnInvalidSchema))
      else if s == "No url provided" then Some(Transport(OnMissingSchema))
      else if s == "Timeout" then Some(Transport(OnReadTimeout))
      else if s == "Connection error" then Some(Transport(OnConnectionError))
      else if s == "Redirect error" then Some(Transport(OnTooManyRedirects))
      else if s == InvalidPdfText then Some(NotPdf)
      else if |StatusPrefix| <= |s| && s[..|StatusPrefix|] == StatusPrefix then
        match Decimal.ParseInt(s[|StatusPrefix|..])
        case Some(code) => Some(BadStatus(code))
        case None => None
      else None
  }

  /** The failure taxonomy of one attempt, independent of any file: None when the
      attempt succeeds. */
  function FailureOf(resp: Response, valid: PdfCheck): Option<Failure> {
    match resp
    case Raised(e) => Some(Transport(Handle(e)))
    case Answered(status, body, interruption) =>
      if status != 200 then Some(BadStatus(status))
      else if interruption.Some? then Some(Transport(Handle(interruption.value)))
      else if valid(body) then None
      else Some(NotPdf)
  }

  /** The response got far enough for the destination file to be opened for writing. */
  predicate OpensFile(resp: Response) {
    resp.Answered? && resp.status == 200
  }

  /** The `(ok, message)` pair of `download_pdf` and the filesystem afterwards. */
  datatype Fetch = Fetch(ok: bool, msg: Msg, fs: Fs)

  function DownloadPdf(resp: Response, path: string, fs: Fs, valid: PdfCheck): (d: Fetch)
    ensures d.ok <==> FailureOf(resp, valid).None?
    ensures d.ok ==> d.msg == Text(path)
    ensures resp.Answered? && resp.status != 200 ==> d.msg == Text(StatusMessage(resp.status))
    ensures !d.ok ==> Explain(d.msg) == FailureOf(resp, valid)
    // only the destination path is touched
    ensures d.fs - {path} == fs - {path}
    // no file is created or truncated before a 200 response
    ensures !OpensFile(resp) ==> d.fs == fs
    // a successful download, and a partial one, stay on disk with what was written
    ensures OpensFile(resp) && (d.ok || resp.interruption.Some?) ==> path in d.fs && d.fs[path] == resp.body
    ensures d.ok ==> valid(d.fs[path])
    // a complete body that is not a PDF is removed, even if a file was there before
    ensures OpensFile(resp) && resp.interruption.None? && !d.ok ==> path !in d.fs
  {
    match resp
    case Raised(e) => MessageExplained(Transport(Handle(e))); Fetch(false, ClauseMessage(Handle(e)), fs)
    case Answered(status, body, interruption) =>
      if status != 200 then
        MessageExplained(BadStatus(status));
        Fetch(false, Text(StatusMessage(status)), fs)
      else
        var written := fs[path := body];
        if interruption.Some? then
          MessageExplained(Transport(Handle(interruption.value)));
          Fetch(false, ClauseMessage(Handle(interruption.value)), written)
        else if valid(written[path]) then
          Fetch(true, Text(path), written)
        else
          MessageExplained(NotPdf);
          Fetch(false, Text(InvalidPdfText), written - {path})
  }

  /** An attempt's `(ok, message)` pair does not depend on the filesystem. */
  lemma DownloadOutcomeIgnoresFs(resp: Response, path: string, fsA: Fs, fsB: Fs, valid: PdfCheck)
    ensures DownloadPdf(resp, path, fsA, valid).ok == DownloadPdf(resp, path, fsB, valid).ok
    ensures DownloadPdf(resp, path, fsA, valid).msg == DownloadPdf(resp, path, fsB, valid).msg
  {
  }

  /** What an attempt leaves at its destination depends only on what was there
      before. */
  lemma DownloadIsLocal(resp: Response, path: string, fsA: Fs, fsB: Fs, valid: PdfCheck)
    requires AgreeAt(fsA, fsB, path)
    ensures AgreeAt(DownloadPdf(resp, path, fsA, valid).fs, DownloadPdf(resp, path, fsB, valid).fs, path)
  {
  }

  /** A status message is none of the fixed messages (those all start with a
      letter other than 'E'), and its code can be read back. */
  lemma StatusMessageExplained(code: int)
    ensures Explain(Text(StatusMessage(code))) == Some(BadStatus(code))
  {
    var s := StatusMessage(code);
    assert s[0] == 'E';
    assert s != "Invalid url schema" by { assert "Invalid url schema"[0] == 'I'; }
    assert s != "No url provided" by { assert "No url provided"[0] == 'N'; }
    assert s != "Timeout" by { assert "Timeout"[0] == 'T'; }
    assert s != "Connection error" by { assert "Connection error"[0] == 'C'; }
    assert s != "Redirect error" by { assert "Redirect error"[0] == 'R'; }
    assert s != InvalidPdfText by { assert InvalidPdfText[0] == 'I'; }
    assert s[..|StatusPrefix|] == StatusPrefix;
    assert s[|StatusPrefix|..] == Decimal.IntToString(code);
    Decimal.ParseIntToString(code);
  }

  /** A message that reads back as a status failure is exactly the status
      message of that code: no other text, leading zeros included, decodes to it. */
  lemma ExplainStatusExact(s: string, code: int)
    requires Explain(Text(s)) == Some(BadStatus(code))
    ensures s == StatusMessage(code)
  {
    var k := |StatusPrefix|;
    assert k <= |s| && s[..k] == StatusPrefix;
    assert Decimal.ParseInt(s[k..]) == Some(code);
    Decimal.StringToParseInt(s[k..], code);
    assert s == s[..k] + s[k..];
  }

  /** Every failure message names its cause: the messages are pairwise distinct
      and the status code can be read back from a status message. */
  lemma MessageExplained(f: Failure)
    ensures Explain(Message(f)) == Some(f)
  {
    if f.BadStatus? {
      StatusMessageExplained(f.code);
    }
  }

  /** The clause each exception lands in: the first that catches it. A connect
      timeout is a ConnectionError (and a Timeout, but not a ReadTimeout), so the
      ConnectionError clause takes it. */
  lemma HandleTable(e: Exc)
    ensures Handle(e) == match e
      case InvalidSchemaExc => OnInvalidSchema
      case MissingSchemaExc => OnMissingSchema
      case ReadTimeoutExc => OnReadTimeout
      case ConnectTimeoutExc => OnConnectionError
      case ConnectionErrorExc => OnConnectionError
      case TooManyRedirectsExc => OnTooManyRedirects
      case OtherExc => OnException
  {
    var k := HandlerIndex(e);
    var want: nat := match e
      case InvalidSchemaExc => 0
      case MissingSchemaExc => 1
      case ReadTimeoutExc => 2
      case ConnectTimeoutExc => 3
      case ConnectionErrorExc => 3
      case TooManyRedirectsExc => 4
      case OtherExc => 5;
    assert Catches(Handlers[want], e);
    assert forall j :: 0 <= j < want ==> !Catches(Handlers[j], e);
    assert k == want;
  }

  /** Each transport exception raised by the GET gives one fixed message and
      leaves the filesystem as it was. */
  lemma TransportMessages(e: Exc, path: string, fs: Fs, valid: PdfCheck)
    ensures DownloadPdf(Raised(e), path, fs, valid) == Fetch(false, match e
      case InvalidSchemaExc => Text("Invalid url schema")
      case MissingSchemaExc => Text("No url provided")
      case ReadTimeoutExc => Text("Timeout")
      case ConnectTimeoutExc => Text("Connection error")
      case ConnectionErrorExc => Text("Connection error")
      case TooManyRedirectsExc => Text("Redirect error")
      case OtherExc => StrMethod, fs)
  {
    HandleTable(e);
  }

  /** A 404 answer reads "Error status code 404" and leaves the filesystem alone. */
  lemma NotFoundMessage(body: Bytes, interruption: Option<Exc>, path: string, fs: Fs, valid: PdfCheck)
    ensures DownloadPdf(Answered(404, body, interruption), path, fs, valid) == Fetch(false, Text("Error status code 404"), fs)
  {
    assert Decimal.IntToString(404) == "404";
  }
}
