/**
 * The fetch-extract worker (downloadFile) and its sequential driver
 * (downloadFiles, DownloadIndexFiles). Network retrieval, body reading and
 * zip decoding are abstract inputs: an Environment says, per URL, what each
 * of those foreign calls returned. The destination directory is a map from
 * file name to content and the outcome channel a queue, both objects the
 * worker updates in place.
 */
module Worker {
  import opened Wrappers
  import opened Text
  import opened Endpoints

  newtype byte = b: int | 0 <= b < 256

  type Error = string

  const TargetEntry: string := "master.idx"
  const StatusOK: int := 200

  /** The outcome message a worker sends: url, transport status text, error (None is nil). */
  datatype HTTPResponse = HTTPResponse(url: string, status: string, err: Option<Error>)

  /** A zip entry as the archive reader presents it, with what decompressing it gives. */
  datatype Inflate = Inflated(bytes: seq<byte>) | InflateFailed(err: Error)
  datatype Entry = Entry(name: string, contents: Inflate)

  /** What zip.NewReader made of the body. */
  datatype Archive = NotZip(err: Error) | Zip(entries: seq<Entry>)
  /** What ioutil.ReadAll made of the response body. */
  datatype Body = BodyReadFailed(err: Error) | BodyRead(archive: Archive)
  /**
   * What http.Get returned. An error comes with no response (a refused
   * connection, a timeout) or, when a redirect policy failed, with the
   * response status it stopped at.
   */
  datatype Transport =
    | TransportFailed(err: Error, response: Option<string>)
    | Responded(statusCode: int, status: string, body: Body)
  /** The write to the fragment file for the entry at this archive position fails. */
  datatype WriteFailure = WriteFailure(entryIndex: nat, err: Error)

  /** Everything outside the worker's own logic that decides its run for one URL. */
  datatype Environment = Environment(
    createError: Option<Error>,
    transport: Transport,
    writeFailure: Option<WriteFailure>)

  // ---------------------------------------------------------------------------
  // Fragment file naming

  predicate HasFragmentName(url: string)
  {
    |Split(url, '/')| >= 3
  }

  /** "<third-last segment>-<second-last segment>.tsv" of the URL's '/'-pieces. */
  function FragmentName(url: string): string
    requires HasFragmentName(url)
  {
    var s := Split(url, '/');
    s[|s| - 3] + "-" + s[|s| - 2] + ".tsv"
  }

  /** The last three pieces of a string built from three separator-free pieces. */
  lemma {:induction false} SplitLastThree(a: string, sep: char, b: string, c: string, d: string)
    requires sep !in b && sep !in c && sep !in d
    ensures Split(a + [sep] + b + [sep] + c + [sep] + d, sep) == Split(a, sep) + [b, c, d]
  {
    assert a + [sep] + b + [sep] + c + [sep] + d == a + [sep] + (b + [sep] + (c + [sep] + d));
    SplitAppend(a, sep, b + [sep] + (c + [sep] + d));
    SplitAppend(b, sep, c + [sep] + d);
    SplitAppend(c, sep, d);
    SplitNoSep(b, sep);
    SplitNoSep(c, sep);
    SplitNoSep(d, sep);
  }

  /** A generated URL is named after its year and quarter label. */
  lemma FragmentNameOfUrl(e: Endpoint)
    ensures HasFragmentName(Url(e))
    ensures FragmentName(Url(e)) == Itoa(e.year) + "-" + Quarters[e.quarter] + ".tsv"
  {
    var y := Itoa(e.year);
    var q := Quarters[e.quarter];
    var m := "master.zip";
    assert EdgarPrefix == EdgarStem + ['/'];
    assert Url(e) == EdgarStem + ['/'] + y + ['/'] + q + ['/'] + m;
    assert '/' !in y;
    assert '/' !in q;
    assert '/' !in m;
    SplitLastThree(EdgarStem, '/', y, q, m);
  }

  /** Two endpoints share a fragment file name exactly when they are the same endpoint. */
  lemma FragmentNameInjective(e1: Endpoint, e2: Endpoint)
    ensures HasFragmentName(Url(e1)) && HasFragmentName(Url(e2))
    ensures FragmentName(Url(e1)) == FragmentName(Url(e2)) <==> e1 == e2
  {
    FragmentNameOfUrl(e1);
    FragmentNameOfUrl(e2);
    var n1 := FragmentName(Url(e1));
    var n2 := FragmentName(Url(e2));
    if n1 == n2 {
      var y1, y2 := Itoa(e1.year), Itoa(e2.year);
      var q1, q2 := Quarters[e1.quarter], Quarters[e2.quarter];
      assert |q1| == 4 && |q2| == 4;
      assert |y1| == |y2|;
      assert n1[..|y1|] == y1;
      assert n2[..|y2|] == y2;
      ItoaInjective(e1.year, e2.year);
      assert q1[3] == n1[|y1| + 4] == n2[|y2| + 4] == q2[3];
    }
  }

  // ---------------------------------------------------------------------------
  // Entry selection

  /** The state of the entry loop: bytes written so far and the error it stopped on, if any. */
  datatype Extraction = Extraction(written: seq<byte>, err: Option<Error>)

  /** What the loop does with the entry at archive position `index`. */
  function ExtractStep(entry: Entry, index: nat, writeFailure: Option<WriteFailure>): Extraction
  {
    if entry.name != TargetEntry then Extraction([], None)
    else match entry.contents
      case InflateFailed(e) => Extraction([], Some(e))
      case Inflated(b) =>
        if writeFailure.Some? && writeFailure.value.entryIndex == index
        then Extraction([], Some(writeFailure.value.err))
        else Extraction(b, None)
  }

  /** The entry loop over a prefix of the archive, stopping at the first error. */
  function Extract(entries: seq<Entry>, writeFailure: Option<WriteFailure>): Extraction
  {
    if entries == [] then Extraction([], None)
    else
      var done := Extract(entries[..|entries| - 1], writeFailure);
      if done.err.Some? then done
      else
        var step := ExtractStep(entries[|entries| - 1], |entries| - 1, writeFailure);
        Extraction(done.written + step.written, step.err)
  }

  /** The bytes of every entry named master.idx, in archive order. */
  function MasterIdxBytes(entries: seq<Entry>): seq<byte>
  {
    if entries == [] then []
    else
      var last := entries[|entries| - 1];
      MasterIdxBytes(entries[..|entries| - 1])
      + (if last.name == TargetEntry && last.contents.Inflated? then last.contents.bytes else [])
  }

  /** No master.idx entry fails to decompress or to be written. */
  predicate Clean(entries: seq<Entry>, writeFailure: Option<WriteFailure>)
  {
    forall i :: 0 <= i < |entries| && entries[i].name == TargetEntry ==>
      entries[i].contents.Inflated? && (writeFailure.Some? ==> writeFailure.value.entryIndex != i)
  }

  /**
   * Without errors, the fragment receives exactly the concatenation of the
   * master.idx entries and the outcome carries a nil error; otherwise an
   * error is reported.
   */
  lemma {:induction false} ExtractClean(entries: seq<Entry>, writeFailure: Option<WriteFailure>)
    ensures Clean(entries, writeFailure) ==> Extract(entries, writeFailure) == Extraction(MasterIdxBytes(entries), None)
    ensures !Clean(entries, writeFailure) ==> Extract(entries, writeFailure).err.Some?
  {
    if entries != [] {
      var init := entries[..|entries| - 1];
      ExtractClean(init, writeFailure);
      assert Clean(entries, writeFailure) ==> Clean(init, writeFailure);
      if !Clean(entries, writeFailure) && Clean(init, writeFailure) {
        var i :| 0 <= i < |entries| && entries[i].name == TargetEntry &&
          !(entries[i].contents.Inflated? && (writeFailure.Some? ==> writeFailure.value.entryIndex != i));
        assert i == |entries| - 1;
      }
    }
  }

  /** Whatever happens, what was written is a prefix of the master.idx bytes. */
  lemma {:induction false} ExtractWritesPrefix(entries: seq<Entry>, writeFailure: Option<WriteFailure>)
    ensures Extract(entries, writeFailure).written <= MasterIdxBytes(entries)
  {
    if entries != [] {
      var init := entries[..|entries| - 1];
      ExtractWritesPrefix(init, writeFailure);
      ExtractClean(init, writeFailure);
    }
  }

  /** An archive without a master.idx entry yields an empty fragment and a nil error. */
  lemma {:induction false} NoTargetEntry(entries: seq<Entry>, writeFailure: Option<WriteFailure>)
    requires forall i :: 0 <= i < |entries| ==> entries[i].name != TargetEntry
    ensures Extract(entries, writeFailure) == Extraction([], None)
  {
    if entries != [] {
      NoTargetEntry(entries[..|entries| - 1], writeFailure);
    }
  }

  /** Once the loop has stopped on an error, later entries change nothing. */
  lemma {:induction false} ExtractStops(entries: seq<Entry>, writeFailure: Option<WriteFailure>, k: nat)
    requires k <= |entries|
    requires Extract(entries[..k], writeFailure).err.Some?
    ensures Extract(entries, writeFailure) == Extract(entries[..k], writeFailure)
    decreases |entries| - k
  {
    if k < |entries| {
      assert entries[..k + 1][..k] == entries[..k];
      ExtractStops(entries, writeFailure, k + 1);
    } else {
      assert entries[..k] == entries;
    }
  }

  /**
   * One more turn of the entry loop: it either stops the whole run on this
   * entry's error, keeping what was written so far, or appends this entry's
   * bytes (none for an entry of another name).
   */
  lemma ExtractNext(entries: seq<Entry>, writeFailure: Option<WriteFailure>, i: nat)
    requires i < |entries| && Extract(entries[..i], writeFailure).err.None?
    ensures var step := ExtractStep(entries[i], i, writeFailure);
      step.err.Some? ==> Extract(entries, writeFailure) == Extraction(Extract(entries[..i], writeFailure).written, step.err)
    ensures entries[i].name != TargetEntry ==> Extract(entries[..i + 1], writeFailure) == Extract(entries[..i], writeFailure)
    ensures (entries[i].name == TargetEntry && entries[i].contents.Inflated?
             && !(writeFailure.Some? && writeFailure.value.entryIndex == i)) ==>
      Extract(entries[..i + 1], writeFailure)
        == Extraction(Extract(entries[..i], writeFailure).written + entries[i].contents.bytes, None)
  {
    assert entries[..i + 1][..i] == entries[..i];
    var done := Extract(entries[..i], writeFailure);
    var step := ExtractStep(entries[i], i, writeFailure);
    if step.err.Some? {
      assert done.written + step.written == done.written;
      ExtractStops(entries, writeFailure, i + 1);
    } else if entries[i].name != TargetEntry {
      assert done.written + step.written == done.written;
    }
  }

  // ---------------------------------------------------------------------------
  // One worker run

  /** What a run leaves behind: the one message sent, and the fragment file (None: never created). */
  datatype Run = Run(outcome: HTTPResponse, fragment: Option<seq<byte>>)

  /**
   * downloadFile, with a transport error that came without a response
   * reported with an empty status, as a failed creation is (the code as
   * written dereferences the nil response there; see OutcomeAsWritten).
   */
  function WorkerRun(url: string, env: Environment): (r: Run)
    ensures r.outcome.url == url
    ensures r.fragment.None? <==> env.createError.Some?
    ensures r.outcome.err.None? ==> r.fragment.Some?
  {
    match env.createError
    case Some(e) => Run(HTTPResponse(url, "", Some(e)), None)
    case None =>
      match env.transport
      case TransportFailed(e, response) =>
        Run(HTTPResponse(url, if response.Some? then response.value else "", Some(e)), Some([]))
      case Responded(code, status, body) =>
        if code != StatusOK then Run(HTTPResponse(url, status, None), Some([]))
        else match body
          case BodyReadFailed(e) => Run(HTTPResponse(url, status, Some(e)), Some([]))
          case BodyRead(NotZip(e)) => Run(HTTPResponse(url, status, Some(e)), Some([]))
          case BodyRead(Zip(entries)) =>
            var x := Extract(entries, env.writeFailure);
            Run(HTTPResponse(url, status, x.err), Some(x.written))
  }

  /**
   * The message downloadFile sends as written: None where it panics instead
   * of sending, which is when http.Get reports an error without a response
   * and the error branch reads the status of the nil response. The panic
   * is not recovered, so it ends the whole process.
   */
  function OutcomeAsWritten(url: string, env: Environment): Option<HTTPResponse>
  {
    match env.createError
    case Some(e) => Some(HTTPResponse(url, "", Some(e)))
    case None =>
      match env.transport
      case TransportFailed(e, None) => None
      case TransportFailed(e, Some(status)) => Some(HTTPResponse(url, status, Some(e)))
      case Responded(code, status, body) =>
        if code != StatusOK then Some(HTTPResponse(url, status, None))
        else match body
          case BodyReadFailed(e) => Some(HTTPResponse(url, status, Some(e)))
          case BodyRead(NotZip(e)) => Some(HTTPResponse(url, status, Some(e)))
          case BodyRead(Zip(entries)) => Some(HTTPResponse(url, status, Extract(entries, env.writeFailure).err))
  }

  /**
   * As written, a transport error without a response (a refused connection,
   * say) sends no message at all; the corrected run sends (url, "", err).
   */
  lemma TransportErrorSendsNothing(url: string, e: Error)
    ensures OutcomeAsWritten(url, Environment(None, TransportFailed(e, None), None)).None?
    ensures WorkerRun(url, Environment(None, TransportFailed(e, None), None)).outcome == HTTPResponse(url, "", Some(e))
  {
  }

  /** A failed redirect policy returns a response with the error, and its status is reported. */
  lemma RedirectFailureReportsStatus(url: string, e: Error, status: string, wf: Option<WriteFailure>)
    ensures OutcomeAsWritten(url, Environment(None, TransportFailed(e, Some(status)), wf))
         == Some(HTTPResponse(url, status, Some(e)))
  {
  }

  /** Wherever the code as written sends a message, the corrected run sends the same one. */
  lemma AsWrittenAgreesElsewhere(url: string, env: Environment)
    requires env.createError.Some? || !(env.transport.TransportFailed? && env.transport.response.None?)
    ensures OutcomeAsWritten(url, env) == Some(WorkerRun(url, env).outcome)
  {
  }

  /**
   * The failure paths before the entry loop (transport error, non-200
   * status, body read error, bad archive) leave the created file empty, and
   * every run reports on its own URL.
   */
  lemma EarlyFailuresLeaveFileEmpty(url: string, env: Environment)
    requires env.createError.None?
    requires env.transport.TransportFailed?
          || env.transport.statusCode != StatusOK
          || env.transport.body.BodyReadFailed?
          || env.transport.body.archive.NotZip?
    ensures WorkerRun(url, env).fragment == Some([])
    ensures WorkerRun(url, env).outcome.url == url
  {
  }

  /** A failed file creation is reported with an empty status and no file. */
  lemma CreateFailureReported(url: string, env: Environment)
    requires env.createError.Some?
    ensures WorkerRun(url, env) == Run(HTTPResponse(url, "", env.createError), None)
  {
  }

  /**
   * A successful download of an archive holding master.idx entries leaves
   * exactly their concatenation in the fragment file and reports a nil error.
   */
  lemma SuccessfulRunExtractsTarget(url: string, env: Environment)
    requires env.createError.None? && env.transport.Responded?
    requires env.transport.statusCode == StatusOK
    requires env.transport.body.BodyRead? && env.transport.body.archive.Zip?
    requires Clean(env.transport.body.archive.entries, env.writeFailure)
    ensures WorkerRun(url, env).fragment == Some(MasterIdxBytes(env.transport.body.archive.entries))
    ensures WorkerRun(url, env).outcome == HTTPResponse(url, env.transport.status, None)
  {
    ExtractClean(env.transport.body.archive.entries, env.writeFailure);
  }

  /** Byte-for-byte pass-through of a single master.idx among other entries. */
  lemma ExampleSingleTarget(b: seq<byte>, other: seq<byte>)
    ensures Extract([Entry("readme.txt", Inflated(other)), Entry(TargetEntry, Inflated(b))], None)
         == Extraction(b, None)
  {
    var es := [Entry("readme.txt", Inflated(other)), Entry(TargetEntry, Inflated(b))];
    assert "readme.txt"[0] != TargetEntry[0];
    assert es[..1] == [Entry("readme.txt", Inflated(other))];
    assert es[..1][..0] == [];
    assert Extract(es[..1], None) == Extraction([], None);
  }

  // ---------------------------------------------------------------------------
  // The imperative worker

  /** The destination directory: file name to content. */
  class Directory {
    var files: map<string, seq<byte>>

    constructor (files0: map<string, seq<byte>>)
      ensures files == files0
    {
      files := files0;
    }
  }

  /** The buffered outcome channel: messages sent and not yet received, oldest first. */
  class Channel {
    var buffer: seq<HTTPResponse>

    constructor ()
      ensures buffer == []
    {
      buffer := [];
    }

    method Send(r: HTTPResponse)
      modifies this
      ensures buffer == old(buffer) + [r]
    {
      buffer := buffer + [r];
    }

    method Receive() returns (r: HTTPResponse)
      requires buffer != []
      modifies this
      ensures r == old(buffer)[0] && buffer == old(buffer)[1..]
    {
      r := buffer[0];
      buffer := buffer[1..];
    }
  }

  /** The directory after a run that left `fragment` under `name`. */
  function Deposit(files: map<string, seq<byte>>, name: string, fragment: Option<seq<byte>>): map<string, seq<byte>>
  {
    if fragment.Some? then files[name := fragment.value] else files
  }

  /**
   * The loop of downloadFile over the archive's entries: every entry named
   * master.idx is decompressed and appended to the fragment file; the first
   * failure ends the loop and is returned (None once every entry is done).
   */
  method WriteTargetEntries(entries: seq<Entry>, writeFailure: Option<WriteFailure>, dir: Directory, fileName: string)
    returns (err: Option<Error>)
    requires fileName in dir.files
    modifies dir
    ensures err == Extract(entries, writeFailure).err
    ensures dir.files == old(dir.files)[fileName := old(dir.files[fileName]) + Extract(entries, writeFailure).written]
  {
    ghost var start := dir.files[fileName];
    assert start + [] == start;
    var i := 0;
    while i < |entries|
      invariant 0 <= i <= |entries|
      invariant Extract(entries[..i], writeFailure).err.None?
      invariant dir.files == old(dir.files)[fileName := start + Extract(entries[..i], writeFailure).written]
    {
      ExtractNext(entries, writeFailure, i);
      var entry := entries[i];
      if entry.name == TargetEntry {
        match entry.contents
        case InflateFailed(e) =>
          return Some(e);
        case Inflated(unzipped) =>
          if writeFailure.Some? && writeFailure.value.entryIndex == i {
            return Some(writeFailure.value.err);
          }
          ghost var written := Extract(entries[..i], writeFailure).written;
          assert (start + written) + unzipped == start + (written + unzipped);
          dir.files := dir.files[fileName := dir.files[fileName] + unzipped];
      }
      i := i + 1;
    }
    assert entries[..i] == entries;
    return None;
  }

  /**
   * downloadFile: create the fragment file, then go through the abstract
   * results of the download, sending exactly one message on every path.
   */
  method DownloadFile(url: string, env: Environment, dir: Directory, ch: Channel)
    requires HasFragmentName(url)
    modifies dir, ch
    ensures ch.buffer == old(ch.buffer) + [WorkerRun(url, env).outcome]
    ensures dir.files == Deposit(old(dir.files), FragmentName(url), WorkerRun(url, env).fragment)
  {
    var s := Split(url, '/');
    var fileName := s[|s| - 3] + "-" + s[|s| - 2] + ".tsv";
    if env.createError.Some? {
      ch.Send(HTTPResponse(url, "", env.createError));
      return;
    }
    dir.files := dir.files[fileName := []];

    match env.transport
    case TransportFailed(e, response) =>
      // As written this reads resp.Status, which panics on a nil response.
      var status := if response.Some? then response.value else "";
      ch.Send(HTTPResponse(url, status, Some(e)));
    case Responded(code, status, body) =>
      if code != StatusOK {
        ch.Send(HTTPResponse(url, status, None));
        return;
      }
      match body
      case BodyReadFailed(e) =>
        ch.Send(HTTPResponse(url, status, Some(e)));
      case BodyRead(NotZip(e)) =>
        ch.Send(HTTPResponse(url, status, Some(e)));
      case BodyRead(Zip(entries)) =>
        var err := WriteTargetEntries(entries, env.writeFailure, dir, fileName);
        assert [] + Extract(entries, env.writeFailure).written == Extract(entries, env.writeFailure).written;
        ch.Send(HTTPResponse(url, status, err));
  }

  // ---------------------------------------------------------------------------
  // Running every worker

  predicate AllNamed(urls: seq<string>)
  {
    forall i :: 0 <= i < |urls| ==> HasFragmentName(urls[i])
  }

  /** The directory after the workers for `urls` ran one after another. */
  function DepositAll(files: map<string, seq<byte>>, urls: seq<string>, env: string -> Environment): map<string, seq<byte>>
    requires AllNamed(urls)
  {
    if urls == [] then files
    else
      var last := urls[|urls| - 1];
      Deposit(DepositAll(files, urls[..|urls| - 1], env), FragmentName(last), WorkerRun(last, env(last)).fragment)
  }

  predicate DistinctNames(urls: seq<string>)
    requires AllNamed(urls)
  {
    forall i, k :: 0 <= i < k < |urls| ==> FragmentName(urls[i]) != FragmentName(urls[k])
  }

  /** With distinct fragment names, every worker's file holds what that worker wrote. */
  lemma {:induction false} DepositAllKeepsEach(files: map<string, seq<byte>>, urls: seq<string>, env: string -> Environment, i: nat)
    requires AllNamed(urls) && DistinctNames(urls)
    requires i < |urls| && WorkerRun(urls[i], env(urls[i])).fragment.Some?
    ensures FragmentName(urls[i]) in DepositAll(files, urls, env)
    ensures DepositAll(files, urls, env)[FragmentName(urls[i])] == WorkerRun(urls[i], env(urls[i])).fragment.value
  {
    var init := urls[..|urls| - 1];
    if i < |urls| - 1 {
      assert init[i] == urls[i];
      DepositAllKeepsEach(files, init, env, i);
    }
  }

  /** The message each URL's worker sends, in URL order. */
  function Outcomes(urls: seq<string>, env: string -> Environment): (r: seq<HTTPResponse>)
    ensures |r| == |urls|
  {
    seq(|urls|, i requires 0 <= i < |urls| => WorkerRun(urls[i], env(urls[i])).outcome)
  }

  /** Dispatching the worker for urls[i] extends both the messages and the deposits by that worker's. */
  lemma DispatchStep(files: map<string, seq<byte>>, urls: seq<string>, env: string -> Environment, i: nat)
    requires AllNamed(urls) && i < |urls|
    ensures AllNamed(urls[..i]) && AllNamed(urls[..i + 1])
    ensures Outcomes(urls[..i + 1], env) == Outcomes(urls[..i], env) + [WorkerRun(urls[i], env(urls[i])).outcome]
    ensures DepositAll(files, urls[..i + 1], env)
         == Deposit(DepositAll(files, urls[..i], env), FragmentName(urls[i]), WorkerRun(urls[i], env(urls[i])).fragment)
  {
    assert urls[..i + 1][..i] == urls[..i];
  }

  /**
   * downloadFiles, run sequentially: one worker per URL, then exactly
   * |urls| messages drained from the channel, one per URL. (The Go code
   * drains them in arrival order.)
   */
  method DownloadFiles(urls: seq<string>, env: string -> Environment, dir: Directory)
    returns (logged: seq<HTTPResponse>)
    requires AllNamed(urls)
    modifies dir
    ensures |logged| == |urls|
    ensures forall i :: 0 <= i < |urls| ==> logged[i] == WorkerRun(urls[i], env(urls[i])).outcome
    ensures dir.files == DepositAll(old(dir.files), urls, env)
  {
    var ch := new Channel();
    for i := 0 to |urls|
      invariant ch.buffer == Outcomes(urls[..i], env)
      invariant dir.files == DepositAll(old(dir.files), urls[..i], env)
    {
      DispatchStep(old(dir.files), urls, env, i);
      DownloadFile(urls[i], env(urls[i]), dir, ch);
    }
    assert urls[..|urls|] == urls;
    ghost var sent := ch.buffer;
    assert sent == Outcomes(urls, env);
    assert |sent| == |urls|;
    logged := [];
    for i := 0 to |urls|
      invariant logged == sent[..i] && ch.buffer == sent[i..]
      invariant dir.files == DepositAll(old(dir.files), urls, env)
    {
      var r := ch.Receive();
      logged := logged + [r];
    }
    assert logged == sent[..|urls|] == sent;
  }

  lemma GeneratedUrlsNamed(es: seq<Endpoint>)
    ensures AllNamed(Urls(es))
  {
    forall i | 0 <= i < |es|
      ensures HasFragmentName(Urls(es)[i])
    {
      FragmentNameOfUrl(es[i]);
    }
  }

  /** Ordered endpoints give URLs whose fragment names never collide. */
  lemma OrderedUrlsDistinctNames(es: seq<Endpoint>)
    requires Ordered(es)
    ensures AllNamed(Urls(es)) && DistinctNames(Urls(es))
  {
    GeneratedUrlsNamed(es);
    forall i, k | 0 <= i < k < |es|
      ensures FragmentName(Urls(es)[i]) != FragmentName(Urls(es)[k])
    {
      OrderedDistinct(es);
      FragmentNameInjective(es[i], es[k]);
    }
  }

  /** Where the worker for `url` created its file, the directory holds what that worker wrote. */
  predicate HoldsOwnFragment(files: map<string, seq<byte>>, url: string, env: Environment)
  {
    WorkerRun(url, env).fragment.Some? ==>
      HasFragmentName(url) && FragmentName(url) in files && files[FragmentName(url)] == WorkerRun(url, env).fragment.value
  }

  /**
   * After the workers for ordered endpoints ran, each endpoint's file holds
   * its own fragment. The workers take the corrected transport path; as
   * written, a transport error without a response ends the process first.
   */
  lemma GeneratedFragmentKept(files: map<string, seq<byte>>, es: seq<Endpoint>, env: string -> Environment, e: Endpoint)
    requires Ordered(es) && e in es
    ensures AllNamed(Urls(es))
    ensures HoldsOwnFragment(DepositAll(files, Urls(es), env), Url(e), env(Url(e)))
  {
    OrderedUrlsDistinctNames(es);
    var i :| 0 <= i < |es| && es[i] == e;
    assert Urls(es)[i] == Url(e);
    if WorkerRun(Url(e), env(Url(e))).fragment.Some? {
      DepositAllKeepsEach(files, Urls(es), env, i);
    }
  }

  /**
   * DownloadIndexFiles without the directory bootstrap: every generated
   * endpoint yields one logged message, and every endpoint whose file could
   * be created ends with its own fragment in the directory.
   */
  method DownloadIndexFiles(startYear: int, endYear: int, currentYear: int, currentQuarter: int,
                            env: string -> Environment, dir: Directory)
    returns (logged: seq<HTTPResponse>)
    requires endYear - startYear + 1 >= 0
    modifies dir
    ensures var es := EndpointsOf(Years(startYear, endYear), currentYear, currentQuarter);
      |logged| == |es| &&
      forall i :: 0 <= i < |es| ==> logged[i] == WorkerRun(Url(es[i]), env(Url(es[i]))).outcome
    ensures forall e :: e in EndpointsOf(Years(startYear, endYear), currentYear, currentQuarter) ==>
      HoldsOwnFragment(dir.files, Url(e), env(Url(e)))
    ensures var urls := Urls(EndpointsOf(Years(startYear, endYear), currentYear, currentQuarter));
      AllNamed(urls) && dir.files == DepositAll(old(dir.files), urls, env)
  {
    var urls := GenerateURLs(startYear, endYear, currentYear, currentQuarter);
    ghost var es := EndpointsOf(Years(startYear, endYear), currentYear, currentQuarter);
    YearsIncreasing(startYear, endYear);
    EndpointsOrdered(Years(startYear, endYear), currentYear, currentQuarter);
    GeneratedUrlsNamed(es);
    ghost var files0 := dir.files;
    logged := DownloadFiles(urls, env, dir);
    ghost var files1 := dir.files;
    assert files1 == DepositAll(files0, Urls(es), env);
    forall e | e in es
      ensures HoldsOwnFragment(dir.files, Url(e), env(Url(e)))
    {
      GeneratedFragmentKept(files0, es, env, e);
    }
  }

}
