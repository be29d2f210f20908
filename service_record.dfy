/** internal/service/record.go: the Record variant. Every response rule that matches the
    originating request captures the live response body to a file and puts the same bytes
    back on the response; the client's view of status and headers never changes. */
module ServiceRecord {
  import opened Wrappers
  import opened GoBytes
  import opened GoRuntime
  import opened Http
  import opened ConfigTypes
  import ServiceUtils

  const MaxCharsFileName: nat := 200
  const DefaultFileExtension: Str := Ascii("json")

  datatype RecordService = RecordService(interceptConfig: ConfigData) {

    /** `HandleRequest`: recording never answers a request itself, and writes nothing. */
    method HandleRequest(w: ResponseWriter, r: Request) returns (handled: bool)
      ensures !handled
    {
      // The source's loop returns in its first iteration, if it has one.
      if |interceptConfig.intercept.requests| > 0 {
        return false;
      }
      return false;
    }

    /** `HandleResponse`: `shouldRecord` for every response rule in order, with no early
        exit. */
    method HandleResponse(r: Response, fs: FileSystem, search: Search)
      modifies r, fs
      ensures RecordState(fs.files, r.body) ==
        RecordAll(RecordState(old(fs.files), old(r.body)), r.request, interceptConfig.intercept.responses, search, fs.outcome)
      ensures r.statusCode == old(r.statusCode) && r.contentLength == old(r.contentLength)
      ensures r.header == old(r.header)
    {
      var rules := interceptConfig.intercept.responses;
      for i := 0 to |rules|
        invariant RecordState(fs.files, r.body) ==
          RecordAll(RecordState(old(fs.files), old(r.body)), r.request, rules[..i], search, fs.outcome)
        invariant r.statusCode == old(r.statusCode) && r.contentLength == old(r.contentLength)
        invariant r.header == old(r.header)
      {
        var _ := ShouldRecord(r, rules[i], fs, search);
        assert rules[..i + 1][..i] == rules[..i];
      }
      assert rules[..|rules|] == rules;
    }
  }

  /** `newRecordService`: the copied configuration with its two rule lists exchanged, so the
      rules configured for requests are the ones that decide what to record. */
  function NewRecordService(c: ConfigData): (s: RecordService)
    ensures s.interceptConfig.intercept.requests == c.intercept.responses
    ensures s.interceptConfig.intercept.responses == c.intercept.requests
    ensures s.interceptConfig.targetURL == c.targetURL
    ensures s.interceptConfig.authentication == c.authentication
    ensures s.interceptConfig.filePath == c.filePath
  {
    var c' := c.(intercept := InterceptGroup(c.intercept.requests, c.intercept.responses));
    RecordService(c')
  }

  /** `"{Method}_{URL}.json"` with every `/` replaced by `_`, before truncation. */
  function FullName(request: Request): (name: Str)
    ensures |name| == |request.verb| + |request.url| + 6
    ensures Slash !in name
  {
    var raw := request.verb + [Underscore] + request.url + [Dot] + DefaultFileExtension;
    ReplaceAllRemoves(raw, Slash, [Underscore]);
    assert Count(raw, Slash) * 1 == Count(raw, Slash);
    ReplaceAll(raw, Slash, [Underscore])
  }

  /** The file a matched rule records to: a `file` rule's body verbatim, otherwise the
      synthesised name cut to its first 200 bytes. */
  function Filename(request: Request, intercept: Intercept): (name: Str)
    ensures intercept.patch.bodyType == BodyTypeFile ==> name == intercept.patch.body
    ensures intercept.patch.bodyType != BodyTypeFile ==>
      && |name| <= MaxCharsFileName
      && Slash !in name
      && name <= FullName(request)
      && (|FullName(request)| <= MaxCharsFileName ==> name == FullName(request))
      && (|FullName(request)| > MaxCharsFileName ==> |name| == MaxCharsFileName)
  {
    if intercept.patch.bodyType == BodyTypeFile then intercept.patch.body
    else
      var full := FullName(request);
      var name := Truncate(full, MaxCharsFileName);
      assert forall i | 0 <= i < |name| :: name[i] == full[i];
      name
  }

  /** The parts of the world recording touches: the files and the response's body stream. */
  datatype RecordState = RecordState(files: Files, body: BodyStream)

  function Params(request: Request): ServiceUtils.VerifyParams
  {
    ServiceUtils.VerifyParams(request.verb, request.url, [])
  }

  /** `shouldRecord` for one rule: no match (or a pattern error) changes nothing; a match
      drains the body, writes it to the rule's file and re-attaches the same bytes. A failed
      read leaves the files as they were; a failed write leaves the file as `os.WriteFile`
      left it. Either failure leaves the drained stream in place. */
  function RecordStep(st: RecordState, request: Request, intercept: Intercept, search: Search, outcome: Str -> WriteOutcome): (r: RecordState)
    ensures !ServiceUtils.IsPatchable(Params(request), intercept, search).matched ==> r == st
    ensures ServiceUtils.IsPatchable(Params(request), intercept, search).matched && !st.body.broken &&
            outcome(Filename(request, intercept)).Completed? ==>
      && r.files == st.files[Filename(request, intercept) := st.body.pending]
      && r.body == ReaderOf(r.files[Filename(request, intercept)])
    ensures ServiceUtils.IsPatchable(Params(request), intercept, search).matched && st.body.broken ==>
      r.files == st.files && r.body == Drained(st.body)
    ensures ServiceUtils.IsPatchable(Params(request), intercept, search).matched && !st.body.broken &&
            !outcome(Filename(request, intercept)).Completed? ==>
      var name := Filename(request, intercept);
      && r.body == Drained(st.body)
      && (outcome(name).NotOpened? ==> r.files == st.files)
      && (outcome(name).CutShort? ==>
            && r.files.Keys == st.files.Keys + {name}
            && r.files[name] <= st.body.pending
            && forall p | p in st.files && p != name :: r.files[p] == st.files[p])
  {
    if !ServiceUtils.IsPatchable(Params(request), intercept, search).matched then st
    else
      var name := Filename(request, intercept);
      match ReadAll(st.body)
      case None => st.(body := Drained(st.body))
      case Some(data) =>
        var files := AfterWrite(st.files, name, data, outcome(name));
        if outcome(name).Completed? then RecordState(files, ReaderOf(data))
        else RecordState(files, Drained(st.body))
  }

  /** `HandleResponse`'s loop as a fold of `RecordStep` over the rules, first to last. */
  function RecordAll(st: RecordState, request: Request, intercepts: seq<Intercept>, search: Search, outcome: Str -> WriteOutcome): RecordState
    decreases |intercepts|
  {
    if intercepts == [] then st
    else RecordStep(RecordAll(st, request, intercepts[..|intercepts| - 1], search, outcome),
                    request, intercepts[|intercepts| - 1], search, outcome)
  }

  /** The files the rules record to: exactly the filenames of the matching rules. */
  function RecordedNames(request: Request, intercepts: seq<Intercept>, search: Search): (names: set<Str>)
    ensures forall k | 0 <= k < |intercepts| && ServiceUtils.IsPatchable(Params(request), intercepts[k], search).matched ::
      Filename(request, intercepts[k]) in names
    ensures forall p | p in names :: exists k | 0 <= k < |intercepts| ::
      ServiceUtils.IsPatchable(Params(request), intercepts[k], search).matched && Filename(request, intercepts[k]) == p
    decreases |intercepts|
  {
    if intercepts == [] then {}
    else
      var init := intercepts[..|intercepts| - 1];
      var last := intercepts[|intercepts| - 1];
      var names := RecordedNames(request, init, search);
      assert forall k | 0 <= k < |init| :: init[k] == intercepts[k];
      if ServiceUtils.IsPatchable(Params(request), last, search).matched then names + {Filename(request, last)}
      else names
  }

  /** `shouldRecord` on the live objects. Its result is `true` for every matching rule, also
      when the read or the write then fails (the named result is not reset on those paths). */
  method ShouldRecord(response: Response, intercept: Intercept, fs: FileSystem, search: Search) returns (ok: bool)
    modifies response, fs
    ensures ok == ServiceUtils.IsPatchable(Params(response.request), intercept, search).matched
    ensures RecordState(fs.files, response.body) ==
      RecordStep(RecordState(old(fs.files), old(response.body)), response.request, intercept, search, fs.outcome)
    ensures response.statusCode == old(response.statusCode) && response.contentLength == old(response.contentLength)
    ensures response.header == old(response.header)
  {
    var verdict := ServiceUtils.IsPatchable(Params(response.request), intercept, search);
    ok := verdict.matched;
    if verdict.err.Some? {
      return;
    }
    if ok {
      var filename := Filename(response.request, intercept);
      var body := ReadAll(response.body);
      response.body := Drained(response.body);
      if body.None? {
        return;
      }
      var written := fs.WriteFile(filename, body.value);
      if !written {
        return;
      }
      response.body := ReaderOf(body.value);
      return true;
    }
  }

  /** With a readable upstream body and writes that complete, recording leaves the client the
      same bytes and gives every matching rule's file exactly those bytes; other files keep
      their contents. */
  lemma {:induction false} RecordAllCapturesBody(st: RecordState, request: Request, intercepts: seq<Intercept>, search: Search, outcome: Str -> WriteOutcome)
    requires !st.body.broken
    requires forall k | 0 <= k < |intercepts| :: outcome(Filename(request, intercepts[k])).Completed?
    ensures var r := RecordAll(st, request, intercepts, search, outcome);
      var names := RecordedNames(request, intercepts, search);
      && r.body == ReaderOf(st.body.pending)
      && r.files.Keys == st.files.Keys + names
      && (forall p | p in names :: r.files[p] == st.body.pending)
      && (forall p | p in st.files && p !in names :: r.files[p] == st.files[p])
    decreases |intercepts|
  {
    if intercepts != [] {
      var init := intercepts[..|intercepts| - 1];
      var last := intercepts[|intercepts| - 1];
      assert forall k | 0 <= k < |init| :: init[k] == intercepts[k];
      RecordAllCapturesBody(st, request, init, search, outcome);
    }
  }

  /** When no rule matches, recording changes nothing, however the body stream behaves. */
  lemma {:induction false} RecordAllNoMatch(st: RecordState, request: Request, intercepts: seq<Intercept>, search: Search, outcome: Str -> WriteOutcome)
    requires forall k | 0 <= k < |intercepts| :: !ServiceUtils.IsPatchable(Params(request), intercepts[k], search).matched
    ensures RecordAll(st, request, intercepts, search, outcome) == st
    decreases |intercepts|
  {
    if intercepts != [] {
      var init := intercepts[..|intercepts| - 1];
      assert forall k | 0 <= k < |init| :: init[k] == intercepts[k];
      RecordAllNoMatch(st, request, init, search, outcome);
    }
  }
}
