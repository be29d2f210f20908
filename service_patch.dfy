/** internal/service/patch.go: the Patch variant. An ordered scan of the rules with early
    exits decides whether to answer with a synthetic response; the handlers then write that
    response to the client or over a live upstream response. */
module ServicePatch {
  import opened Wrappers
  import opened GoBytes
  import opened GoRuntime
  import opened Http
  import opened ConfigTypes
  import opened Outcomes
  import ServiceUtils

  /** `inArray`: a linear search with an early `true`. */
  function InArray(verb: Str, acceptedMethods: seq<Str>): (r: bool)
    ensures r <==> verb in acceptedMethods
  {
    if acceptedMethods == [] then false
    else if acceptedMethods[0] == verb then true
    else InArray(verb, acceptedMethods[1..])
  }

  /** The body of the loop in `shouldPatch` for one rule, before the body is resolved. It is
      `isPatchable` except that a failed guard ends the scan where `isPatchable` only says no. */
  function Guard(request: Request, intercept: Intercept, search: Search): (s: Step)
    ensures var v := ServiceUtils.IsPatchable(ServiceUtils.VerifyParams(request.verb, request.url, []), intercept, search);
      && (s == Hit <==> v.matched)
      && (s == Stop(BadPattern) <==> v.err.Some?)
      && (s == Next <==> !v.matched && v.err.None? &&
                         ServiceUtils.MethodAccepted(request.verb, intercept.matcher.methods) &&
                         intercept.matcher.uri != [])
    ensures s == Stop(MethodNotAccepted) <==> !ServiceUtils.MethodAccepted(request.verb, intercept.matcher.methods)
    ensures s == Stop(EmptyPattern) <==>
      ServiceUtils.MethodAccepted(request.verb, intercept.matcher.methods) && intercept.matcher.uri == []
    ensures s.Stop? ==> s.reason in {MethodNotAccepted, EmptyPattern, BadPattern}
  {
    var methods := intercept.matcher.methods;
    if |methods| > 0 && !InArray(request.verb, methods) then Stop(MethodNotAccepted)
    else if intercept.matcher.uri == [] then Stop(EmptyPattern)
    else match search(intercept.matcher.uri, request.url)
      case None => Stop(BadPattern)
      case Some(matched) => if matched then Hit else Next
  }

  /** The status of a synthetic response: the rule's, or 200 when the rule leaves it 0. */
  function DefaultStatus(status: int): (s: int)
    ensures s != 0
    ensures status != 0 ==> s == status
    ensures status == 0 ==> s == 200
  {
    if status != 0 then status else 200
  }

  /** The answer of a matched rule: a file's contents for `file`, the literal for `string`
      and `json`, an empty body for any other type; an unreadable file declines. */
  function Resolve(patch: Patch, files: Files): (d: Decision)
    ensures d.Declined? <==> patch.bodyType == BodyTypeFile && patch.body !in files
    ensures d.Declined? ==> d.reason == FileUnreadable
    ensures d.Patched? ==> d.status == DefaultStatus(patch.status)
    ensures d.Patched? && patch.bodyType == BodyTypeFile ==> d.body == files[patch.body]
    ensures patch.bodyType in {BodyTypeString, BodyTypeJson} ==> d.Patched? && d.body == patch.body
    ensures patch.bodyType !in {BodyTypeFile, BodyTypeString, BodyTypeJson} ==> d.Patched? && d.body == []
  {
    BodyTypesDistinct();
    var body: Option<Bytes> :=
      if patch.bodyType == BodyTypeFile then ReadFile(files, patch.body)
      else if patch.bodyType == BodyTypeString || patch.bodyType == BodyTypeJson then Some(patch.body)
      else Some([]);
    if body.None? then Declined(FileUnreadable)
    else Patched(DefaultStatus(patch.status), body.value)
  }

  /** What one rule decides when the scan reaches it and it does not pass the scan on. */
  function Outcome(request: Request, intercept: Intercept, files: Files, search: Search): Decision
  {
    match Guard(request, intercept, search)
    case Stop(reason) => Declined(reason)
    case Hit => Resolve(intercept.patch, files)
    case Next => Declined(NoRuleMatched)
  }

  /** `shouldPatch`: rules are tried in order; the first rule that does not pass the scan on
      decides, and later rules are never looked at. */
  function ShouldPatch(request: Request, intercepts: seq<Intercept>, files: Files, search: Search): (d: Decision)
    ensures d.Patched? ==> exists k | 0 <= k < |intercepts| :: Guard(request, intercepts[k], search) == Hit
    ensures d == Declined(NoRuleMatched) ==>
      forall k | 0 <= k < |intercepts| :: Guard(request, intercepts[k], search) == Next
  {
    if intercepts == [] then Declined(NoRuleMatched)
    else match Guard(request, intercepts[0], search)
      case Stop(reason) => Declined(reason)
      case Hit => Resolve(intercepts[0].patch, files)
      case Next =>
        var d := ShouldPatch(request, intercepts[1..], files, search);
        assert d.Patched? ==> exists k | 1 <= k < |intercepts| :: Guard(request, intercepts[k], search) == Hit by {
          if d.Patched? {
            var k :| 0 <= k < |intercepts[1..]| && Guard(request, intercepts[1..][k], search) == Hit;
            assert intercepts[1..][k] == intercepts[k + 1];
          }
        }
        d
  }

  /** Index of the first rule that does not pass the scan on, or `|intercepts|` if none. */
  function FirstDecisive(request: Request, intercepts: seq<Intercept>, search: Search): (k: nat)
    ensures k <= |intercepts|
    ensures forall j | 0 <= j < k :: Guard(request, intercepts[j], search) == Next
    ensures k < |intercepts| ==> Guard(request, intercepts[k], search) != Next
  {
    if intercepts == [] then 0
    else if Guard(request, intercepts[0], search) != Next then 0
    else 1 + FirstDecisive(request, intercepts[1..], search)
  }

  /** The scan, restated: the first decisive rule's outcome, or "no rule matched". */
  lemma {:induction false} ShouldPatchIsFirstDecisive(request: Request, intercepts: seq<Intercept>, files: Files, search: Search)
    ensures var k := FirstDecisive(request, intercepts, search);
      ShouldPatch(request, intercepts, files, search) ==
        if k == |intercepts| then Declined(NoRuleMatched) else Outcome(request, intercepts[k], files, search)
  {
    if intercepts != [] && Guard(request, intercepts[0], search) == Next {
      ShouldPatchIsFirstDecisive(request, intercepts[1..], files, search);
      var k := FirstDecisive(request, intercepts[1..], search);
      if k < |intercepts[1..]| {
        assert intercepts[1..][k] == intercepts[k + 1];
      }
    }
  }

  /** A rule that ends the scan at position `k` decides it, whatever comes after it:
      a method mismatch, an empty pattern or a bad pattern declines even if a later rule
      would match. */
  lemma RuleDecides(request: Request, intercepts: seq<Intercept>, files: Files, search: Search, k: nat)
    requires k < |intercepts|
    requires forall j | 0 <= j < k :: Guard(request, intercepts[j], search) == Next
    requires Guard(request, intercepts[k], search) != Next
    ensures ShouldPatch(request, intercepts, files, search) == Outcome(request, intercepts[k], files, search)
  {
    ShouldPatchIsFirstDecisive(request, intercepts, files, search);
    var m := FirstDecisive(request, intercepts, search);
    assert !(m < k) && !(k < m);
  }

  /** Rules after a decisive one have no effect. */
  lemma LaterRulesIgnored(request: Request, intercepts: seq<Intercept>, later: seq<Intercept>, files: Files, search: Search)
    requires FirstDecisive(request, intercepts, search) < |intercepts|
    ensures ShouldPatch(request, intercepts + later, files, search) == ShouldPatch(request, intercepts, files, search)
  {
    var k := FirstDecisive(request, intercepts, search);
    var all := intercepts + later;
    assert forall j | 0 <= j <= k :: all[j] == intercepts[j];
    RuleDecides(request, all, files, search, k);
    RuleDecides(request, intercepts, files, search, k);
  }

  /** `ok` only for the first matching rule: every earlier rule passed the method check, had
      a pattern, compiled and did not match; status and body are that rule's. */
  lemma PatchedByFirstMatch(request: Request, intercepts: seq<Intercept>, files: Files, search: Search)
    requires ShouldPatch(request, intercepts, files, search).Patched?
    ensures var k := FirstDecisive(request, intercepts, search);
      && k < |intercepts|
      && Guard(request, intercepts[k], search) == Hit
      && ShouldPatch(request, intercepts, files, search) == Resolve(intercepts[k].patch, files)
      && forall j | 0 <= j < k ::
           var v := ServiceUtils.IsPatchable(ServiceUtils.VerifyParams(request.verb, request.url, []), intercepts[j], search);
           ServiceUtils.MethodAccepted(request.verb, intercepts[j].matcher.methods) &&
           intercepts[j].matcher.uri != [] && !v.matched && v.err.None?
  {
    ShouldPatchIsFirstDecisive(request, intercepts, files, search);
  }

  /** A matched `file` rule whose file is missing declines; the scan does not go on. */
  lemma UnreadableFileDeclines(request: Request, intercepts: seq<Intercept>, files: Files, search: Search, k: nat)
    requires k < |intercepts|
    requires forall j | 0 <= j < k :: Guard(request, intercepts[j], search) == Next
    requires Guard(request, intercepts[k], search) == Hit
    requires intercepts[k].patch.bodyType == BodyTypeFile && intercepts[k].patch.body !in files
    ensures ShouldPatch(request, intercepts, files, search) == Declined(FileUnreadable)
  {
    RuleDecides(request, intercepts, files, search, k);
  }

  datatype PatchService = PatchService(interceptConfig: ConfigData) {

    /** `HandleRequest`: on a match, writes the status and then the body and reports the
        request handled; otherwise writes nothing. */
    method HandleRequest(w: ResponseWriter, r: Request, files: Files, search: Search) returns (handled: bool)
      modifies w
      ensures var d := ShouldPatch(r, interceptConfig.intercept.requests, files, search);
        && handled == d.Patched?
        && (d.Patched? ==>
              w.status == (if old(w.status).None? then Some(d.status) else old(w.status)) &&
              w.written == old(w.written) + d.body)
        && (d.Declined? ==> w.status == old(w.status) && w.written == old(w.written))
    {
      var d := ShouldPatch(r, interceptConfig.intercept.requests, files, search);
      if d.Patched? {
        w.WriteHeader(d.status);
        w.Write(d.body);
        return true;
      }
      return false;
    }

    /** `HandleResponse`: matches the response rules against the originating request; on a
        match replaces body, content length and status; headers are never touched. */
    method HandleResponse(r: Response, files: Files, search: Search)
      modifies r
      ensures var d := ShouldPatch(r.request, interceptConfig.intercept.responses, files, search);
        && (d.Patched? ==>
              r.body == ReaderOf(d.body) && r.contentLength == |d.body| && r.statusCode == d.status)
        && (d.Declined? ==>
              r.body == old(r.body) && r.contentLength == old(r.contentLength) && r.statusCode == old(r.statusCode))
      ensures r.header == old(r.header)
    {
      var d := ShouldPatch(r.request, interceptConfig.intercept.responses, files, search);
      if d.Patched? {
        r.Overwrite(d.status, d.body);
      }
    }
  }
}
