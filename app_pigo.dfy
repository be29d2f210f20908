/** app/pigo.go: the older matcher over the global `patchConfig`. Rules match on the URI
    alone; an empty pattern ends the scan; the status is the rule's, 0 if unset. */
module AppPigo {
  import opened Wrappers
  import opened GoBytes
  import opened GoRuntime
  import opened Http
  import opened Outcomes
  import opened LegacyConfig

  /** One rule's guard: no method check; an empty pattern ends the scan. */
  function Guard(uri: Str, patch: Patch, search: Search): (s: Step)
    ensures s == Stop(EmptyPattern) <==> patch.pattern == []
    ensures s == Stop(BadPattern) <==> patch.pattern != [] && search(patch.pattern, uri).None?
    ensures s == Hit <==> patch.pattern != [] && search(patch.pattern, uri) == Some(true)
    ensures s == Next <==> patch.pattern != [] && search(patch.pattern, uri) == Some(false)
  {
    if patch.pattern == [] then Stop(EmptyPattern)
    else match search(patch.pattern, uri)
      case None => Stop(BadPattern)
      case Some(matched) => if matched then Hit else Next
  }

  /** The answer of a matched rule: as in the newer engine, except that the status is the
      rule's own, which stays 0 when the rule leaves it unset. */
  function Resolve(patch: Patch, files: Files): (d: Decision)
    ensures d.Declined? <==> patch.bodyType == BodyTypeFile && patch.body !in files
    ensures d.Declined? ==> d.reason == FileUnreadable
    ensures d.Patched? ==> d.status == patch.status
    ensures d.Patched? && patch.bodyType == BodyTypeFile ==> d.body == files[patch.body]
    ensures patch.bodyType in {BodyTypeString, BodyTypeJson} ==> d.Patched? && d.body == patch.body
    ensures patch.bodyType !in {BodyTypeFile, BodyTypeString, BodyTypeJson} ==> d.Patched? && d.body == []
  {
    assert BodyTypeFile[0] != BodyTypeJson[0];
    var body: Option<Bytes> :=
      if patch.bodyType == BodyTypeFile then ReadFile(files, patch.body)
      else if patch.bodyType == BodyTypeString || patch.bodyType == BodyTypeJson then Some(patch.body)
      else Some([]);
    if body.None? then Declined(FileUnreadable)
    else Patched(patch.status, body.value)
  }

  /** The loop shared by `shouldPatchRequest` and `shouldPatchResponse`. */
  function Scan(uri: Str, patches: seq<Patch>, files: Files, search: Search): (d: Decision)
    ensures d.Patched? ==> FirstHit(uri, patches, files, search, d)
    ensures d == Declined(NoRuleMatched) ==> forall k | 0 <= k < |patches| :: Guard(uri, patches[k], search) == Next
  {
    if patches == [] then Declined(NoRuleMatched)
    else match Guard(uri, patches[0], search)
      case Stop(reason) => Declined(reason)
      case Hit => Resolve(patches[0], files)
      case Next =>
        var d := Scan(uri, patches[1..], files, search);
        assert FirstHit(uri, patches[1..], files, search, d) ==> FirstHit(uri, patches, files, search, d) by {
          if FirstHit(uri, patches[1..], files, search, d) {
            var k :| 0 <= k < |patches[1..]| && Guard(uri, patches[1..][k], search) == Hit &&
                     d == Resolve(patches[1..][k], files) &&
                     forall j | 0 <= j < k :: Guard(uri, patches[1..][j], search) == Next;
            assert patches[1..][k] == patches[k + 1];
            assert forall j | 1 <= j < k + 1 :: patches[j] == patches[1..][j - 1];
          }
        }
        d
  }

  /** `d` is the answer of the first rule that matches, every earlier rule having a pattern
      that compiled and did not match. */
  ghost predicate FirstHit(uri: Str, patches: seq<Patch>, files: Files, search: Search, d: Decision)
  {
    exists k | 0 <= k < |patches| ::
      && Guard(uri, patches[k], search) == Hit
      && d == Resolve(patches[k], files)
      && forall j | 0 <= j < k :: Guard(uri, patches[j], search) == Next
  }

  /** Request rules are matched against the request URI alone: the first matching rule wins. */
  function ShouldPatchRequest(patchConfig: Config, uri: Str, files: Files, search: Search): (d: Decision)
    ensures d.Patched? ==> FirstHit(uri, patchConfig.patches.requests, files, search, d)
    ensures d == Declined(NoRuleMatched) ==>
      forall k | 0 <= k < |patchConfig.patches.requests| :: Guard(uri, patchConfig.patches.requests[k], search) == Next
  {
    Scan(uri, patchConfig.patches.requests, files, search)
  }

  /** Response rules are matched against the originating request's `URL.String()`. */
  function ShouldPatchResponse(patchConfig: Config, resp: Response, files: Files, search: Search): (d: Decision)
    ensures d == ShouldPatchRequest(patchConfig.(patches := patchConfig.patches.(requests := patchConfig.patches.responses)),
                                    resp.request.url, files, search)
    ensures d.Patched? ==> FirstHit(resp.request.url, patchConfig.patches.responses, files, search, d)
  {
    Scan(resp.request.url, patchConfig.patches.responses, files, search)
  }

  /** The `ModifyResponse` hook: rewrites body, content length and status on a match. */
  method ModifyResponse(patchConfig: Config, resp: Response, files: Files, search: Search)
    modifies resp
    ensures var d := ShouldPatchResponse(patchConfig, resp, files, search);
      && (d.Patched? ==>
            resp.body == ReaderOf(d.body) && resp.contentLength == |d.body| && resp.statusCode == d.status)
      && (d.Declined? ==>
            resp.body == old(resp.body) && resp.contentLength == old(resp.contentLength) &&
            resp.statusCode == old(resp.statusCode))
    ensures resp.header == old(resp.header)
  {
    var d := ShouldPatchResponse(patchConfig, resp, files, search);
    if d.Patched? {
      resp.Overwrite(d.status, d.body);
    }
  }
}
