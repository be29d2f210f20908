/** main.go: the oldest matcher. Like app/pigo.go, except that an empty pattern is handed to
    the regex engine like any other. */
module MainPigo {
  import opened Wrappers
  import opened GoBytes
  import opened GoRuntime
  import opened Http
  import opened Outcomes
  import opened LegacyConfig
  import AppPigo

  /** One rule's guard: only the regex search decides. */
  function Guard(uri: Str, patch: Patch, search: Search): (s: Step)
    ensures s == Stop(BadPattern) <==> search(patch.pattern, uri).None?
    ensures s == Hit <==> search(patch.pattern, uri) == Some(true)
    ensures s == Next <==> search(patch.pattern, uri) == Some(false)
  {
    match search(patch.pattern, uri)
    case None => Stop(BadPattern)
    case Some(matched) => if matched then Hit else Next
  }

  /** The loop shared by `shouldPatchRequest` and `shouldPatchResponse`; the body of a matched
      rule is resolved exactly as in app/pigo.go. */
  function Scan(uri: Str, patches: seq<Patch>, files: Files, search: Search): (d: Decision)
    ensures d.Patched? ==> FirstHit(uri, patches, files, search, d)
    ensures d.Declined? ==> d.reason in {BadPattern, FileUnreadable, NoRuleMatched}
    ensures d == Declined(NoRuleMatched) ==> forall k | 0 <= k < |patches| :: Guard(uri, patches[k], search) == Next
    ensures (forall k | 0 <= k < |patches| :: Guard(uri, patches[k], search) == Next) ==> d == Declined(NoRuleMatched)
  {
    if patches == [] then Declined(NoRuleMatched)
    else match Guard(uri, patches[0], search)
      case Stop(reason) => Declined(reason)
      case Hit => AppPigo.Resolve(patches[0], files)
      case Next =>
        var d := Scan(uri, patches[1..], files, search);
        assert FirstHit(uri, patches[1..], files, search, d) ==> FirstHit(uri, patches, files, search, d) by {
          if FirstHit(uri, patches[1..], files, search, d) {
            var k :| 0 <= k < |patches[1..]| && Guard(uri, patches[1..][k], search) == Hit &&
                     d == AppPigo.Resolve(patches[1..][k], files) &&
                     forall j | 0 <= j < k :: Guard(uri, patches[1..][j], search) == Next;
            assert patches[1..][k] == patches[k + 1];
            assert forall j | 1 <= j < k + 1 :: patches[j] == patches[1..][j - 1];
          }
        }
        d
  }

  /** What one rule decides when the scan reaches it and it does not pass the scan on. */
  function Outcome(uri: Str, patch: Patch, files: Files, search: Search): Decision
  {
    match Guard(uri, patch, search)
    case Stop(reason) => Declined(reason)
    case Hit => AppPigo.Resolve(patch, files)
    case Next => Declined(NoRuleMatched)
  }

  /** The rule at `k` decides the scan when every earlier rule passed it on, whatever the
      later rules hold: a match answers with that rule, a bad pattern or an unreadable file
      declines. */
  lemma {:induction false} ScanDecidedAt(uri: Str, patches: seq<Patch>, files: Files, search: Search, k: nat)
    requires k < |patches|
    requires forall j | 0 <= j < k :: Guard(uri, patches[j], search) == Next
    requires Guard(uri, patches[k], search) != Next
    ensures Scan(uri, patches, files, search) == Outcome(uri, patches[k], files, search)
  {
    if k > 0 {
      assert patches[1..][k - 1] == patches[k];
      assert forall j | 0 <= j < k - 1 :: patches[1..][j] == patches[j + 1];
      ScanDecidedAt(uri, patches[1..], files, search, k - 1);
    }
  }

  /** `ScanDecidedAt` for every position at once. */
  lemma ScanFirstDecisive(uri: Str, patches: seq<Patch>, files: Files, search: Search)
    ensures forall k | 0 <= k < |patches| && Guard(uri, patches[k], search) != Next &&
                       (forall j | 0 <= j < k :: Guard(uri, patches[j], search) == Next) ::
      Scan(uri, patches, files, search) == Outcome(uri, patches[k], files, search)
  {
    forall k | 0 <= k < |patches| && Guard(uri, patches[k], search) != Next &&
               (forall j | 0 <= j < k :: Guard(uri, patches[j], search) == Next)
    {
      ScanDecidedAt(uri, patches, files, search, k);
    }
  }

  /** `d` is the answer of the first rule that matches, every earlier rule having a pattern
      that compiled and did not match. */
  ghost predicate FirstHit(uri: Str, patches: seq<Patch>, files: Files, search: Search, d: Decision)
  {
    exists k | 0 <= k < |patches| ::
      && Guard(uri, patches[k], search) == Hit
      && d == AppPigo.Resolve(patches[k], files)
      && forall j | 0 <= j < k :: Guard(uri, patches[j], search) == Next
  }

  /** Request rules are matched against the request URI alone: the first matching rule wins,
      and a bad pattern or an unreadable file before any match declines. */
  function ShouldPatchRequest(patchConfig: Config, uri: Str, files: Files, search: Search): (d: Decision)
    ensures d.Patched? ==> FirstHit(uri, patchConfig.patches.requests, files, search, d)
    ensures forall k | 0 <= k < |patchConfig.patches.requests| &&
                       Guard(uri, patchConfig.patches.requests[k], search) != Next &&
                       (forall j | 0 <= j < k :: Guard(uri, patchConfig.patches.requests[j], search) == Next) ::
      d == Outcome(uri, patchConfig.patches.requests[k], files, search)
    ensures d == Declined(NoRuleMatched) ==>
      forall k | 0 <= k < |patchConfig.patches.requests| :: Guard(uri, patchConfig.patches.requests[k], search) == Next
  {
    ScanFirstDecisive(uri, patchConfig.patches.requests, files, search);
    Scan(uri, patchConfig.patches.requests, files, search)
  }

  /** Response rules are matched against the originating request's `URL.String()`. */
  function ShouldPatchResponse(patchConfig: Config, resp: Response, files: Files, search: Search): (d: Decision)
    ensures d == ShouldPatchRequest(patchConfig.(patches := patchConfig.patches.(requests := patchConfig.patches.responses)),
                                    resp.request.url, files, search)
    ensures d.Patched? ==> FirstHit(resp.request.url, patchConfig.patches.responses, files, search, d)
  {
    Scan(resp.request.url, patchConfig.patches.responses, files, search)
  }

  /** The `ModifyResponse` hook: rewrites body, content length and status on a match. */
  method ModifyResponse(patchConfig: Config, resp: Response, files: Files, search: Search)
    modifies resp
    ensures var d := ShouldPatchResponse(patchConfig, resp, files, search);
      && (d.Patched? ==>
            resp.body == ReaderOf(d.body) && resp.contentLength == |d.body| && resp.statusCode == d.status)
      && (d.Declined? ==>
            resp.body == old(resp.body) && resp.contentLength == old(resp.contentLength) &&
            resp.statusCode == old(resp.statusCode))
    ensures resp.header == old(resp.header)
  {
    var d := ShouldPatchResponse(patchConfig, resp, files, search);
    if d.Patched? {
      resp.Overwrite(d.status, d.body);
    }
  }
}
