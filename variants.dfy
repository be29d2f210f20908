/** How the three matchers differ. A legacy rule is a newer rule with no method list; read
    that way, app/pigo.go decides exactly as internal/service/patch.go except for the status
    default, and main.go decides as app/pigo.go except on empty patterns. */
module Variants {
  import opened Wrappers
  import opened GoBytes
  import opened GoRuntime
  import opened Http
  import opened Outcomes
  import ConfigTypes
  import LegacyConfig
  import ServicePatch
  import AppPigo
  import MainPigo

  /** A legacy rule as a newer rule: same pattern, no method list, same patch. */
  function Lift(p: LegacyConfig.Patch): (i: ConfigTypes.Intercept)
    ensures i.matcher.uri == p.pattern && i.matcher.methods == []
    ensures i.patch == ConfigTypes.Patch(p.status, p.body, p.bodyType)
  {
    ConfigTypes.Intercept(ConfigTypes.Match(p.pattern, [], []), ConfigTypes.Patch(p.status, p.body, p.bodyType))
  }

  function LiftAll(ps: seq<LegacyConfig.Patch>): (r: seq<ConfigTypes.Intercept>)
    ensures |r| == |ps|
    ensures forall k | 0 <= k < |ps| :: r[k] == Lift(ps[k])
  {
    if ps == [] then [] else [Lift(ps[0])] + LiftAll(ps[1..])
  }

  /** `s` is `a` with a 0 status turned into 200. */
  predicate SameButDefaultStatus(a: Decision, s: Decision)
  {
    match a
    case Declined(_) => s == a
    case Patched(status, body) => s == Patched(ServicePatch.DefaultStatus(status), body)
  }

  /** app/pigo.go and internal/service/patch.go make the same decision for every method
      (lifted rules accept any) and every rule list, given the same URI, except that the newer
      engine answers 200 where the older one answers 0. The URI each is given differs in the
      source: app/pigo.go's request path matches `req.RequestURI`, patch.go matches
      `request.URL.String()`; on the response path both match the request's `URL.String()`. */
  lemma {:induction false} AppAgreesWithService(verb: Str, uri: Str, ps: seq<LegacyConfig.Patch>, files: Files, search: Search)
    ensures SameButDefaultStatus(AppPigo.Scan(uri, ps, files, search),
                                 ServicePatch.ShouldPatch(Request(verb, uri), LiftAll(ps), files, search))
  {
    if ps != [] {
      var lifted := LiftAll(ps);
      assert lifted[1..] == LiftAll(ps[1..]);
      AppAgreesWithService(verb, uri, ps[1..], files, search);
    }
  }

  /** When no rule has an empty pattern, main.go and app/pigo.go decide alike. */
  lemma {:induction false} MainAgreesWithApp(uri: Str, ps: seq<LegacyConfig.Patch>, files: Files, search: Search)
    requires forall k | 0 <= k < |ps| :: ps[k].pattern != []
    ensures MainPigo.Scan(uri, ps, files, search) == AppPigo.Scan(uri, ps, files, search)
  {
    if ps != [] {
      MainAgreesWithApp(uri, ps[1..], files, search);
    }
  }

  /** The two legacy matchers part on an empty pattern: at the first empty pattern, after
      rules that passed the scan on in both, app/pigo.go stops, while main.go asks the regex
      engine and, if the empty pattern matches, answers with that rule. */
  lemma {:induction false} EmptyPatternSplitsLegacyMatchers(uri: Str, ps: seq<LegacyConfig.Patch>, files: Files, search: Search, k: nat)
    requires k < |ps| && ps[k].pattern == [] && search([], uri) == Some(true)
    requires forall j | 0 <= j < k :: AppPigo.Guard(uri, ps[j], search) == Next
    ensures AppPigo.Scan(uri, ps, files, search) == Declined(EmptyPattern)
    ensures MainPigo.Scan(uri, ps, files, search) == AppPigo.Resolve(ps[k], files)
  {
    if k > 0 {
      assert forall j | 0 <= j < k - 1 :: ps[1..][j] == ps[j + 1];
      EmptyPatternSplitsLegacyMatchers(uri, ps[1..], files, search, k - 1);
    }
  }
}
