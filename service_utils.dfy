/** internal/service/utils.go: whether one intercept rule applies to a (method, uri) pair. */
module ServiceUtils {
  import opened Wrappers
  import opened GoBytes
  import opened GoRuntime
  import opened ConfigTypes

  /** `verifyInterceptParams`. */
  datatype VerifyParams = VerifyParams(verb: Str, uri: Str, params: seq<Param>)

  /** A pattern that does not compile. */
  datatype PatternError = PatternError(pattern: Str)

  /** `isPatchable`'s `(bool, error)`. */
  datatype Verdict = Verdict(matched: bool, err: Option<PatternError>)

  /** The method guard: an empty list accepts every method (`stuff.InArray` is membership). */
  predicate MethodAccepted(verb: Str, methods: seq<Str>)
  {
    |methods| == 0 || verb in methods
  }

  /** `isPatchable`: the method guard, then the non-empty-pattern guard, then an unanchored
      regex search of the rule's URI pattern in `v.uri`. */
  function IsPatchable(v: VerifyParams, intercept: Intercept, search: Search): (r: Verdict)
    ensures !MethodAccepted(v.verb, intercept.matcher.methods) ==> r == Verdict(false, None)
    ensures intercept.matcher.uri == [] ==> r == Verdict(false, None)
    ensures r.err.Some? <==>
      MethodAccepted(v.verb, intercept.matcher.methods) && intercept.matcher.uri != [] &&
      search(intercept.matcher.uri, v.uri).None?
    ensures r.err.Some? ==> !r.matched && r.err.value.pattern == intercept.matcher.uri
    ensures r.matched <==>
      MethodAccepted(v.verb, intercept.matcher.methods) && intercept.matcher.uri != [] &&
      search(intercept.matcher.uri, v.uri) == Some(true)
  {
    var methods := intercept.matcher.methods;
    if |methods| > 0 && v.verb !in methods then Verdict(false, None)
    else if intercept.matcher.uri == [] then Verdict(false, None)
    else match search(intercept.matcher.uri, v.uri)
      case None => Verdict(false, Some(PatternError(intercept.matcher.uri)))
      case Some(matched) => Verdict(matched, None)
  }

  /** The `params` field is never consulted, and neither is `Match.Params`. */
  lemma ParamsIgnored(v: VerifyParams, intercept: Intercept, search: Search, params: seq<Param>, matchParams: seq<Param>)
    ensures IsPatchable(v.(params := params), intercept, search) ==
            IsPatchable(v, intercept.(matcher := intercept.matcher.(params := matchParams)), search)
  {
  }
}
