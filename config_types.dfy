/** The rule data types of internal/config/config.go, the wildcard normalisation of the
    rule lists, and the `Config` object whose `LoadConfig` fills it from its file. */
module ConfigTypes {
  import opened Wrappers
  import opened GoBytes
  import opened GoRuntime

  /** `BodyType` is a string type; three of its values have names. */
  type BodyType = Str

  const BodyTypeFile: BodyType := Ascii("file")
  const BodyTypeString: BodyType := Ascii("string")
  const BodyTypeJson: BodyType := Ascii("json")

  /** The three named body types are three different values. */
  lemma BodyTypesDistinct()
    ensures BodyTypeFile != BodyTypeString && BodyTypeFile != BodyTypeJson
    ensures BodyTypeString != BodyTypeJson
  {
    assert BodyTypeFile[0] != BodyTypeJson[0];
  }

  datatype Basic = Basic(username: Str, password: Str)
  datatype Bearer = Bearer(tokenType: Str, token: Str)
  datatype Authentication = Authentication(basic: Basic, bearer: Bearer)

  /** One entry of `Match.Params` (carried, never consulted). */
  datatype Param = Param(name: Str, value: Str)

  /** When a rule applies: a URI regex (maybe empty) and the accepted methods (empty = any). */
  datatype Match = Match(uri: Str, params: seq<Param>, methods: seq<Str>)

  /** What a rule does: status (0 = unset), body text or file path, and the body type. */
  datatype Patch = Patch(status: int, body: Str, bodyType: BodyType)

  datatype Intercept = Intercept(matcher: Match, patch: Patch)

  datatype InterceptGroup = InterceptGroup(responses: seq<Intercept>, requests: seq<Intercept>)

  /** The value held by a `Config` (what `*config` copies). */
  datatype ConfigData = ConfigData(
    targetURL: Str,
    authentication: Authentication,
    intercept: InterceptGroup,
    filePath: Str)

  /** The zero `ConfigData` with the given file path: `Config{FilePath: filePath}`. */
  function EmptyConfig(filePath: Str): (c: ConfigData)
    ensures c.filePath == filePath && c.targetURL == []
    ensures c.intercept.requests == [] && c.intercept.responses == []
  {
    ConfigData([], Authentication(Basic([], []), Bearer([], [])), InterceptGroup([], []), filePath)
  }

  /** `c` is `v` with its URI wildcards expanded and nothing else changed. */
  predicate CleanedFrom(c: Intercept, v: Intercept)
  {
    && c.matcher.uri == ExpandWildcards(v.matcher.uri)
    && c.matcher.params == v.matcher.params
    && c.matcher.methods == v.matcher.methods
    && c.patch == v.patch
  }

  /** `out` is `patches` cleaned element by element, in the same order. */
  predicate CleanedList(out: seq<Intercept>, patches: seq<Intercept>)
  {
    |out| == |patches| && forall i | 0 <= i < |patches| :: CleanedFrom(out[i], patches[i])
  }

  /** `CleanedFrom` determines the cleaned rule, so a cleaned list is unique. */
  lemma CleanedListUnique(a: seq<Intercept>, b: seq<Intercept>, patches: seq<Intercept>)
    requires CleanedList(a, patches) && CleanedList(b, patches)
    ensures a == b
  {
    assert forall i | 0 <= i < |a| :: a[i] == b[i] by {
      forall i | 0 <= i < |a| ensures a[i] == b[i] {
        assert CleanedFrom(a[i], patches[i]) && CleanedFrom(b[i], patches[i]);
      }
    }
  }

  /** `cleanMatches`: a fresh list of the same length whose URIs have `*` rewritten to `.*`. */
  method CleanMatches(patches: seq<Intercept>) returns (cleaned: seq<Intercept>)
    ensures CleanedList(cleaned, patches)
  {
    var m := new Intercept[|patches|];
    for index := 0 to |patches|
      invariant forall k | 0 <= k < index :: CleanedFrom(m[k], patches[k])
    {
      var v := patches[index];
      v := v.(matcher := v.matcher.(uri := ExpandWildcards(v.matcher.uri)));
      m[index] := v;
    }
    cleaned := m[..];
  }

  /** `d` is the decoded value `raw` with both rule lists cleaned. */
  predicate NormalisedFrom(d: ConfigData, raw: ConfigData)
  {
    && d.targetURL == raw.targetURL
    && d.authentication == raw.authentication
    && d.filePath == raw.filePath
    && CleanedList(d.intercept.requests, raw.intercept.requests)
    && CleanedList(d.intercept.responses, raw.intercept.responses)
  }

  class Config {
    var targetURL: Str
    var authentication: Authentication
    var intercept: InterceptGroup
    var filePath: Str

    function Data(): ConfigData
      reads this
    {
      ConfigData(targetURL, authentication, intercept, filePath)
    }

    /** `NewConfig(filePath)`: an otherwise empty configuration that knows its file. */
    constructor NewConfig(filePath: Str)
      ensures Data() == EmptyConfig(filePath)
    {
      var e := EmptyConfig(filePath);
      targetURL := e.targetURL;
      authentication := e.authentication;
      intercept := e.intercept;
      this.filePath := filePath;
    }

    method Assign(d: ConfigData)
      modifies this
      ensures Data() == d
    {
      targetURL, authentication, intercept, filePath := d.targetURL, d.authentication, d.intercept, d.filePath;
    }

    /** `LoadConfig`: reads `FilePath`, decodes it into the receiver itself, then cleans both
        rule lists. A read error changes nothing; a decode error leaves what the decoder
        wrote before failing; only a full success returns no error. */
    method LoadConfig(files: Files, unmarshal: Unmarshal<ConfigData>) returns (err: Option<LoadError>)
      modifies this
      ensures old(filePath) !in files ==> err == Some(ReadFileError(old(filePath))) && Data() == old(Data())
      ensures old(filePath) in files ==>
        match unmarshal(files[old(filePath)], old(Data()))
        case Failed(partial) => err == Some(UnmarshalError) && Data() == partial
        case Decoded(raw) => err == None && NormalisedFrom(Data(), raw)
    {
      var yamlFile := ReadFile(files, filePath);
      if yamlFile.None? {
        return Some(ReadFileError(filePath));
      }
      var decoded := unmarshal(yamlFile.value, Data());
      if decoded.Failed? {
        Assign(decoded.partial);
        return Some(UnmarshalError);
      }
      Assign(decoded.value);
      var requests := CleanMatches(intercept.requests);
      intercept := intercept.(requests := requests);
      var responses := CleanMatches(intercept.responses);
      intercept := intercept.(responses := responses);
      err := None;
    }
  }
}
