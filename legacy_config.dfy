/** config/config.go: the configuration of the older proxy, read from `pigo.yaml`, whose rules
    carry a pattern and a patch in one record. */
module LegacyConfig {
  import opened Wrappers
  import opened GoBytes
  import opened GoRuntime

  type BodyType = Str

  const BodyTypeFile: BodyType := Ascii("file")
  const BodyTypeString: BodyType := Ascii("string")
  const BodyTypeJson: BodyType := Ascii("json")

  /** The fixed configuration file name. */
  const ConfigFile: Str := Ascii("pigo.yaml")

  datatype Patch = Patch(pattern: Str, status: int, body: Str, bodyType: BodyType)

  datatype PatchGroups = PatchGroups(responses: seq<Patch>, requests: seq<Patch>)

  datatype Config = Config(targetURL: Str, patches: PatchGroups, token: Str)

  /** The zero `Config` that `var config Config` starts from. */
  const ZeroConfig: Config := Config([], PatchGroups([], []), [])

  /** `c` is `v` with its pattern's wildcards expanded and nothing else changed. */
  predicate CleanedFrom(c: Patch, v: Patch)
  {
    c == v.(pattern := ExpandWildcards(v.pattern))
  }

  predicate CleanedList(out: seq<Patch>, patches: seq<Patch>)
  {
    |out| == |patches| && forall i | 0 <= i < |patches| :: CleanedFrom(out[i], patches[i])
  }

  /** `cleanMatches`: a fresh list, same length and order, with `*` rewritten to `.*`. */
  method CleanMatches(patches: seq<Patch>) returns (cleaned: seq<Patch>)
    ensures CleanedList(cleaned, patches)
    ensures forall i | 0 <= i < |patches| ::
      && cleaned[i].status == patches[i].status
      && cleaned[i].body == patches[i].body
      && cleaned[i].bodyType == patches[i].bodyType
      && |cleaned[i].pattern| == |patches[i].pattern| + Count(patches[i].pattern, Star)
  {
    var m := new Patch[|patches|];
    for index := 0 to |patches|
      invariant forall k | 0 <= k < index :: CleanedFrom(m[k], patches[k])
    {
      var v := patches[index];
      v := v.(pattern := ExpandWildcards(v.pattern));
      m[index] := v;
    }
    cleaned := m[..];
  }

  /** `LoadConfig`: a fresh configuration with cleaned rule lists, or an error and no
      configuration; nothing shared is touched. */
  method LoadConfig(files: Files, unmarshal: Unmarshal<Config>) returns (r: Result<Config, LoadError>)
    ensures ConfigFile !in files ==> r == Failure(ReadFileError(ConfigFile))
    ensures ConfigFile in files ==>
      match unmarshal(files[ConfigFile], ZeroConfig)
      case Failed(_) => r == Failure(UnmarshalError)
      case Decoded(raw) =>
        && r.Success?
        && r.value.targetURL == raw.targetURL
        && r.value.token == raw.token
        && CleanedList(r.value.patches.requests, raw.patches.requests)
        && CleanedList(r.value.patches.responses, raw.patches.responses)
  {
    var yamlFile := ReadFile(files, ConfigFile);
    if yamlFile.None? {
      return Failure(ReadFileError(ConfigFile));
    }
    var decoded := unmarshal(yamlFile.value, ZeroConfig);
    if decoded.Failed? {
      return Failure(UnmarshalError);
    }
    var config := decoded.value;
    var requests := CleanMatches(config.patches.requests);
    config := config.(patches := config.patches.(requests := requests));
    var responses := CleanMatches(config.patches.responses);
    config := config.(patches := config.patches.(responses := responses));
    r := Success(config);
  }
}
