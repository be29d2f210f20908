/** internal/config/loader.go: a `Config` that owns a file path and publishes a complete,
    normalised `ConfigValues` only when a load succeeds from start to end. */
module ConfigLoader {
  import opened Wrappers
  import opened GoBytes
  import opened GoRuntime
  import opened ConfigTypes

  /** The decoded configuration (its Go definition is not part of this model; these are the
      fields the rest of the program reads). */
  datatype ConfigValues = ConfigValues(
    targetURL: Str,
    authentication: Authentication,
    intercept: InterceptGroup)

  /** The zero `ConfigValues` that `var config ConfigValues` starts from. */
  const ZeroValues: ConfigValues :=
    ConfigValues([], Authentication(Basic([], []), Bearer([], [])), InterceptGroup([], []))

  /** `v` is the decoded `raw` with both rule lists cleaned. */
  predicate PublishedFrom(v: ConfigValues, raw: ConfigValues)
  {
    && v.targetURL == raw.targetURL
    && v.authentication == raw.authentication
    && CleanedList(v.intercept.requests, raw.intercept.requests)
    && CleanedList(v.intercept.responses, raw.intercept.responses)
  }

  /** The error, if any, that loading `path` ends in. */
  function LoadFailure(path: Str, files: Files, unmarshal: Unmarshal<ConfigValues>): (e: Option<LoadError>)
    ensures e == Some(ReadFileError(path)) <==> path !in files
    ensures e == Some(UnmarshalError) <==> path in files && unmarshal(files[path], ZeroValues).Failed?
    ensures e.None? <==> path in files && unmarshal(files[path], ZeroValues).Decoded?
  {
    if path !in files then Some(ReadFileError(path))
    else if unmarshal(files[path], ZeroValues).Failed? then Some(UnmarshalError)
    else None
  }

  class Config {
    const filePath: Str
    var values: Option<ConfigValues>

    /** `&Config{filePath: filePath}`: nothing published yet. */
    constructor (filePath: Str)
      ensures this.filePath == filePath && values == None
    {
      this.filePath := filePath;
      values := None;
    }

    /** `loadConfig`: the new value is built from the file alone (never from the previous
        value) and assigned to `Values` only after read, decode and clean all succeed. */
    method LoadConfig(files: Files, unmarshal: Unmarshal<ConfigValues>) returns (err: Option<LoadError>)
      modifies this
      ensures err == LoadFailure(filePath, files, unmarshal)
      ensures err.Some? ==> values == old(values)
      ensures err.None? ==> values.Some? && PublishedFrom(values.value, unmarshal(files[filePath], ZeroValues).value)
    {
      var yamlFile := ReadFile(files, filePath);
      if yamlFile.None? {
        return Some(ReadFileError(filePath));
      }
      var decoded := unmarshal(yamlFile.value, ZeroValues);
      if decoded.Failed? {
        return Some(UnmarshalError);
      }
      var config := decoded.value;
      var requests := CleanMatches(config.intercept.requests);
      config := config.(intercept := config.intercept.(requests := requests));
      var responses := CleanMatches(config.intercept.responses);
      config := config.(intercept := config.intercept.(responses := responses));
      values := Some(config);
      err := None;
    }
  }

  /** `NewConfig`: a loaded configuration, or no configuration and the load error. */
  method NewConfig(filePath: Str, files: Files, unmarshal: Unmarshal<ConfigValues>) returns (c: Config?, err: Option<LoadError>)
    ensures err == LoadFailure(filePath, files, unmarshal)
    ensures c == null <==> err.Some?
    ensures c != null ==> fresh(c) && c.filePath == filePath && c.values.Some?
    ensures c != null ==> PublishedFrom(c.values.value, unmarshal(files[filePath], ZeroValues).value)
  {
    var config := new Config(filePath);
    err := config.LoadConfig(files, unmarshal);
    if err.Some? {
      return null, err;
    }
    c := config;
  }
}
