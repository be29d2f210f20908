/** The library services the proxy calls and this model keeps abstract: the regular
    expression engine, the YAML decoder and the file system. */
module GoRuntime {
  import opened Wrappers
  import opened GoBytes

  /** `regexp.MatchString(pattern, s)`: an unanchored search of `pattern` in `s`;
      `None` when `pattern` does not compile. */
  type Search = (Str, Str) -> Option<bool>

  /** What `yaml.Unmarshal(data, &v)` leaves in `v`: the decoded value, or an error
      together with whatever was decoded into `v` before the error. */
  datatype Decoded<T> = Decoded(value: T) | Failed(partial: T)

  /** `yaml.Unmarshal` applied to a target that already holds the given value. */
  type Unmarshal<!T> = (Bytes, T) -> Decoded<T>

  /** The error a configuration load returns. */
  datatype LoadError = ReadFileError(path: Str) | UnmarshalError

  /** The contents of the readable files, by path. */
  type Files = map<Str, Bytes>

  /** `ioutil.ReadFile(path)`. */
  function ReadFile(files: Files, path: Str): (r: Option<Bytes>)
    ensures r.Some? <==> path in files
    ensures r.Some? ==> r.value == files[path]
  {
    if path in files then Some(files[path]) else None
  }

  /** How `os.WriteFile` ends for one path. The open (create or truncate) fails and nothing
      changes; or every byte is written and the file closed; or the open succeeds and a later
      write or the close fails, leaving the first `kept` bytes (at most all of them). */
  datatype WriteOutcome = NotOpened | Completed | CutShort(kept: nat)

  /** The files after `os.WriteFile(name, data, 0644)` ended with outcome `o`. */
  function AfterWrite(files: Files, name: Str, data: Bytes, o: WriteOutcome): (r: Files)
    ensures o.NotOpened? ==> r == files
    ensures !o.NotOpened? ==> name in r && r == files[name := r[name]]
    ensures o.Completed? ==> r[name] == data
    ensures o.CutShort? ==> r[name] <= data && |r[name]| == if o.kept < |data| then o.kept else |data|
  {
    match o
    case NotOpened => files
    case Completed => files[name := data]
    case CutShort(kept) => files[name := if kept < |data| then data[..kept] else data]
  }

  /** The file system as the record mode sees it: the files, and how a write to each path
      ends. */
  class FileSystem {
    var files: Files
    const outcome: Str -> WriteOutcome

    constructor (files: Files, outcome: Str -> WriteOutcome)
      ensures this.files == files && this.outcome == outcome
    {
      this.files := files;
      this.outcome := outcome;
    }

    /** `os.WriteFile(name, data, 0644)`: creates or truncates the file, then writes it; an
        error after the open leaves the file holding a prefix of `data`. */
    method WriteFile(name: Str, data: Bytes) returns (ok: bool)
      modifies this
      ensures ok == outcome(name).Completed?
      ensures files == AfterWrite(old(files), name, data, outcome(name))
    {
      ok := outcome(name).Completed?;
      files := AfterWrite(files, name, data, outcome(name));
    }
  }
}
