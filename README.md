# gotcher: the decision core of an intercepting reverse proxy

This project models the rule engine of gotcher (published as pigo/rigo), an HTTP reverse
proxy that can answer requests itself, rewrite upstream responses, or record upstream
responses to files. The model covers:

- **Rule predicate** (`ServiceUtils`). `isPatchable` accepts a (method, uri) pair for one
  rule in three steps. The method list is checked first; an empty list accepts any method.
  Then the URI pattern must be non-empty. Last comes an unanchored regex search of the
  pattern in the uri.
- **Patch engine** (`ServicePatch`). `shouldPatch` scans the rules in order, with early
  exits. A rule that fails the method check, has an empty pattern or does not compile ends
  the scan with no answer; a rule that does not match passes the scan to the next rule. The
  first matching rule resolves a body: a file's contents, a literal, or an empty body for an
  unknown type. Its status is the rule's, or 200 if the rule leaves it at 0.
  `HandleRequest` writes that answer to the client. `HandleResponse` writes it over the live
  response's body, content length and status code.
- **Record engine** (`ServiceRecord`). The Record variant swaps the two rule lists.
  `shouldRecord` picks a filename. For a `file` rule it is the rule's body, verbatim.
  Otherwise it is `"{method}_{url}.json"` with every `/` turned into `_`, cut to 200 bytes.
  It then drains the response body, writes it to that file and attaches the same bytes
  again. `HandleResponse` does this for every matching rule, not only the first.
- **Variant factory** (`ServiceFactory`). `NewInterceptService` chooses Patch or Record once,
  from a copy of the configuration.
- **Configuration** (`ConfigTypes`, `ConfigLoader`, `LegacyConfig`). `cleanMatches` rewrites
  each `*` in a URI pattern to `.*`. Three loaders exist, one per source file:
  - `Config.LoadConfig` in internal/config/config.go decodes into the receiver itself.
  - `loadConfig` in internal/config/loader.go publishes a newly built value only when every
    step succeeds.
  - `LoadConfig` in config/config.go returns a new value or an error.
- **Older matchers** (`AppPigo`, `MainPigo`). These are the loops in app/pigo.go and main.go.
  They match on the URI alone, with no method check. Their status stays 0 unless the rule
  sets one. main.go also hands an empty pattern to the regex engine. `Variants` proves that
  app/pigo.go decides as the newer engine for every rule list, that main.go decides as
  app/pigo.go for every list without an empty pattern, and how the two part at an empty one.

Go strings and byte slices are `seq<byte>` (`GoBytes`), so lengths and the 200-byte cut are
byte counts. The foreign pieces are parameters (`GoRuntime`):

- the regex engine is `search(pattern, s): Option<bool>`, with `None` for a compile error;
- the YAML decoder is `unmarshal(bytes, into) -> Decoded | Failed(partial)`;
- readable files are a `map` from path to bytes;
- writes go through a `FileSystem` object whose `outcome` says how a write to each path ends:
  the open fails, the write completes, or it fails after the open with part of the data written.

`http.Response` and `http.ResponseWriter` are classes whose fields the handlers update
(`Http`).

Where the code and the stated intent of its design differ, the model follows the code:

- An empty URI pattern ends the whole scan in `shouldPatch` and in app/pigo.go. It does not
  just skip that rule (`ServicePatch.Guard`, `AppPigo.Guard`).
- `shouldRecord` returns `true` for a matching rule even when the body read or the file
  write then fails. The named result `ok` was set by `isPatchable` and is not reset before
  those naked `return`s (`ServiceRecord.ShouldRecord`). Only a log line depends on it.
- When the file write fails in record mode, the drained body is not attached again. The
  client then receives an empty body (`ServiceRecord.RecordStep`).
- internal/config/config.go decodes straight into the live `Config`. A decode error can
  therefore leave it partly updated, and the decoder may also overwrite `FilePath`
  (`ConfigTypes.Config.LoadConfig`). Only loader.go publishes atomically.

## Model

| member | source | states |
|---|---|---|
| `GoBytes.ReplaceAll` | internal/config/config.go:133 | The result is the input grown by `len(rep) - 1` bytes for each occurrence of the replaced byte. |
| `GoBytes.ReplaceAllWithout` | internal/config/config.go:133 | A string without the replaced byte is returned unchanged. |
| `GoBytes.ReplaceAllRemoves` | internal/service/record.go:51 | When the replacement lacks the replaced byte, no occurrence is left: a synthesised filename has no `/`. |
| `GoBytes.ReplaceAllPrefixes` | internal/config/config.go:133 | Replacing `c` by `d c` leaves every `c` directly after a `d`, and the result never starts with `c`. |
| `GoBytes.ExpandWildcards` | internal/config/config.go:133 | `*` to `.*`: the length grows by the number of `*`; every `*` in the output follows a `.`; a pattern without `*` is unchanged. |
| `GoBytes.Truncate` | internal/service/record.go:52-54 | The result is a prefix of the input of length `min(len, n)`. |
| `GoRuntime.AfterWrite` | internal/service/record.go:62 | A failed open changes nothing. Otherwise only the named file changes: it holds all the data on completion, and a prefix of it when a later write or the close fails. |
| `GoRuntime.FileSystem.WriteFile` | internal/service/record.go:62 | Reports success exactly when the write completes; the files end as `AfterWrite` says, so a failure after the open leaves the file truncated to a prefix of the data. |
| `Http.Response.Overwrite` | internal/service/patch.go:93-95 | The body becomes a reader of the new bytes, the content length their length, and the status the new one; headers are kept. |
| `Http.ResponseWriter.WriteHeader` | internal/service/patch.go:81 | Only the first status written counts; the body is untouched. |
| `Http.ResponseWriter.Write` | internal/service/patch.go:82 | Appends the bytes, sending 200 first if no status was written. |
| `ConfigTypes.BodyTypesDistinct` | internal/config/config.go:13-19 | The three named body types `file`, `string` and `json` are distinct values. |
| `ConfigTypes.EmptyConfig` | internal/config/config.go:69-71 | The zero configuration with only its file path set has no rules and no target. |
| `ConfigTypes.CleanedListUnique` | internal/config/config.go:130-136 | Cleaning determines its output: two cleanings of one list are equal. |
| `ConfigTypes.CleanMatches` | internal/config/config.go:130-136 | Same length and order. Each URI has `*` rewritten to `.*`. Methods, params and patch are unchanged. |
| `ConfigTypes.Config.NewConfig` | internal/config/config.go:69-71 | A new configuration holds only its file path. |
| `ConfigTypes.Config.LoadConfig` | internal/config/config.go:74-89 | A read error returns an error and changes nothing. A decode error returns an error and leaves what the decoder wrote. Success returns no error and leaves the decoded value with both lists cleaned. |
| `ConfigLoader.LoadFailure` | internal/config/loader.go:31-41 | A load fails with a read error exactly when the file is missing, and with a decode error exactly when decoding fails. |
| `ConfigLoader.Config.constructor` | internal/config/loader.go:18 | A new loader holds its path and has published nothing. |
| `ConfigLoader.Config.LoadConfig` | internal/config/loader.go:30-47 | On any error `Values` is unchanged. On success `Values` is built from the file alone, with both rule lists cleaned. The path never changes. |
| `ConfigLoader.NewConfig` | internal/config/loader.go:17-27 | When the first load fails the result is nil with the error. Otherwise it is a new `Config` with that path and a published, cleaned value. |
| `LegacyConfig.CleanMatches` | config/config.go:55-62 | Same length and order. Each pattern has `*` rewritten to `.*`, so it grows by the number of `*`. Status, body and type are unchanged. |
| `LegacyConfig.LoadConfig` | config/config.go:37-53 | Reading `pigo.yaml` or decoding it fails with an error and no configuration. On success both rule lists are cleaned and the other fields are as decoded. |
| `ServiceUtils.IsPatchable` | internal/service/utils.go:20-34 | A method not in a non-empty list gives `(false, nil)`, without the regex. An empty pattern gives `(false, nil)`. An error arises exactly on a compile failure, and then the result is false. Otherwise the result is the search. |
| `ServiceUtils.ParamsIgnored` | internal/service/utils.go:10-34 | Neither the request's params nor the rule's params affect the verdict. |
| `ServicePatch.InArray` | internal/service/patch.go:24-31 | True exactly when the method occurs in the list. |
| `ServicePatch.Guard` | internal/service/patch.go:40-52 | A rule matches exactly when `isPatchable` says matched. It stops the scan on a bad pattern exactly when `isPatchable` errs, and on a method mismatch or an empty pattern. It passes the scan on only when it is accepted, compiles and does not match. |
| `ServicePatch.DefaultStatus` | internal/service/patch.go:64-68 | Never 0: the rule's own status if set, else 200. |
| `ServicePatch.Resolve` | internal/service/patch.go:53-68 | A `file` rule answers with the file's contents, or declines if it is unreadable. `string` and `json` answer with the literal. Any other type answers with an empty body. The status is defaulted. |
| `ServicePatch.ShouldPatch` | internal/service/patch.go:35-74 | An answer implies some rule matched; "no rule matched" implies every rule passed the scan on. |
| `ServicePatch.FirstDecisive` | internal/service/patch.go:36-52 | Gives the first rule that does not pass the scan on: all earlier rules passed it on. |
| `ServicePatch.ShouldPatchIsFirstDecisive` | internal/service/patch.go:35-74 | The scan's result is the first decisive rule's outcome, or "no rule matched" if every rule passes the scan on. |
| `ServicePatch.RuleDecides` | internal/service/patch.go:41-50 | A method mismatch, empty pattern, bad pattern or match at position k decides the scan, even if a later rule would match. |
| `ServicePatch.LaterRulesIgnored` | internal/service/patch.go:36-72 | Rules appended after a decisive rule never change the result. |
| `ServicePatch.PatchedByFirstMatch` | internal/service/patch.go:36-70 | An answer comes from the first matching rule. Every earlier rule passed the method check, had a pattern, compiled and did not match. |
| `ServicePatch.UnreadableFileDeclines` | internal/service/patch.go:54-58 | A matched `file` rule with a missing file declines the whole scan. |
| `ServicePatch.PatchService.HandleRequest` | internal/service/patch.go:76-86 | On a match it writes the status, then the body, and returns true. Otherwise it writes nothing and returns false. |
| `ServicePatch.PatchService.HandleResponse` | internal/service/patch.go:88-97 | The response rules are matched against the originating request. A match sets body, length and status; no match leaves the response unchanged. |
| `ServiceRecord.RecordService.HandleRequest` | internal/service/record.go:76-82 | Always false, and writes nothing. |
| `ServiceRecord.RecordService.HandleResponse` | internal/service/record.go:84-90 | Every rule of the swapped response list is recorded in order, with no early exit. Status, length and headers stay as they were. |
| `ServiceRecord.NewRecordService` | internal/service/record.go:24-30 | The request and response lists are exchanged; every other configuration field is unchanged. |
| `ServiceRecord.FullName` | internal/service/record.go:50-51 | The untruncated name has length `len(method) + len(url) + 6` and contains no `/`. |
| `ServiceRecord.Filename` | internal/service/record.go:46-55 | A `file` rule's body is used verbatim. Otherwise the name is at most 200 bytes, has no `/`, and is a prefix of the untruncated name; it is that whole name when it fits, else its first 200 bytes. |
| `ServiceRecord.RecordStep` | internal/service/record.go:33-74 | No match or a pattern error changes nothing. A successful capture writes the body to the file and re-attaches exactly the bytes written. A failed read leaves the files as they were; a failed open too; a failure after the open leaves that one file holding a prefix of the body. Every failure leaves the body drained. |
| `ServiceRecord.RecordedNames` | internal/service/record.go:84-90 | Exactly the filenames of the matching rules: each matching rule contributes its own, and every name comes from a matching rule. |
| `ServiceRecord.ShouldRecord` | internal/service/record.go:33-74 | Returns whether the rule matched. The files and body end as `RecordStep` says. Status, length and headers are untouched. |
| `ServiceRecord.RecordAllCapturesBody` | internal/service/record.go:33-90 | With a readable body and writes that complete, the client keeps the same bytes and every matching rule's file holds exactly those bytes. No other file changes. |
| `ServiceRecord.RecordAllNoMatch` | internal/service/record.go:33-90 | When no rule matches, neither the files nor the body change. |
| `ServiceFactory.InterceptService.HandleRequest` | internal/service/service.go:11-14 | The Record variant declines without writing. The Patch variant behaves as `PatchService.HandleRequest`. |
| `ServiceFactory.InterceptService.HandleResponse` | internal/service/service.go:11-14 | The Patch variant rewrites the response without touching files. The Record variant records without touching status or length. Neither changes headers. |
| `ServiceFactory.NewInterceptService` | internal/service/service.go:16-22 | `record` gives the Record variant, whose response rules are the configured request rules. Otherwise it gives the Patch variant over the configuration as given. |
| `AppPigo.Guard` | app/pigo.go:121-128 | There is no method check. An empty pattern stops the scan, as does a compile error; the search result decides a hit or a pass. |
| `AppPigo.Resolve` | app/pigo.go:129-145 | Bodies are resolved as in the newer engine, but the status is the rule's own, 0 when unset. |
| `AppPigo.Scan` | app/pigo.go:119-149 | An answer comes from the first matching rule, with every earlier rule passing the scan on. |
| `AppPigo.ShouldPatchRequest` | app/pigo.go:119-149 | Matched on the URI alone; the first matching rule wins. |
| `AppPigo.ShouldPatchResponse` | app/pigo.go:151-181 | The same scan over the response rules, against the originating request's URL. |
| `AppPigo.ModifyResponse` | app/pigo.go:55-67 | On a match it sets body, length and status. Otherwise the response is unchanged. |
| `MainPigo.Guard` | main.go:110-114 | Only the regex decides: an empty pattern is searched like any other. |
| `MainPigo.Scan` | main.go:108-134 | An answer comes from the first matching rule. A decline is only a bad pattern, an unreadable file or no match. "No rule matched" holds exactly when every rule passes the scan on. |
| `MainPigo.ScanDecidedAt` | main.go:108-134 | When every rule before `k` passes the scan on and rule `k` does not, rule `k` decides, whatever follows: a match answers with it (an empty pattern included), a bad pattern or an unreadable file declines. |
| `MainPigo.ScanFirstDecisive` | main.go:108-134 | The same for every position at once. |
| `MainPigo.ShouldPatchRequest` | main.go:108-134 | Matched on the URI alone. An answer comes from the first matching rule, and the first rule that does not pass the scan on decides the result. |
| `MainPigo.ShouldPatchResponse` | main.go:136-163 | The same scan over the response rules, against the originating request's URL. |
| `MainPigo.ModifyResponse` | main.go:47-59 | On a match it overwrites body, length and status. Otherwise the response is unchanged. |
| `Variants.AppAgreesWithService` | app/pigo.go:119-149 | Read as method-less rules, app/pigo.go decides like internal/service/patch.go for any method. The one difference: 200 is answered where app/pigo.go answers 0. Both are given the same URI, although app/pigo.go's request path matches `RequestURI` and patch.go matches `URL.String()`. |
| `Variants.MainAgreesWithApp` | main.go:108-134 | Without empty patterns, main.go and app/pigo.go decide alike. |
| `Variants.EmptyPatternSplitsLegacyMatchers` | app/pigo.go:121-123 | At an empty pattern that the engine matches, reached after rules that pass the scan on, app/pigo.go declines while main.go answers with that rule, whatever its body type. |

## Left out

- HTTP serving, CORS and the OPTIONS short-circuit. Transport plumbing (cmd/cli/pigo.go, app/pigo.go:23-111, main.go:20-100), including `handleInterceptedRequest`.
- The reverse proxy's Director (host rewrite, Authorization header). It forwards; it decides nothing.
- Flag parsing and the ready banner. Process setup only.
- `Watch` in internal/config/config.go and internal/config/loader.go. It is the fsnotify goroutine and its channels. Only the single load step it runs is modelled.
- Concurrency in general. Readers of `ConfigLoader.Config.values` would need an atomic pointer swap. The model states only what a single load publishes, and that it never edits the value readers already hold.
- YAML decoding, the Go RE2 engine and real file I/O. Each is an abstract parameter, so RE2 semantics (for example `"/api/.*"` matching `"/api/123"`) are not proved.
- `fmt.Printf` and `log` output.
- The wiring in cmd/cli/pigo.go, which calls loaders with signatures that do not exist. Each file's definitions are modelled on their own.
- The nil cases of pointers the source dereferences unchecked (`response.Request`). So is `WriteHeader`'s panic on a status outside 100-999. Go's `int` width is not modelled either; statuses and lengths are unbounded integers.
- `ConfigLoader.ConfigValues`: its Go definition is not part of this model. It holds the fields the program reads: target URL, authentication and rules.
- `GoBytes.ReplaceAll`: models `strings.ReplaceAll` only for a one-byte pattern, the only form the source uses.
- Partial reads: a broken body stream yields no data, and the bytes a failed read returns are not modelled. Callers ignore them whenever `ok` is false.
