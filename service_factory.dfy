/** internal/service/service.go: the two-variant intercept service, chosen once from a copy
    of the configuration. */
module ServiceFactory {
  import opened GoRuntime
  import opened Http
  import opened Wrappers
  import ConfigTypes
  import ServicePatch
  import ServiceRecord

  /** `InterceptService`: exactly `HandleRequest -> bool` and `HandleResponse`. */
  datatype InterceptService = Patch(patch: ServicePatch.PatchService) | Record(record: ServiceRecord.RecordService) {

    method HandleRequest(w: ResponseWriter, r: Request, fs: FileSystem, search: Search) returns (handled: bool)
      modifies w
      ensures Record? ==> !handled && w.status == old(w.status) && w.written == old(w.written)
      ensures Patch? ==>
        var d := ServicePatch.ShouldPatch(r, patch.interceptConfig.intercept.requests, fs.files, search);
        && handled == d.Patched?
        && (d.Patched? ==>
              w.status == (if old(w.status).None? then Some(d.status) else old(w.status)) &&
              w.written == old(w.written) + d.body)
        && (d.Declined? ==> w.status == old(w.status) && w.written == old(w.written))
    {
      match this
      case Patch(p) => handled := p.HandleRequest(w, r, fs.files, search);
      case Record(s) => handled := s.HandleRequest(w, r);
    }

    method HandleResponse(r: Response, fs: FileSystem, search: Search)
      modifies r, fs
      ensures r.header == old(r.header)
      ensures Patch? ==>
        var d := ServicePatch.ShouldPatch(r.request, patch.interceptConfig.intercept.responses, old(fs.files), search);
        && fs.files == old(fs.files)
        && (d.Patched? ==>
              r.body == ReaderOf(d.body) && r.contentLength == |d.body| && r.statusCode == d.status)
        && (d.Declined? ==>
              r.body == old(r.body) && r.contentLength == old(r.contentLength) && r.statusCode == old(r.statusCode))
      ensures Record? ==>
        && r.statusCode == old(r.statusCode) && r.contentLength == old(r.contentLength)
        && ServiceRecord.RecordState(fs.files, r.body) ==
             ServiceRecord.RecordAll(ServiceRecord.RecordState(old(fs.files), old(r.body)), r.request,
                                     record.interceptConfig.intercept.responses, search, fs.outcome)
    {
      match this
      case Patch(p) => p.HandleResponse(r, fs.files, search);
      case Record(s) => s.HandleResponse(r, fs, search);
    }
  }

  /** `NewInterceptService`: the Record variant, with the rule lists exchanged, when `record`
      is set; otherwise the Patch variant over the configuration as given. The service holds
      a copy, so reloading the configuration later does not change its rules. */
  function NewInterceptService(c: ConfigTypes.ConfigData, record: bool): (s: InterceptService)
    ensures record ==> s.Record? && s.record.interceptConfig.intercept.responses == c.intercept.requests
                                 && s.record.interceptConfig.intercept.requests == c.intercept.responses
                                 && s.record.interceptConfig.(intercept := c.intercept) == c
    ensures !record ==> s.Patch? && s.patch.interceptConfig == c
  {
    if record then Record(ServiceRecord.NewRecordService(c))
    else Patch(ServicePatch.PatchService(c))
  }
}
