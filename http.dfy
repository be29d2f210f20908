/** The parts of `net/http` messages the decision logic reads and writes. */
module Http {
  import opened Wrappers
  import opened GoBytes

  /** A request as the matchers see it: its `Method` and `URL.String()`. */
  datatype Request = Request(verb: Str, url: Str)

  /** A body stream: the bytes not read yet, and whether reading to the end fails. */
  datatype BodyStream = BodyStream(pending: Bytes, broken: bool)

  /** `io.NopCloser(bytes.NewReader(b))`: a stream that yields exactly `b`. */
  function ReaderOf(b: Bytes): (s: BodyStream)
    ensures !s.broken && s.pending == b
  {
    BodyStream(b, false)
  }

  /** What `io.ReadAll` returns for a stream: all its bytes, or an error. */
  function ReadAll(s: BodyStream): (r: Option<Bytes>)
    ensures r.Some? <==> !s.broken
    ensures r.Some? ==> r.value == s.pending
  {
    if s.broken then None else Some(s.pending)
  }

  /** The stream after `io.ReadAll` has consumed it. */
  function Drained(s: BodyStream): (d: BodyStream)
    ensures d.pending == [] && d.broken == s.broken
  {
    BodyStream([], s.broken)
  }

  /** An `http.Response` coming back from the upstream server. */
  class Response {
    const request: Request
    var body: BodyStream
    var contentLength: int
    var statusCode: int
    var header: map<Str, seq<Str>>

    constructor (request: Request, body: BodyStream, contentLength: int, statusCode: int, header: map<Str, seq<Str>>)
      ensures this.request == request && this.body == body && this.contentLength == contentLength
      ensures this.statusCode == statusCode && this.header == header
    {
      this.request := request;
      this.body := body;
      this.contentLength := contentLength;
      this.statusCode := statusCode;
      this.header := header;
    }

    /** The rewrite of a patched response: a new body, its length and a new status code;
        the headers stay as they were. */
    method Overwrite(status: int, data: Bytes)
      modifies this
      ensures body == ReaderOf(data) && contentLength == |data| && statusCode == status
      ensures header == old(header)
    {
      body := ReaderOf(data);
      contentLength := |data|;
      statusCode := status;
    }
  }

  /** An `http.ResponseWriter`: the status sent (once) and the body bytes written so far. */
  class ResponseWriter {
    var status: Option<int>
    var written: Bytes

    constructor ()
      ensures status == None && written == []
    {
      status := None;
      written := [];
    }

    /** `WriteHeader(code)`: only the first status written takes effect. */
    method WriteHeader(code: int)
      modifies this
      ensures status == if old(status).None? then Some(code) else old(status)
      ensures written == old(written)
    {
      if status.None? {
        status := Some(code);
      }
    }

    /** `Write(data)`: sends status 200 first if no status was written. */
    method Write(data: Bytes)
      modifies this
      ensures status == if old(status).None? then Some(200) else old(status)
      ensures written == old(written) + data
    {
      if status.None? {
        status := Some(200);
      }
      written := written + data;
    }
  }
}
