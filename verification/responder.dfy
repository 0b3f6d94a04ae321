/** The streaming responder: the chain of completion callbacks `on_open`,
    `on_send` and `on_read` of one request, as a state machine. Each
    completion event of the runtime moves the serve context one step. */
module Responder {
  import opened Request
  import opened Header

  /** One octet on the wire or in the file. */
  newtype byte = x: int | 0 <= x < 256

  /** A header's characters as the octets written to the socket: each C
      `char` is one octet. */
  function Octets(s: string): (r: seq<byte>)
    ensures |r| == |s|
    ensures forall i :: 0 <= i < |s| ==> r[i] as int == s[i] as int % 256
  {
    seq(|s|, i requires 0 <= i < |s| => (s[i] as int % 256) as byte)
  }

  /** The file handle held by the serve context. */
  datatype Handle = Unopened | Open(fd: int) | Released

  /** The one operation in flight for the context, or its end. */
  datatype Phase =
    | OpenPending                             // `uv_fs_open` issued
    | WritePending(buf: seq<byte>, done: bool) // `uv_write` issued with this buffer
    | ReadPending(len: nat)                   // `uv_fs_read` issued for `len` bytes
    | Closed                                  // client closed, context freed
    | Undefined                               // the 200 header overran the serve buffer

  /** A `serve_t` together with everything it has handed to `uv_write`. */
  datatype Serve = Serve(req: Request, phase: Phase, file: Handle, sent: seq<seq<byte>>)

  /** A completion the runtime delivers: the open result, the write status,
      or the read result with the bytes it read. */
  datatype Event =
    | OpenDone(result: int)
    | WriteDone(status: int)
    | ReadDone(result: int, data: seq<byte>)

  /** The context `on_receive` sets up for a parsed request. */
  function Start(req: Request): Serve
  {
    Serve(req, OpenPending, Unopened, [])
  }

  /** No operation is in flight any more. */
  predicate Terminal(s: Serve) {
    s.phase.Closed? || s.phase.Undefined?
  }

  /** `ev` completes the operation in flight: the runtime calls back only
      for an issued operation, and a read returns at most the bytes asked
      for, handing over exactly `result` of them when it succeeds. */
  predicate Expects(s: Serve, ev: Event) {
    match s.phase
    case OpenPending => ev.OpenDone?
    case WritePending(_, _) => ev.WriteDone?
    case ReadPending(len) => ev.ReadDone? && ev.result <= len && (ev.result > 0 ==> |ev.data| == ev.result)
    case Closed => false
    case Undefined => false
  }

  /** Issue `uv_write` of `buf`; `done` says the context ends after it. */
  function Send(s: Serve, buf: seq<byte>, done: bool): Serve
  {
    s.(phase := WritePending(buf, done), sent := s.sent + [buf])
  }

  /** `on_open`: on success the handle is kept and the 200 header is
      written with `done` false; on failure the 404 header is written with
      `done` true, so no read is ever issued. */
  function OnOpen(s: Serve, result: int): (r: Serve)
    requires s.phase.OpenPending?
    ensures r.req == s.req
    ensures result < 0 ==> r.file == s.file && r.phase.WritePending? && r.phase.done
    ensures result < 0 ==> r.phase.buf == Octets(NotFoundResponse)
    ensures result >= 0 ==> r.file == Open(result)
    ensures result >= 0 && Fits(OkHeader(s.req.mime, s.req.ext)) ==> r.phase.WritePending? && !r.phase.done
    ensures result >= 0 && Fits(OkHeader(s.req.mime, s.req.ext)) ==>
              r.phase.buf == Octets(OkHeader(s.req.mime, s.req.ext))
    ensures result >= 0 && !Fits(OkHeader(s.req.mime, s.req.ext)) ==> r.phase == Undefined && r.sent == s.sent
    ensures r.phase.WritePending? ==> r.sent == s.sent + [r.phase.buf]
  {
    if result >= 0 then
      var text := OkHeader(s.req.mime, s.req.ext);
      var withFile := s.(file := Open(result));
      if Fits(text) then
        var n := OkHeaderLength(s.req.mime, s.req.ext);
        assert Octets(text)[..n] == Octets(text);
        Send(withFile, Octets(text)[..n], false)
      else
        withFile.(phase := Undefined)
    else
      Send(s, Octets(NotFoundResponse), true)
  }

  /** `on_send`: the write status is only logged; a `done` write closes the
      client and frees the context, any other write is followed by a read
      of a whole `CHUNK`. */
  function OnSend(s: Serve, status: int): (r: Serve)
    requires s.phase.WritePending?
    ensures r.req == s.req && r.sent == s.sent && r.file == s.file
    ensures s.phase.done ==> r.phase == Closed
    ensures !s.phase.done ==> r.phase == ReadPending(Chunk)
  {
    if s.phase.done then s.(phase := Closed) else s.(phase := ReadPending(Chunk))
  }

  /** `on_read`: the bytes read are written with `done` false; end of file
      and a read error both write nothing with `done` true, and only end of
      file closes the handle. */
  function OnRead(s: Serve, result: int, data: seq<byte>): (r: Serve)
    requires s.phase.ReadPending? && (result > 0 ==> |data| == result)
    ensures r.req == s.req && r.phase.WritePending? && r.sent == s.sent + [r.phase.buf]
    ensures result > 0 ==> r.phase.buf == data && !r.phase.done && r.file == s.file
    ensures result <= 0 ==> r.phase.buf == [] && r.phase.done
    ensures result < 0 ==> r.file == s.file
    ensures result == 0 ==> r.file == Released
  {
    if result < 0 then Send(s, [], true)
    else if result == 0 then Send(s.(file := Released), [], true)
    else Send(s, data, false)
  }

  /** The callback that runs for `ev`. */
  function Step(s: Serve, ev: Event): (r: Serve)
    requires Expects(s, ev)
    ensures r.req == s.req
    ensures r.sent == s.sent || (r.phase.WritePending? && r.sent == s.sent + [r.phase.buf])
    ensures r.phase.ReadPending? ==> r.phase.len == Chunk
  {
    match ev
    case OpenDone(result) => OnOpen(s, result)
    case WriteDone(status) => OnSend(s, status)
    case ReadDone(result, data) => OnRead(s, result, data)
  }
}
