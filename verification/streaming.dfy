/** One serve context run against an abstract file. The runtime's side is
    the file's bytes and the sequential offset that `uv_fs_read` with offset
    -1 reads from; every completion the runtime may deliver is an event, and
    a run is a sequence of events. */
module Streaming {
  import opened Outcome
  import opened Request
  import opened Header
  import opened Responder

  /** The serve context and the runtime's offset into the file. */
  datatype Sys = Sys(serve: Serve, pos: nat)

  /** A read completion the runtime can deliver at offset `pos` for a
      request of `len` bytes: an error, end of file when nothing is left,
      or between 1 and `len` bytes of the file from `pos` on. */
  predicate ReadAgrees(file: seq<byte>, pos: nat, len: nat, result: int, data: seq<byte>) {
    || result < 0
    || (result == 0 && pos == |file|)
    || (0 < result <= len && pos + result <= |file| && data == file[pos..pos + result])
  }

  /** `ev` completes the operation in flight and, for a read, agrees with
      the file. Opens and writes may complete with any result. */
  predicate Allowed(file: seq<byte>, sys: Sys, ev: Event) {
    && Expects(sys.serve, ev)
    && (ev.ReadDone? ==> ReadAgrees(file, sys.pos, sys.serve.phase.len, ev.result, ev.data))
  }

  /** The callback for `ev` runs and a successful read moves the offset. */
  function Advance(file: seq<byte>, sys: Sys, ev: Event): Sys
    requires Allowed(file, sys, ev)
  {
    Sys(Step(sys.serve, ev), if ev.ReadDone? && ev.result > 0 then sys.pos + ev.result else sys.pos)
  }

  /** The state after the events `evs`, or `None` when one of them is not
      a completion the runtime could deliver at that point. */
  function Replay(file: seq<byte>, sys: Sys, evs: seq<Event>): Option<Sys>
    decreases |evs|
  {
    if evs == [] then Some(sys)
    else if Allowed(file, sys, evs[0]) then Replay(file, Advance(file, sys, evs[0]), evs[1..])
    else None
  }

  /** A new context for `req` before the file is opened. */
  function Init(req: Request): Sys
  {
    Sys(Start(req), 0)
  }

  /** Everything written, one buffer after the other. */
  function Concat(bufs: seq<seq<byte>>): seq<byte>
    decreases |bufs|
  {
    if bufs == [] then [] else Concat(bufs[..|bufs| - 1]) + bufs[|bufs| - 1]
  }

  /** The body: everything written after the header. */
  function Body(sent: seq<seq<byte>>): seq<byte>
    requires |sent| >= 1
  {
    Concat(sent[1..])
  }

  /** The header bytes of a 200 response for `req`. */
  function OkBytes(req: Request): seq<byte>
  {
    Octets(OkHeader(req.mime, req.ext))
  }

  /** The bytes of the 404 response. */
  function NotFoundBytes(): seq<byte>
  {
    Octets(NotFoundResponse)
  }

  /** No body write exceeds one `CHUNK`. */
  predicate ChunksBounded(sent: seq<seq<byte>>) {
    forall i :: 1 <= i < |sent| ==> |sent[i]| <= Chunk
  }

  /** The 200 path: the header went out first, then the file from the start
      up to the offset, in chunks of at most `CHUNK` bytes. */
  predicate OkPath(file: seq<byte>, sys: Sys) {
    var s := sys.serve;
    && sys.pos <= |file|
    && |s.sent| >= 1
    && s.sent[0] == OkBytes(s.req)
    && Fits(OkHeader(s.req.mime, s.req.ext))
    && Body(s.sent) == file[..sys.pos]
    && ChunksBounded(s.sent)
    && (s.phase.WritePending? || s.phase.ReadPending? || s.phase.Closed?)
    && (s.phase.WritePending? ==> s.phase.buf == s.sent[|s.sent| - 1])
    && (s.phase.ReadPending? ==> s.phase.len == Chunk)
  }

  /** What holds of every state a run reaches from `Init`. */
  predicate Inv(file: seq<byte>, sys: Sys) {
    var s := sys.serve;
    && sys.pos <= |file|
    && match s.file
       case Unopened =>
         && sys.pos == 0
         && (|| (s.phase.OpenPending? && s.sent == [])
             || (s.sent == [NotFoundBytes()] && (s.phase == WritePending(NotFoundBytes(), true) || s.phase.Closed?)))
       case Open(_) =>
         || (s.phase.Undefined? && s.sent == [] && !Fits(OkHeader(s.req.mime, s.req.ext)))
         || OkPath(file, sys)
       case Released =>
         && OkPath(file, sys)
         && sys.pos == |file|
         && (s.phase == WritePending([], true) || s.phase.Closed?)
  }

  /** How many more events a run can take from here at most. */
  function Measure(file: seq<byte>, sys: Sys): nat
  {
    var left := if sys.pos <= |file| then |file| - sys.pos else 0;
    match sys.serve.phase
    case OpenPending => 2 * left + 4
    case WritePending(_, done) => if done then 1 else 2 * left + 3
    case ReadPending(_) => 2 * left + 2
    case Closed => 0
    case Undefined => 0
  }

  lemma ConcatSnoc(bufs: seq<seq<byte>>, buf: seq<byte>)
    ensures Concat(bufs + [buf]) == Concat(bufs) + buf
  {
    assert (bufs + [buf])[..|bufs|] == bufs;
  }

  /** Writing one more buffer after the header extends the body by it. */
  lemma BodySnoc(sent: seq<seq<byte>>, buf: seq<byte>)
    requires |sent| >= 1
    ensures Body(sent + [buf]) == Body(sent) + buf
  {
    assert (sent + [buf])[1..] == sent[1..] + [buf];
    ConcatSnoc(sent[1..], buf);
  }

  /** The state before the open completes. */
  predicate Fresh(sys: Sys) {
    sys.serve.file == Unopened && sys.serve.sent == [] && sys.pos == 0 && sys.serve.phase.OpenPending?
  }

  lemma OpenMissingKeepsInv(file: seq<byte>, sys: Sys, result: int)
    requires Fresh(sys) && result < 0
    ensures Inv(file, Advance(file, sys, OpenDone(result)))
    ensures Measure(file, Advance(file, sys, OpenDone(result))) < Measure(file, sys)
  {
    var next := Advance(file, sys, OpenDone(result));
    assert next.serve.phase == WritePending(NotFoundBytes(), true);
    assert next.serve.sent == [NotFoundBytes()];
  }

  lemma OpenFoundKeepsInv(file: seq<byte>, sys: Sys, result: int)
    requires Fresh(sys) && result >= 0
    ensures Inv(file, Advance(file, sys, OpenDone(result)))
    ensures Measure(file, Advance(file, sys, OpenDone(result))) < Measure(file, sys)
  {
    var s := sys.serve;
    var next := Advance(file, sys, OpenDone(result));
    if Fits(OkHeader(s.req.mime, s.req.ext)) {
      assert next.serve.phase == WritePending(OkBytes(s.req), false);
      assert next.serve.sent == [OkBytes(s.req)];
      assert next.serve.sent[1..] == [];
      assert OkPath(file, next);
    }
  }

  lemma InvBeforeOpen(file: seq<byte>, sys: Sys)
    requires Inv(file, sys) && sys.serve.phase.OpenPending?
    ensures Fresh(sys)
  {
  }

  lemma OpenKeepsInv(file: seq<byte>, sys: Sys, result: int)
    requires Inv(file, sys) && Allowed(file, sys, OpenDone(result))
    ensures Inv(file, Advance(file, sys, OpenDone(result)))
    ensures Measure(file, Advance(file, sys, OpenDone(result))) < Measure(file, sys)
  {
    InvBeforeOpen(file, sys);
    if result < 0 {
      OpenMissingKeepsInv(file, sys, result);
    } else {
      OpenFoundKeepsInv(file, sys, result);
    }
  }

  lemma SendKeepsInv(file: seq<byte>, sys: Sys, status: int)
    requires Inv(file, sys) && Allowed(file, sys, WriteDone(status))
    ensures Inv(file, Advance(file, sys, WriteDone(status)))
    ensures Measure(file, Advance(file, sys, WriteDone(status))) < Measure(file, sys)
  {
  }

  /** Writing the next bytes of the file after a read keeps the 200 path. */
  lemma OkPathRead(file: seq<byte>, sys: Sys, data: seq<byte>)
    requires OkPath(file, sys) && sys.serve.phase.ReadPending?
    requires 0 < |data| <= Chunk && sys.pos + |data| <= |file| && data == file[sys.pos..sys.pos + |data|]
    ensures OkPath(file, Sys(Send(sys.serve, data, false), sys.pos + |data|))
  {
    var s := sys.serve;
    var next := Sys(Send(s, data, false), sys.pos + |data|);
    assert next.serve.sent == s.sent + [data];
    assert Body(next.serve.sent) == file[..next.pos] by {
      BodySnoc(s.sent, data);
      assert file[..sys.pos + |data|] == file[..sys.pos] + data;
    }
    assert ChunksBounded(next.serve.sent) by {
      assert forall i :: 1 <= i < |s.sent| ==> next.serve.sent[i] == s.sent[i];
    }
  }

  lemma ReadDataKeepsInv(file: seq<byte>, sys: Sys, result: int, data: seq<byte>)
    requires Inv(file, sys) && Allowed(file, sys, ReadDone(result, data)) && result > 0
    ensures Inv(file, Advance(file, sys, ReadDone(result, data)))
  {
    var s := sys.serve;
    assert s.file.Open? && OkPath(file, sys) && s.phase.len == Chunk;
    assert Advance(file, sys, ReadDone(result, data)) == Sys(Send(s, data, false), sys.pos + |data|);
    OkPathRead(file, sys, data);
  }

  lemma ReadEndKeepsInv(file: seq<byte>, sys: Sys, result: int, data: seq<byte>)
    requires Inv(file, sys) && Allowed(file, sys, ReadDone(result, data)) && result <= 0
    ensures Inv(file, Advance(file, sys, ReadDone(result, data)))
  {
    var s := sys.serve;
    var next := Advance(file, sys, ReadDone(result, data));
    assert OkPath(file, sys);
    BodySnoc(s.sent, []);
    assert Body(s.sent) + [] == Body(s.sent);
    assert OkPath(file, next);
  }

  lemma ReadKeepsInv(file: seq<byte>, sys: Sys, result: int, data: seq<byte>)
    requires Inv(file, sys) && Allowed(file, sys, ReadDone(result, data))
    ensures Inv(file, Advance(file, sys, ReadDone(result, data)))
    ensures Measure(file, Advance(file, sys, ReadDone(result, data))) < Measure(file, sys)
  {
    if result > 0 {
      ReadDataKeepsInv(file, sys, result, data);
    } else {
      ReadEndKeepsInv(file, sys, result, data);
    }
  }

  /** Every allowed step keeps the invariant and lowers the measure. */
  lemma AdvanceKeepsInv(file: seq<byte>, sys: Sys, ev: Event)
    requires Inv(file, sys) && Allowed(file, sys, ev)
    ensures Inv(file, Advance(file, sys, ev))
    ensures Measure(file, Advance(file, sys, ev)) < Measure(file, sys)
  {
    match ev
    case OpenDone(result) => OpenKeepsInv(file, sys, result);
    case WriteDone(status) => SendKeepsInv(file, sys, status);
    case ReadDone(result, data) => ReadKeepsInv(file, sys, result, data);
  }

  /** A run from a state that satisfies the invariant ends in one that
      does, after no more events than the measure allows: every run of the
      responder is finite. */
  lemma {:induction false} ReplayKeepsInv(file: seq<byte>, sys: Sys, evs: seq<Event>)
    requires Inv(file, sys) && Replay(file, sys, evs).Some?
    ensures Inv(file, Replay(file, sys, evs).value)
    ensures |evs| + Measure(file, Replay(file, sys, evs).value) <= Measure(file, sys)
    decreases |evs|
  {
    if evs != [] {
      AdvanceKeepsInv(file, sys, evs[0]);
      ReplayKeepsInv(file, Advance(file, sys, evs[0]), evs[1..]);
    }
  }

  /** Every run from a new context has at most `2 * |file| + 4` events. */
  lemma RunsTerminate(file: seq<byte>, req: Request, evs: seq<Event>)
    requires Replay(file, Init(req), evs).Some?
    ensures |evs| <= 2 * |file| + 4
  {
    ReplayKeepsInv(file, Init(req), evs);
  }

  /** The completion a well-behaved runtime delivers next: the open gives
      `openResult`, writes succeed, and reads return as much of the rest of
      the file as one `CHUNK` holds. */
  function NextEvent(file: seq<byte>, sys: Sys, openResult: int): (ev: Event)
    requires Inv(file, sys) && !Terminal(sys.serve)
    ensures Allowed(file, sys, ev)
    ensures ev.ReadDone? ==> ev.result >= 0
  {
    match sys.serve.phase
    case OpenPending => OpenDone(openResult)
    case WritePending(_, _) => WriteDone(0)
    case ReadPending(len) =>
      var n := if |file| - sys.pos < len then |file| - sys.pos else len;
      ReadDone(n, file[sys.pos..sys.pos + n])
  }

  /** The events `evs` followed by `ev` reach the state `ev` leads to from
      where `evs` end. */
  lemma {:induction false} ReplaySnoc(file: seq<byte>, sys: Sys, evs: seq<Event>, ev: Event)
    requires Replay(file, sys, evs).Some? && Allowed(file, Replay(file, sys, evs).value, ev)
    ensures Replay(file, sys, evs + [ev]) == Some(Advance(file, Replay(file, sys, evs).value, ev))
    decreases |evs|
  {
    if evs == [] {
      assert [] + [ev] == [ev];
    } else {
      assert (evs + [ev])[0] == evs[0];
      assert (evs + [ev])[1..] == evs[1..] + [ev];
      ReplaySnoc(file, Advance(file, sys, evs[0]), evs[1..], ev);
    }
  }

  /** Once the open has completed the handle is never unopened again. */
  lemma {:induction false} OpenedStaysOpened(file: seq<byte>, sys: Sys, evs: seq<Event>)
    requires Inv(file, sys) && !sys.serve.file.Unopened? && Replay(file, sys, evs).Some?
    ensures !Replay(file, sys, evs).value.serve.file.Unopened?
    decreases |evs|
  {
    if evs != [] {
      AdvanceKeepsInv(file, sys, evs[0]);
      OpenedStaysOpened(file, Advance(file, sys, evs[0]), evs[1..]);
    }
  }

  /** While the handle is unopened no read completes: after a failed open
      the file is never read. */
  lemma {:induction false} NoReadWithoutFile(file: seq<byte>, sys: Sys, evs: seq<Event>)
    requires Inv(file, sys) && sys.serve.file.Unopened? && Replay(file, sys, evs).Some?
    requires Replay(file, sys, evs).value.serve.file.Unopened?
    ensures forall i :: 0 <= i < |evs| ==> !evs[i].ReadDone?
    decreases |evs|
  {
    if evs != [] {
      var next := Advance(file, sys, evs[0]);
      AdvanceKeepsInv(file, sys, evs[0]);
      if next.serve.file.Unopened? {
        NoReadWithoutFile(file, next, evs[1..]);
        assert forall i :: 1 <= i < |evs| ==> evs[i] == evs[1..][i - 1];
      } else {
        OpenedStaysOpened(file, next, evs[1..]);
        assert false;
      }
    }
  }

  /** A read that failed. */
  predicate ReadError(ev: Event) {
    ev.ReadDone? && ev.result < 0
  }

  /** The context has given up on an open file: the read error path,
      which writes nothing more and never closes the handle. */
  predicate Abandoned(sys: Sys) {
    && sys.serve.file.Open?
    && (sys.serve.phase.Closed? || (sys.serve.phase.WritePending? && sys.serve.phase.done))
  }

  /** One step abandons the file exactly when it is a read error, and an
      abandoned file stays abandoned. */
  lemma AbandonedStep(file: seq<byte>, sys: Sys, ev: Event)
    requires Inv(file, sys) && Allowed(file, sys, ev)
    ensures Abandoned(Advance(file, sys, ev)) <==> Abandoned(sys) || ReadError(ev)
  {
    if ev.OpenDone? {
      InvBeforeOpen(file, sys);
    }
  }

  /** The handle is left open at the end of a run exactly when a read
      failed along the way (or it was already abandoned). */
  lemma {:induction false} AbandonedIffReadError(file: seq<byte>, sys: Sys, evs: seq<Event>)
    requires Inv(file, sys) && Replay(file, sys, evs).Some?
    ensures Abandoned(Replay(file, sys, evs).value) <==>
            Abandoned(sys) || exists i :: 0 <= i < |evs| && ReadError(evs[i])
    decreases |evs|
  {
    if evs != [] {
      var next := Advance(file, sys, evs[0]);
      AbandonedStep(file, sys, evs[0]);
      AdvanceKeepsInv(file, sys, evs[0]);
      AbandonedIffReadError(file, next, evs[1..]);
      assert forall i :: 1 <= i < |evs| ==> evs[i] == evs[1..][i - 1];
      if exists i :: 0 <= i < |evs| && ReadError(evs[i]) {
        var i :| 0 <= i < |evs| && ReadError(evs[i]);
        if i > 0 {
          assert ReadError(evs[1..][i - 1]);
        }
      }
    }
  }

  /** The request a context serves never changes. */
  lemma {:induction false} ReplayKeepsRequest(file: seq<byte>, sys: Sys, evs: seq<Event>)
    requires Replay(file, sys, evs).Some?
    ensures Replay(file, sys, evs).value.serve.req == sys.serve.req
    decreases |evs|
  {
    if evs != [] {
      ReplayKeepsRequest(file, Advance(file, sys, evs[0]), evs[1..]);
    }
  }

  /** A closed context that satisfies the invariant wrote the 404 header
      alone, or the 200 header and a prefix of the file, the whole of it
      once the handle is released. */
  lemma ClosedState(file: seq<byte>, sys: Sys)
    requires Inv(file, sys) && sys.serve.phase.Closed?
    ensures sys.serve.file.Unopened? ==> sys.serve.sent == [NotFoundBytes()]
    ensures !sys.serve.file.Unopened? ==>
              && sys.pos <= |file|
              && |sys.serve.sent| >= 1
              && sys.serve.sent[0] == OkBytes(sys.serve.req)
              && Body(sys.serve.sent) == file[..sys.pos]
              && ChunksBounded(sys.serve.sent)
    ensures sys.serve.file.Released? ==> Body(sys.serve.sent) == file
  {
    if sys.serve.file.Released? {
      assert file[..|file|] == file;
    }
  }

  /** What a finished run has written. A failed open wrote the 404 header
      and nothing else, without reading. A successful open wrote the 200
      header, then the file from the start in chunks of at most `CHUNK`
      bytes; the whole file when the handle was closed at end of file,
      which happens exactly when no read failed. */
  lemma ClosedRun(file: seq<byte>, req: Request, evs: seq<Event>)
    requires Replay(file, Init(req), evs).Some? && Replay(file, Init(req), evs).value.serve.phase.Closed?
    ensures var s := Replay(file, Init(req), evs).value.serve;
            s.file.Unopened? ==> s.sent == [NotFoundBytes()] && forall i :: 0 <= i < |evs| ==> !evs[i].ReadDone?
    ensures var sys := Replay(file, Init(req), evs).value;
            !sys.serve.file.Unopened? ==>
              && sys.pos <= |file|
              && |sys.serve.sent| >= 1
              && sys.serve.sent[0] == OkBytes(req)
              && Body(sys.serve.sent) == file[..sys.pos]
              && ChunksBounded(sys.serve.sent)
    ensures var s := Replay(file, Init(req), evs).value.serve;
            s.file.Released? ==> Body(s.sent) == file
    ensures var s := Replay(file, Init(req), evs).value.serve;
            s.file.Open? <==> exists i :: 0 <= i < |evs| && ReadError(evs[i])
  {
    var final := Replay(file, Init(req), evs).value;
    ReplayKeepsInv(file, Init(req), evs);
    ReplayKeepsRequest(file, Init(req), evs);
    ClosedState(file, final);
    AbandonedIffReadError(file, Init(req), evs);
    if final.serve.file.Unopened? {
      NoReadWithoutFile(file, Init(req), evs);
    }
  }

  /** Running one allowed event and then the rest is running them all. */
  lemma ReplayCons(file: seq<byte>, sys: Sys, ev: Event, evs: seq<Event>)
    requires Allowed(file, sys, ev)
    ensures Replay(file, sys, [ev] + evs) == Replay(file, Advance(file, sys, ev), evs)
  {
    assert ([ev] + evs)[0] == ev && ([ev] + evs)[1..] == evs;
  }

  /** The first three steps of serving an empty file. */
  lemma EmptyFileSteps(req: Request, fd: nat)
    requires Fits(OkHeader(req.mime, req.ext))
    ensures var s1 := Sys(Serve(req, WritePending(OkBytes(req), false), Open(fd), [OkBytes(req)]), 0);
            && Allowed([], Init(req), OpenDone(fd)) && Advance([], Init(req), OpenDone(fd)) == s1
    ensures var s1 := Sys(Serve(req, WritePending(OkBytes(req), false), Open(fd), [OkBytes(req)]), 0);
            var s2 := Sys(Serve(req, ReadPending(Chunk), Open(fd), [OkBytes(req)]), 0);
            && Allowed([], s1, WriteDone(0)) && Advance([], s1, WriteDone(0)) == s2
    ensures var s2 := Sys(Serve(req, ReadPending(Chunk), Open(fd), [OkBytes(req)]), 0);
            var s3 := Sys(Serve(req, WritePending([], true), Released, [OkBytes(req), []]), 0);
            && Allowed([], s2, ReadDone(0, [])) && Advance([], s2, ReadDone(0, [])) == s3
  {
  }

  /** An empty file: the 200 header, then one empty write at end of file,
      then the connection closes with the handle released. */
  lemma EmptyFileRun(req: Request, fd: nat)
    requires Fits(OkHeader(req.mime, req.ext))
    ensures Replay([], Init(req), [OpenDone(fd), WriteDone(0), ReadDone(0, []), WriteDone(0)]) ==
            Some(Sys(Serve(req, Closed, Released, [OkBytes(req), []]), 0))
  {
    var s1 := Sys(Serve(req, WritePending(OkBytes(req), false), Open(fd), [OkBytes(req)]), 0);
    var s2 := Sys(Serve(req, ReadPending(Chunk), Open(fd), [OkBytes(req)]), 0);
    var s3 := Sys(Serve(req, WritePending([], true), Released, [OkBytes(req), []]), 0);
    var s4 := Sys(Serve(req, Closed, Released, [OkBytes(req), []]), 0);
    EmptyFileSteps(req, fd);
    assert Advance([], s3, WriteDone(0)) == s4;
    ReplayCons([], s3, WriteDone(0), []);
    ReplayCons([], s2, ReadDone(0, []), [WriteDone(0)]);
    ReplayCons([], s1, WriteDone(0), [ReadDone(0, []), WriteDone(0)]);
    ReplayCons([], Init(req), OpenDone(fd), [WriteDone(0), ReadDone(0, []), WriteDone(0)]);
    assert [WriteDone(0)] + [] == [WriteDone(0)];
    assert [ReadDone(0, [])] + [WriteDone(0)] == [ReadDone(0, []), WriteDone(0)];
    assert [WriteDone(0)] + [ReadDone(0, []), WriteDone(0)] == [WriteDone(0), ReadDone(0, []), WriteDone(0)];
    assert [OpenDone(fd)] + [WriteDone(0), ReadDone(0, []), WriteDone(0)]
        == [OpenDone(fd), WriteDone(0), ReadDone(0, []), WriteDone(0)];
  }

  /** Serves `file` for `req` against a runtime whose open gives
      `openResult`, whose writes succeed and whose reads return as much of
      the rest of the file as one `CHUNK` holds, until no operation is in
      flight. A missing file gets the 404 header alone; an opened file
      gets the 200 header and then exactly its bytes, in chunks of at most
      `CHUNK`, unless the header overran the serve buffer. */
  method ServeFile(file: seq<byte>, req: Request, openResult: int) returns (sent: seq<seq<byte>>, evs: seq<Event>)
    ensures Replay(file, Init(req), evs).Some?
    ensures sent == Replay(file, Init(req), evs).value.serve.sent
    ensures |evs| <= 2 * |file| + 4
    ensures openResult < 0 ==> sent == [NotFoundBytes()]
    ensures openResult >= 0 && Fits(OkHeader(req.mime, req.ext)) ==>
              && |sent| >= 1
              && sent[0] == OkBytes(req)
              && Body(sent) == file
              && ChunksBounded(sent)
    ensures openResult >= 0 && !Fits(OkHeader(req.mime, req.ext)) ==> sent == []
    ensures var fin := Replay(file, Init(req), evs).value.serve;
            (openResult < 0 || Fits(OkHeader(req.mime, req.ext))) ==> fin.phase.Closed?
    ensures var fin := Replay(file, Init(req), evs).value.serve;
            openResult < 0 ==> fin.file.Unopened?
    ensures var fin := Replay(file, Init(req), evs).value.serve;
            openResult >= 0 && Fits(OkHeader(req.mime, req.ext)) ==> fin.file.Released?
  {
    var sys := Init(req);
    evs := [];
    while !Terminal(sys.serve)
      invariant Inv(file, sys) && !Abandoned(sys) && sys.serve.req == req
      invariant Replay(file, Init(req), evs) == Some(sys)
      invariant evs == [] ==> sys == Init(req)
      invariant evs != [] ==> (sys.serve.file.Unopened? <==> openResult < 0)
      decreases Measure(file, sys)
    {
      var ev := NextEvent(file, sys, openResult);
      AdvanceKeepsInv(file, sys, ev);
      AbandonedStep(file, sys, ev);
      ReplaySnoc(file, Init(req), evs, ev);
      var next := Advance(file, sys, ev);
      if !sys.serve.file.Unopened? {
        assert !next.serve.file.Unopened?;
      }
      sys := next;
      evs := evs + [ev];
    }
    sent := sys.serve.sent;
    RunsTerminate(file, req, evs);
    if sys.serve.phase.Closed? {
      ClosedState(file, sys);
    }
  }
}
