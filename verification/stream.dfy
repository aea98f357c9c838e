/** The MJPEG stream handler: one loop iteration per frame (capture, normalise to JPEG, send the three
    chunks of a multipart part, release the frame buffer) and the session around it (seeding and
    resetting the frame clock, feeding the frame interval to the shared rolling-average filter).
    Camera, encoder, transport and clock are foreign calls; their outcomes are inputs, and the calls
    the handler makes are recorded as a trace of events. */
module Stream {
  import opened CInt
  import opened Optional
  import opened Framing
  import RollingAverage

  /** `esp_err_t` codes: success, and the generic failure the handler reports itself. */
  const EspOk: int := 0
  const EspFail: int := -1

  /** A buffer address, never NULL; a possibly-NULL pointer is an `Option<Ptr>` with NULL as `None`. */
  type Ptr = p: nat | 0 < p witness 1

  /** Only `PIXFORMAT_JPEG` is sent as captured; every other pixel format is re-encoded. */
  datatype PixFormat = Jpeg | Other

  /** A camera frame buffer: its address, payload length, pixel format and capture timestamp. */
  datatype Frame = Frame(buf: Ptr, len: U32, format: PixFormat, sec: I32, usec: I32)

  /** Outcome of `frame2jpg`: a newly allocated JPEG buffer and its length, or failure. */
  datatype Conversion = Converted(buf: Ptr, len: U32) | ConversionFailed

  /** What `httpd_resp_send_chunk` returns for the boundary, header and payload chunks. */
  datatype SendResults = SendResults(boundary: int, header: int, payload: int)

  /** The outcomes of the foreign calls one iteration may make: `esp_camera_fb_get` (None for a NULL
      frame), `frame2jpg`, the three sends, and `esp_timer_get_time` at the end of the iteration.
      Each is consulted only if the handler actually makes that call. */
  datatype IterationInput = IterationInput(capture: Option<Frame>, conversion: Conversion, sends: SendResults, clock: int)

  /** A chunk handed to the transport: the part boundary, the part header announcing the given fields,
      or `len` bytes of a buffer. */
  datatype Chunk = BoundaryChunk | HeaderChunk(fields: PartFields) | PayloadChunk(buf: Ptr, len: nat)

  /** The bytes of a text chunk on the wire. */
  function Text(c: Chunk): string
    requires !c.PayloadChunk?
  {
    if c.BoundaryChunk? then StreamBoundary else PartHeader(c.fields.contentLength, c.fields.seconds, c.fields.micros)
  }

  /** The calls that move or use buffers, in the order the handler makes them. */
  datatype Event =
    | Acquire(buf: Ptr)                   // esp_camera_fb_get returned this frame buffer
    | Encode(src: Ptr, out: Option<Ptr>)  // frame2jpg on a frame, and the buffer it allocated if it succeeded
    | Return(buf: Ptr)                    // esp_camera_fb_return
    | Free(buf: Ptr)                      // free
    | Send(chunk: Chunk)                  // httpd_resp_send_chunk

  /** Events an iteration produced, and the value of `res` after it. */
  datatype Outcome = Outcome(events: seq<Event>, res: int)

  // ---------------------------------------------------------------- reference behaviour

  /** The three chunks of one part, stated case by case: each is sent only if the one before it
      succeeded, and the result is that of the last send attempted. */
  function Emission(buf: Ptr, len: U32, sec: I32, usec: I32, r: SendResults): Outcome
  {
    var boundary := Send(BoundaryChunk);
    var header := Send(HeaderChunk(PartFields(len, sec, usec)));
    var payload := Send(PayloadChunk(buf, len));
    if r.boundary != EspOk then Outcome([boundary], r.boundary)
    else if r.header != EspOk then Outcome([boundary] + [header], r.header)
    else Outcome([boundary] + [header] + [payload], r.payload)
  }

  /** One iteration, stated case by case: no frame means nothing is sent or released; a JPEG frame is
      sent from the camera buffer and returned afterwards; any other frame is re-encoded and returned at
      once, and the new buffer is sent and then freed, unless re-encoding failed. */
  function Expected(inp: IterationInput): Outcome
  {
    match inp.capture
    case None => Outcome([], EspFail)
    case Some(f) =>
      if f.format == Jpeg then
        var e := Emission(f.buf, f.len, f.sec, f.usec, inp.sends);
        Outcome([Acquire(f.buf)] + e.events + [Return(f.buf)], e.res)
      else
        match inp.conversion
        case ConversionFailed => Outcome([Acquire(f.buf)] + [Encode(f.buf, None)] + [Return(f.buf)], EspFail)
        case Converted(b, len) =>
          var e := Emission(b, len, f.sec, f.usec, inp.sends);
          Outcome([Acquire(f.buf)] + [Encode(f.buf, Some(b))] + [Return(f.buf)] + e.events + [Free(b)], e.res)
  }

  /** `malloc` never hands out the address of a frame buffer the camera still owns. */
  predicate Plausible(inp: IterationInput)
  {
    (inp.capture.Some? && inp.capture.value.format != Jpeg && inp.conversion.Converted?)
      ==> inp.conversion.buf != inp.capture.value.buf
  }

  // ---------------------------------------------------------------- buffer ownership

  /** Who must release a held buffer: the camera driver, or the heap. */
  datatype Owner = Camera | Heap

  /** One event against the set of held buffers; None when the event misuses a buffer (acquires one
      already held, releases one not held or by the wrong route, or sends from one not held). */
  function Apply(e: Event, held: map<Ptr, Owner>): Option<map<Ptr, Owner>>
  {
    match e
    case Acquire(p) => if p in held then None else Some(held[p := Camera])
    case Encode(src, out) =>
      if src !in held || held[src] != Camera then None
      else if out.None? then Some(held)
      else if out.value in held then None
      else Some(held[out.value := Heap])
    case Return(p) => if p in held && held[p] == Camera then Some(held - {p}) else None
    case Free(p) => if p in held && held[p] == Heap then Some(held - {p}) else None
    case Send(c) => if c.PayloadChunk? && c.buf !in held then None else Some(held)
  }

  function Replay(events: seq<Event>, held: map<Ptr, Owner>): Option<map<Ptr, Owner>>
    decreases |events|
  {
    if |events| == 0 then Some(held)
    else
      match Apply(events[0], held)
      case None => None
      case Some(next) => Replay(events[1..], next)
  }

  /** A trace in which every buffer is used only while held and released exactly once, by the route
      its owner requires, and nothing is held at the end. */
  predicate Balanced(events: seq<Event>)
  {
    Replay(events, map[]) == Some(map[])
  }

  lemma {:induction false} ReplayConcat(a: seq<Event>, b: seq<Event>, held: map<Ptr, Owner>)
    ensures Replay(a + b, held) == (match Replay(a, held) case None => None case Some(h) => Replay(b, h))
    decreases |a|
  {
    if |a| == 0 {
      assert a + b == b;
    } else {
      assert (a + b)[0] == a[0];
      assert (a + b)[1..] == a[1..] + b;
      match Apply(a[0], held)
      case None =>
      case Some(h) => ReplayConcat(a[1..], b, h);
    }
  }

  lemma BalancedConcat(a: seq<Event>, b: seq<Event>)
    requires Balanced(a) && Balanced(b)
    ensures Balanced(a + b)
  {
    ReplayConcat(a, b, map[]);
  }

  lemma ReplayOne(e: Event, held: map<Ptr, Owner>)
    ensures Replay([e], held) == Apply(e, held)
  {
    assert [e][1..] == [];
  }

  lemma ReplayThen(a: seq<Event>, e: Event, held: map<Ptr, Owner>, mid: map<Ptr, Owner>)
    requires Replay(a, held) == Some(mid)
    ensures Replay(a + [e], held) == Apply(e, mid)
  {
    ReplayConcat(a, [e], held);
    ReplayOne(e, mid);
  }

  lemma EmissionKeepsOwnership(buf: Ptr, len: U32, sec: I32, usec: I32, r: SendResults, held: map<Ptr, Owner>)
    requires buf in held
    ensures Replay(Emission(buf, len, sec, usec, r).events, held) == Some(held)
  {
    var boundary := Send(BoundaryChunk);
    var header := Send(HeaderChunk(PartFields(len, sec, usec)));
    ReplayOne(boundary, held);
    ReplayThen([boundary], header, held, held);
    ReplayThen([boundary] + [header], Send(PayloadChunk(buf, len)), held, held);
  }

  /** Every iteration, on every outcome of the foreign calls, leaves each buffer it acquired released
      exactly once, by the right route, and sends the payload only from a buffer still held. */
  lemma ExpectedBalanced(inp: IterationInput)
    requires Plausible(inp)
    ensures Balanced(Expected(inp).events)
  {
    match inp.capture
    case None =>
    case Some(f) =>
      var empty: map<Ptr, Owner> := map[];
      var held := empty[f.buf := Camera];
      assert held - {f.buf} == empty;
      ReplayOne(Acquire(f.buf), empty);
      if f.format == Jpeg {
        var e := Emission(f.buf, f.len, f.sec, f.usec, inp.sends);
        EmissionKeepsOwnership(f.buf, f.len, f.sec, f.usec, inp.sends, held);
        ReplayConcat([Acquire(f.buf)], e.events, empty);
        ReplayThen([Acquire(f.buf)] + e.events, Return(f.buf), empty, held);
      } else {
        match inp.conversion
        case ConversionFailed =>
          ReplayThen([Acquire(f.buf)], Encode(f.buf, None), empty, held);
          ReplayThen([Acquire(f.buf)] + [Encode(f.buf, None)], Return(f.buf), empty, held);
        case Converted(b, len) =>
          var e := Emission(b, len, f.sec, f.usec, inp.sends);
          var both := held[b := Heap];
          var heap := empty[b := Heap];
          assert both - {f.buf} == heap;
          assert heap - {b} == empty;
          ReplayThen([Acquire(f.buf)], Encode(f.buf, Some(b)), empty, held);
          ReplayThen([Acquire(f.buf)] + [Encode(f.buf, Some(b))], Return(f.buf), empty, both);
          var prefix := [Acquire(f.buf)] + [Encode(f.buf, Some(b))] + [Return(f.buf)];
          EmissionKeepsOwnership(b, len, f.sec, f.usec, inp.sends, heap);
          ReplayConcat(prefix, e.events, empty);
          ReplayThen(prefix + e.events, Free(b), empty, heap);
      }
  }

  /** The release calls of a trace, in order. */
  function Releases(events: seq<Event>): (r: seq<Event>)
    ensures forall k :: 0 <= k < |r| ==> r[k].Return? || r[k].Free?
    decreases |events|
  {
    if |events| == 0 then []
    else (if events[0].Return? || events[0].Free? then [events[0]] else []) + Releases(events[1..])
  }

  lemma {:induction false} ReleasesConcat(a: seq<Event>, b: seq<Event>)
    ensures Releases(a + b) == Releases(a) + Releases(b)
    decreases |a|
  {
    if |a| == 0 {
      assert a + b == b;
    } else {
      assert (a + b)[0] == a[0];
      assert (a + b)[1..] == a[1..] + b;
      ReleasesConcat(a[1..], b);
    }
  }

  lemma ReleasesOne(e: Event)
    ensures Releases([e]) == if e.Return? || e.Free? then [e] else []
  {
    assert [e][1..] == [];
  }

  /** The chunks a trace sends, in order. */
  function Sent(events: seq<Event>): (r: seq<Chunk>)
    ensures |r| <= |events|
    decreases |events|
  {
    if |events| == 0 then []
    else (if events[0].Send? then [events[0].chunk] else []) + Sent(events[1..])
  }

  lemma {:induction false} SentConcat(a: seq<Event>, b: seq<Event>)
    ensures Sent(a + b) == Sent(a) + Sent(b)
    decreases |a|
  {
    if |a| == 0 {
      assert a + b == b;
    } else {
      assert (a + b)[0] == a[0];
      assert (a + b)[1..] == a[1..] + b;
      SentConcat(a[1..], b);
    }
  }

  lemma SentOne(e: Event)
    ensures Sent([e]) == if e.Send? then [e.chunk] else []
  {
    assert [e][1..] == [];
  }

  /** The chunks of one part, in wire order. */
  function PartChunks(buf: Ptr, len: U32, sec: I32, usec: I32): seq<Chunk>
  {
    [BoundaryChunk, HeaderChunk(PartFields(len, sec, usec)), PayloadChunk(buf, len)]
  }

  /** An emission sends a non-empty prefix of the part's chunks. */
  lemma EmissionSends(buf: Ptr, len: U32, sec: I32, usec: I32, r: SendResults)
    ensures var e := Emission(buf, len, sec, usec, r);
      && 1 <= |e.events| <= 3
      && Sent(e.events) == PartChunks(buf, len, sec, usec)[..|e.events|]
  {
    var chunks := PartChunks(buf, len, sec, usec);
    var boundary, header, payload := Send(chunks[0]), Send(chunks[1]), Send(chunks[2]);
    SentOne(boundary);
    assert chunks[..1] == [chunks[0]];
    if r.boundary == EspOk {
      SentOne(header);
      SentConcat([boundary], [header]);
      assert chunks[..2] == [chunks[0], chunks[1]];
      if r.header == EspOk {
        SentOne(payload);
        SentConcat([boundary] + [header], [payload]);
        assert chunks[..3] == chunks;
      }
    }
  }

  /** An emission releases nothing. */
  lemma EmissionReleasesNothing(buf: Ptr, len: U32, sec: I32, usec: I32, r: SendResults)
    ensures Releases(Emission(buf, len, sec, usec, r).events) == []
  {
    var chunks := PartChunks(buf, len, sec, usec);
    var boundary, header, payload := Send(chunks[0]), Send(chunks[1]), Send(chunks[2]);
    ReleasesOne(boundary);
    ReleasesOne(header);
    ReleasesOne(payload);
    ReleasesConcat([boundary], [header]);
    ReleasesConcat([boundary] + [header], [payload]);
  }

  /** Exactly-once release: a failed capture releases nothing; a JPEG frame is returned to the camera
      once, after its chunks; any other frame is returned once, straight after re-encoding, and the
      re-encoded buffer, if there is one, is freed once at the end. Nothing is both returned and freed. */
  lemma ReleasedExactlyOnce(inp: IterationInput)
    ensures var rel := Releases(Expected(inp).events);
      match inp.capture
      case None => rel == []
      case Some(f) =>
        if f.format == Jpeg || inp.conversion.ConversionFailed? then rel == [Return(f.buf)]
        else rel == [Return(f.buf), Free(inp.conversion.buf)]
  {
    match inp.capture
    case None =>
    case Some(f) =>
      ReleasesOne(Acquire(f.buf));
      ReleasesOne(Return(f.buf));
      if f.format == Jpeg {
        var e := Emission(f.buf, f.len, f.sec, f.usec, inp.sends);
        EmissionReleasesNothing(f.buf, f.len, f.sec, f.usec, inp.sends);
        ReleasesConcat([Acquire(f.buf)], e.events);
        ReleasesConcat([Acquire(f.buf)] + e.events, [Return(f.buf)]);
      } else {
        var out := if inp.conversion.Converted? then Some(inp.conversion.buf) else None;
        ReleasesOne(Encode(f.buf, out));
        ReleasesConcat([Acquire(f.buf)], [Encode(f.buf, out)]);
        var prefix := [Acquire(f.buf)] + [Encode(f.buf, out)] + [Return(f.buf)];
        ReleasesConcat([Acquire(f.buf)] + [Encode(f.buf, out)], [Return(f.buf)]);
        if inp.conversion.Converted? {
          var b, len := inp.conversion.buf, inp.conversion.len;
          var e := Emission(b, len, f.sec, f.usec, inp.sends);
          EmissionReleasesNothing(b, len, f.sec, f.usec, inp.sends);
          ReleasesOne(Free(b));
          ReleasesConcat(prefix, e.events);
          ReleasesConcat(prefix + e.events, [Free(b)]);
        }
      }
  }

  // ---------------------------------------------------------------- chunks on the wire

  /** What the transport returns for the `k`-th chunk of a part (boundary, header, payload). */
  function SendResult(r: SendResults, k: nat): int
    requires k < 3
  {
    if k == 0 then r.boundary else if k == 1 then r.header else r.payload
  }

  /** Whether an iteration reaches the sends: a frame was captured and, unless it is JPEG already,
      re-encoding produced a buffer. */
  predicate HasPayload(inp: IterationInput)
  {
    inp.capture.Some? && (inp.capture.value.format == Jpeg || inp.conversion.Converted?)
  }

  /** The part an iteration would send: from the camera buffer for a JPEG frame, from the re-encoded
      buffer otherwise, stamped with the frame's capture time either way. */
  function PartOf(inp: IterationInput): seq<Chunk>
    requires HasPayload(inp)
  {
    var f := inp.capture.value;
    if f.format == Jpeg then PartChunks(f.buf, f.len, f.sec, f.usec)
    else PartChunks(inp.conversion.buf, inp.conversion.len, f.sec, f.usec)
  }

  /** The sends of an iteration are those of its emission, and none when there is no payload. */
  lemma SentOfExpected(inp: IterationInput)
    ensures !HasPayload(inp) ==> Sent(Expected(inp).events) == [] && Expected(inp).res == EspFail
    ensures HasPayload(inp) ==>
      var f := inp.capture.value;
      var (buf, len) := if f.format == Jpeg then (f.buf, f.len) else (inp.conversion.buf, inp.conversion.len);
      && Expected(inp) .res == Emission(buf, len, f.sec, f.usec, inp.sends).res
      && Sent(Expected(inp).events) == Sent(Emission(buf, len, f.sec, f.usec, inp.sends).events)
  {
    match inp.capture
    case None =>
    case Some(f) =>
      SentOne(Acquire(f.buf));
      SentOne(Return(f.buf));
      if f.format == Jpeg {
        var e := Emission(f.buf, f.len, f.sec, f.usec, inp.sends);
        SentConcat([Acquire(f.buf)], e.events);
        SentConcat([Acquire(f.buf)] + e.events, [Return(f.buf)]);
      } else {
        var out := if inp.conversion.Converted? then Some(inp.conversion.buf) else None;
        SentOne(Encode(f.buf, out));
        SentConcat([Acquire(f.buf)], [Encode(f.buf, out)]);
        var prefix := [Acquire(f.buf)] + [Encode(f.buf, out)] + [Return(f.buf)];
        SentConcat([Acquire(f.buf)] + [Encode(f.buf, out)], [Return(f.buf)]);
        if inp.conversion.Converted? {
          var b, len := inp.conversion.buf, inp.conversion.len;
          var e := Emission(b, len, f.sec, f.usec, inp.sends);
          SentOne(Free(b));
          SentConcat(prefix, e.events);
          SentConcat(prefix + e.events, [Free(b)]);
        }
      }
  }

  /** Chunk order and gating: the chunks go out as boundary, header, payload, each only after the one
      before it succeeded, stopping at the first failure, whose code becomes the result; nothing is
      sent when capture or re-encoding failed, and the iteration succeeds only if all three sends did. */
  lemma ChunkDiscipline(inp: IterationInput)
    ensures var o := Expected(inp); var sent := Sent(o.events);
      && (!HasPayload(inp) <==> |sent| == 0)
      && (!HasPayload(inp) ==> o.res == EspFail)
      && (HasPayload(inp) ==> 1 <= |sent| <= 3 && sent == PartOf(inp)[..|sent|])
      && (forall k :: 0 <= k < |sent| - 1 ==> SendResult(inp.sends, k) == EspOk)
      && (0 < |sent| < 3 ==> SendResult(inp.sends, |sent| - 1) != EspOk)
      && (0 < |sent| ==> o.res == SendResult(inp.sends, |sent| - 1))
      && (o.res == EspOk <==> |sent| == 3 && inp.sends.payload == EspOk)
  {
    SentOfExpected(inp);
    if HasPayload(inp) {
      var f := inp.capture.value;
      var (buf, len) := if f.format == Jpeg then (f.buf, f.len) else (inp.conversion.buf, inp.conversion.len);
      EmissionSends(buf, len, f.sec, f.usec, inp.sends);
    }
  }

  /** The header a client reads back announces exactly the length of the payload chunk that follows
      it and the frame's capture timestamp. */
  lemma HeaderAnnouncesPayload(inp: IterationInput)
    requires HasPayload(inp)
    ensures var part := PartOf(inp);
      && part[0] == BoundaryChunk && Text(part[0]) == StreamBoundary
      && part[1].HeaderChunk? && part[2].PayloadChunk?
      && ParsePartHeader(Text(part[1]))
           == Some(PartFields(part[2].len, inp.capture.value.sec, inp.capture.value.usec))
  {
    var f := inp.capture.value;
    var len := if f.format == Jpeg then f.len else inp.conversion.len;
    ParsePartHeaderRoundTrip(len, f.sec, f.usec);
  }

  // ---------------------------------------------------------------- the handler

  /** The `snprintf` of the part header into the part buffer, with capacity 128: the buffer's contents and the
      length returned. The first `hlen` bytes, which the header send hands over, are exactly the
      header text of the part, so the send neither cuts the header short nor reads past it. */
  method FormatPart(len: U32, sec: I32, usec: I32) returns (partBuf: string, hlen: nat)
    ensures hlen <= |partBuf| < PartBufferSize
    ensures partBuf[..hlen] == Text(HeaderChunk(PartFields(len, sec, usec)))
  {
    PartHeaderFits(len, sec, usec);
    var written := Snprintf(PartBufferSize, PartHeader(len, sec, usec));
    partBuf, hlen := written.0, written.1;
  }

  /** The three gated `httpd_resp_send_chunk` calls of one part (entered with `res == ESP_OK`): the
      boundary, the header formatted into the part buffer, then the payload, each attempted only
      while every earlier send returned `ESP_OK`. */
  method SendPart(buf: Ptr, len: U32, sec: I32, usec: I32, sends: SendResults) returns (res: int, sent: seq<Event>)
    ensures Outcome(sent, res) == Emission(buf, len, sec, usec, sends)
  {
    res := EspOk;
    sent := [];
    if res == EspOk {
      sent := sent + [Send(BoundaryChunk)];
      res := sends.boundary;
    }
    if res == EspOk {
      var partBuf, hlen := FormatPart(len, sec, usec);
      // The chunk handed over is `partBuf[..hlen]`, recorded by the fields it renders.
      assert partBuf[..hlen] == Text(HeaderChunk(PartFields(len, sec, usec)));
      sent := sent + [Send(HeaderChunk(PartFields(len, sec, usec)))];
      res := sends.header;
    }
    if res == EspOk {
      sent := sent + [Send(PayloadChunk(buf, len))];
      res := sends.payload;
    }
  }

  /** One pass of the `while (true)` body, statement by statement. `jpgBufIn` is `_jpg_buf` as the
      previous pass left it (the C declares it outside the loop); the cleanup always leaves it NULL. */
  method Iteration(inp: IterationInput, jpgBufIn: Option<Ptr>) returns (res: int, events: seq<Event>, jpgBuf: Option<Ptr>)
    ensures jpgBuf == None
    ensures jpgBufIn == None ==> Outcome(events, res) == Expected(inp)
    ensures jpgBufIn == None && Plausible(inp) ==> Balanced(events)
  {
    res := EspOk;
    events := [];
    jpgBuf := jpgBufIn;
    var jpgLen: U32 := 0;
    var sec: I32, usec: I32 := 0, 0;
    var fb := inp.capture;
    if fb == None {
      res := EspFail;
    } else {
      var frame := fb.value;
      events := events + [Acquire(frame.buf)];
      sec, usec := frame.sec, frame.usec;
      if frame.format != Jpeg {
        var converted := inp.conversion.Converted?;
        if converted {
          jpgBuf, jpgLen := Some(inp.conversion.buf), inp.conversion.len;
        }
        events := events + [Encode(frame.buf, if converted then jpgBuf else None)];
        events := events + [Return(frame.buf)];
        fb := None;
        if !converted {
          res := EspFail;
        }
      } else {
        jpgLen, jpgBuf := frame.len, Some(frame.buf);
      }
    }
    ghost var front := events;
    var sent: seq<Event> := [];
    if res == EspOk {
      res, sent := SendPart(jpgBuf.value, jpgLen, sec, usec, inp.sends);
      events := events + sent;
    }
    ghost var back: seq<Event> := [];
    if fb.Some? {
      back := [Return(fb.value.buf)];
      events := events + [Return(fb.value.buf)];
      fb := None;
      jpgBuf := None;
    } else if jpgBuf.Some? {
      back := [Free(jpgBuf.value)];
      events := events + [Free(jpgBuf.value)];
      jpgBuf := None;
    }
    assert events == front + sent + back;
    if jpgBufIn == None && Plausible(inp) {
      ExpectedBalanced(inp);
    }
  }

  // ---------------------------------------------------------------- the session

  /** The state `stream_handler` shares across connections: the static `last_frame` clock (0 means
      unset) and the process-wide rolling-average filter. */
  datatype Shared = Shared(lastFrame: int, filter: RollingAverage.Filter)

  /** An iteration that completes: a frame was captured, normalised, and all three chunks sent. */
  predicate Succeeds(inp: IterationInput)
  {
    HasPayload(inp) && inp.sends.boundary == EspOk && inp.sends.header == EspOk && inp.sends.payload == EspOk
  }

  lemma SucceedsExactly(inp: IterationInput)
    ensures Expected(inp).res == EspOk <==> Succeeds(inp)
  {
    ChunkDiscipline(inp);
  }

  predicate AllPlausible(inputs: seq<IterationInput>)
  {
    forall j :: 0 <= j < |inputs| ==> Plausible(inputs[j])
  }

  /** The first `i + 1` iterations are plausible exactly when the first `i` are and the next one is. */
  lemma PlausibleStep(inputs: seq<IterationInput>, i: nat)
    requires i < |inputs|
    ensures AllPlausible(inputs[..i + 1]) <==> AllPlausible(inputs[..i]) && Plausible(inputs[i])
  {
    assert inputs[..i + 1][i] == inputs[i];
    assert forall j :: 0 <= j < i ==> inputs[..i + 1][j] == inputs[..i][j];
  }

  /** How many iterations run to completion before the first failing one. */
  function LeadingSuccesses(inputs: seq<IterationInput>): (k: nat)
    ensures k <= |inputs|
    ensures forall j :: 0 <= j < k ==> Succeeds(inputs[j])
    ensures k < |inputs| ==> !Succeeds(inputs[k])
    decreases |inputs|
  {
    if |inputs| == 0 || !Succeeds(inputs[0]) then 0 else 1 + LeadingSuccesses(inputs[1..])
  }

  /** The events of the given iterations, one after the other. */
  function Trace(inputs: seq<IterationInput>): seq<Event>
    decreases |inputs|
  {
    if |inputs| == 0 then [] else Trace(inputs[..|inputs| - 1]) + Expected(inputs[|inputs| - 1]).events
  }

  /** `last_frame` after the given successful iterations, starting from `seed`. */
  function LastClock(seed: int, inputs: seq<IterationInput>): int
  {
    if |inputs| == 0 then seed else inputs[|inputs| - 1].clock
  }

  /** The frame intervals fed to the filter: milliseconds since the previous frame (C division of the
      microsecond difference by 1000), the first measured from `seed`. */
  function FrameTimes(seed: int, inputs: seq<IterationInput>): (r: seq<int>)
    ensures |r| == |inputs|
    decreases |inputs|
  {
    if |inputs| == 0 then []
    else
      var earlier := inputs[..|inputs| - 1];
      FrameTimes(seed, earlier) + [TruncDiv(inputs[|inputs| - 1].clock - LastClock(seed, earlier), 1000)]
  }

  lemma LeadingSuccessesAt(inputs: seq<IterationInput>, i: nat)
    requires i <= |inputs|
    requires forall j :: 0 <= j < i ==> Succeeds(inputs[j])
    requires i < |inputs| ==> !Succeeds(inputs[i])
    ensures LeadingSuccesses(inputs) == i
  {
  }

  /** One more iteration extends the trace by its events. */
  lemma TraceStep(inputs: seq<IterationInput>, i: nat)
    requires i < |inputs|
    ensures Trace(inputs[..i + 1]) == Trace(inputs[..i]) + Expected(inputs[i]).events
  {
    assert inputs[..i + 1][..i] == inputs[..i];
  }

  /** One more successful iteration: its clock reading becomes `last_frame`, and its interval is the
      next sample of the filter. */
  lemma ClockStep(seed: int, f: RollingAverage.Filter, inputs: seq<IterationInput>, i: nat)
    requires i < |inputs| && RollingAverage.Valid(f)
    ensures LastClock(seed, inputs[..i + 1]) == inputs[i].clock
    ensures RollingAverage.Feed(f, FrameTimes(seed, inputs[..i + 1])).0
      == RollingAverage.Run(RollingAverage.Feed(f, FrameTimes(seed, inputs[..i])).0,
                            TruncDiv(inputs[i].clock - LastClock(seed, inputs[..i]), 1000)).filter
  {
    assert inputs[..i + 1][..i] == inputs[..i];
    var xs := FrameTimes(seed, inputs[..i + 1]);
    assert xs[..|xs| - 1] == FrameTimes(seed, inputs[..i]);
  }

  /** The state of `stream_handler` after `i` successful iterations started from `last_frame == seed`
      and the filter `filter0`: their events so far, `last_frame` at the last one's clock reading, and
      the filter fed with every interval. */
  ghost predicate Progress(seed: int, filter0: RollingAverage.Filter, inputs: seq<IterationInput>, i: nat,
                           events: seq<Event>, lastFrame: int, filter: RollingAverage.Filter)
  {
    && RollingAverage.Valid(filter0)
    && i <= |inputs|
    && (forall j :: 0 <= j < i ==> Succeeds(inputs[j]))
    && events == Trace(inputs[..i])
    && lastFrame == LastClock(seed, inputs[..i])
    && RollingAverage.Valid(filter)
    && filter == RollingAverage.Feed(filter0, FrameTimes(seed, inputs[..i])).0
    && (AllPlausible(inputs[..i]) ==> Balanced(events))
  }

  /** A successful iteration advances the state: its events are appended, its clock reading becomes
      `last_frame`, and the interval since the previous `last_frame`, in whole milliseconds, is fed to
      the filter. */
  lemma ProgressOnSuccess(seed: int, filter0: RollingAverage.Filter, inputs: seq<IterationInput>, i: nat,
                          events: seq<Event>, lastFrame: int, filter: RollingAverage.Filter)
    requires i < |inputs| && Succeeds(inputs[i])
    requires Progress(seed, filter0, inputs, i, events, lastFrame, filter)
    ensures Progress(seed, filter0, inputs, i + 1, events + Expected(inputs[i]).events, inputs[i].clock,
                     RollingAverage.Run(filter, TruncDiv(inputs[i].clock - lastFrame, 1000)).filter)
  {
    TraceStep(inputs, i);
    ClockStep(seed, filter0, inputs, i);
    PlausibleStep(inputs, i);
    if AllPlausible(inputs[..i + 1]) {
      ExpectedBalanced(inputs[i]);
      BalancedConcat(events, Expected(inputs[i]).events);
    }
  }

  /** A failing iteration ends the session: its events complete the trace, and the iterations before
      it are exactly the leading successes. */
  lemma ProgressOnFailure(seed: int, filter0: RollingAverage.Filter, inputs: seq<IterationInput>, i: nat,
                          events: seq<Event>, lastFrame: int, filter: RollingAverage.Filter)
    requires i < |inputs| && !Succeeds(inputs[i])
    requires Progress(seed, filter0, inputs, i, events, lastFrame, filter)
    ensures LeadingSuccesses(inputs) == i
    ensures events + Expected(inputs[i]).events == Trace(inputs[..i + 1])
    ensures AllPlausible(inputs[..i + 1]) ==> Balanced(events + Expected(inputs[i]).events)
  {
    TraceStep(inputs, i);
    LeadingSuccessesAt(inputs, i);
    PlausibleStep(inputs, i);
    if AllPlausible(inputs[..i + 1]) {
      ExpectedBalanced(inputs[i]);
      BalancedConcat(events, Expected(inputs[i]).events);
    }
  }

  /** One pass of the loop with its bookkeeping: the iteration, then, if it succeeded, the frame
      interval in milliseconds since `last_frame`, the move of `last_frame`, and the filter update. */
  method Turn(ghost seed: int, ghost filter0: RollingAverage.Filter, inputs: seq<IterationInput>, i: nat,
              events: seq<Event>, lastFrame: int, filter: RollingAverage.Filter, jpgBufIn: Option<Ptr>)
    returns (res: int, events': seq<Event>, lastFrame': int, filter': RollingAverage.Filter, jpgBuf: Option<Ptr>)
    requires i < |inputs| && jpgBufIn == None
    requires Progress(seed, filter0, inputs, i, events, lastFrame, filter)
    ensures jpgBuf == None
    ensures res == Expected(inputs[i]).res
    ensures res == EspOk ==> Progress(seed, filter0, inputs, i + 1, events', lastFrame', filter')
    ensures res != EspOk ==>
      && LeadingSuccesses(inputs) == i
      && events' == Trace(inputs[..i + 1])
      && (AllPlausible(inputs[..i + 1]) ==> Balanced(events'))
  {
    var iterationEvents;
    res, iterationEvents, jpgBuf := Iteration(inputs[i], jpgBufIn);
    assert iterationEvents == Expected(inputs[i]).events && res == Expected(inputs[i]).res;
    events' := events + iterationEvents;
    lastFrame', filter' := lastFrame, filter;
    SucceedsExactly(inputs[i]);
    if res != EspOk {
      ProgressOnFailure(seed, filter0, inputs, i, events, lastFrame, filter);
      return;
    }
    ProgressOnSuccess(seed, filter0, inputs, i, events, lastFrame, filter);
    var frEnd := inputs[i].clock;
    var frameTime := frEnd - lastFrame;
    lastFrame' := frEnd;
    frameTime := TruncDiv(frameTime, 1000);
    var smoothed := RollingAverage.Run(filter, frameTime);
    filter' := smoothed.filter;
  }

  /** The `while (true)` loop of `stream_handler` and the reset after it, from `last_frame == seed`:
      iterations run while they succeed, each moving `last_frame` to its clock reading and feeding the
      interval to the filter; the first failure ends the loop and resets `last_frame` to 0. */
  method Serve(seed: int, filter0: RollingAverage.Filter, inputs: seq<IterationInput>)
    returns (res: int, exited: bool, events: seq<Event>, lastFrame: int, filter: RollingAverage.Filter)
    requires RollingAverage.Valid(filter0)
    ensures exited <==> res != EspOk
    ensures exited <==> LeadingSuccesses(inputs) < |inputs|
    ensures var k := LeadingSuccesses(inputs);
      events == Trace(inputs[..if exited then k + 1 else k])
    ensures var k := LeadingSuccesses(inputs);
      res == (if exited then Expected(inputs[k]).res else EspOk)
    ensures filter == RollingAverage.Feed(filter0, FrameTimes(seed, inputs[..LeadingSuccesses(inputs)])).0
    ensures lastFrame == (if exited then 0 else LastClock(seed, inputs[..LeadingSuccesses(inputs)]))
    ensures var k := LeadingSuccesses(inputs);
      AllPlausible(inputs[..if exited then k + 1 else k]) ==> Balanced(events)
  {
    lastFrame := seed;
    filter := filter0;
    events := [];
    res := EspOk;
    var jpgBuf: Option<Ptr> := None;
    exited := false;
    var i := 0;
    assert Replay([], map[]) == Some(map[]);
    while i < |inputs|
      invariant jpgBuf == None && res == EspOk && !exited
      invariant Progress(seed, filter0, inputs, i, events, lastFrame, filter)
    {
      var events', lastFrame', filter';
      res, events', lastFrame', filter', jpgBuf := Turn(seed, filter0, inputs, i, events, lastFrame, filter, jpgBuf);
      if res != EspOk {
        events := events';
        exited := true;
        break;
      }
      events, lastFrame, filter := events', lastFrame', filter';
      i := i + 1;
    }
    if exited {
      lastFrame := 0;
    } else {
      assert inputs[..i] == inputs;
      LeadingSuccessesAt(inputs, i);
    }
  }

  /** `stream_handler` on one connection. `shared` is the process-wide state on entry, `entryClock` what
      `esp_timer_get_time` returns on entry, `setTypeRes` what `httpd_resp_set_type` returns, and
      `inputs` the outcomes the foreign calls give the successive iterations. The loop has no exit
      except a failure, so when the inputs run out before one `exited` is false: the connection is
      still streaming. */
  method StreamHandler(shared: Shared, entryClock: int, setTypeRes: int, inputs: seq<IterationInput>)
    returns (res: int, exited: bool, events: seq<Event>, shared': Shared)
    requires RollingAverage.Valid(shared.filter)
    ensures exited <==> res != EspOk
    ensures var seed := if shared.lastFrame == 0 then entryClock else shared.lastFrame;
      setTypeRes != EspOk ==>
        exited && res == setTypeRes && events == [] && Balanced(events) && shared' == Shared(seed, shared.filter)
    ensures setTypeRes == EspOk ==> (exited <==> LeadingSuccesses(inputs) < |inputs|)
    ensures var k := LeadingSuccesses(inputs);
      setTypeRes == EspOk ==> events == Trace(inputs[..if exited then k + 1 else k])
    ensures var k := LeadingSuccesses(inputs);
      setTypeRes == EspOk ==> res == (if exited then Expected(inputs[k]).res else EspOk)
    ensures var seed := if shared.lastFrame == 0 then entryClock else shared.lastFrame;
      setTypeRes == EspOk ==>
        shared'.filter == RollingAverage.Feed(shared.filter, FrameTimes(seed, inputs[..LeadingSuccesses(inputs)])).0
    ensures var seed := if shared.lastFrame == 0 then entryClock else shared.lastFrame;
      setTypeRes == EspOk ==>
        shared'.lastFrame == (if exited then 0 else LastClock(seed, inputs[..LeadingSuccesses(inputs)]))
    ensures var k := LeadingSuccesses(inputs);
      setTypeRes == EspOk ==> (AllPlausible(inputs[..if exited then k + 1 else k]) ==> Balanced(events))
  {
    var lastFrame := shared.lastFrame;
    if lastFrame == 0 {
      lastFrame := entryClock;
    }
    var filter := shared.filter;
    res := setTypeRes;
    if res != EspOk {
      exited, events := true, [];
      shared' := Shared(lastFrame, filter);
      assert Replay([], map[]) == Some(map[]);
      return;
    }
    res, exited, events, lastFrame, filter := Serve(lastFrame, filter, inputs);
    shared' := Shared(lastFrame, filter);
  }
}
