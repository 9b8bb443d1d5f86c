/**
 * The receive side of one client connection in lib/server.py, as values.
 *
 * `Step` is one call of `StandardClient.handle_packet`: the handshake flags
 * decide the phase, and the phase decides how much of the buffer is consumed.
 * `Receive` is one iteration of the loop in `StandardClient.run` (append the
 * chunk just read, then one step), and `Feed` is that loop run over the
 * chunks a socket yields. The class `Server.StandardClient` is proved to
 * follow these functions; the lemmas here state what the protocol promises.
 */
module Protocol {
  import opened Wrappers
  import opened Wire

  datatype Phase = AwaitInit | AwaitKey | Established

  function Rank(p: Phase): nat
  {
    match p
    case AwaitInit => 0
    case AwaitKey => 1
    case Established => 2
  }

  /** The receive state `handle_packet` reads and writes. */
  datatype Session = Session(buf: Bytes, recvInit: bool, recvKey: bool)
  {
    /** The phase, in the order `handle_packet` tests the flags. */
    function CurrentPhase(): Phase
    {
      if !recvInit then AwaitInit else if !recvKey then AwaitKey else Established
    }

    /** The key can only have been received after the init marker. */
    predicate Ordered()
    {
      recvKey ==> recvInit
    }
  }

  /** What one `handle_packet` call does. */
  datatype Effect =
      /** Returned normally: the new session, the bytes sent, the frame handed on. */
    | Proceed(after: Session, reply: Bytes, frame: Option<Bytes>)
      /** Called `stop()`; the session fields are left as they were. */
    | Abort
      /** Raised (the frame header was shorter than four bytes); nothing changed. */
    | Fault

  function Step(s: Session): Effect
  {
    if !s.recvInit then
      if PACKET_INIT <= s.buf then
        Proceed(s.(buf := s.buf[|PACKET_INIT|..], recvInit := true), KEY_REPLY, None)
      else Abort
    else if !s.recvKey then
      if PACKET_KEY <= s.buf then
        Proceed(s.(buf := s.buf[|PACKET_KEY|..], recvKey := true), [], None)
      else Abort
    else
      match SplitFrame(s.buf)
      case Short => Fault
      case Incomplete(_) => Abort
      case Complete(frame, rest) => Proceed(s.(buf := rest), [], Some(frame))
  }

  /** Init phase: the marker is consumed and the key reply sent, or the client stops. */
  lemma InitPhaseStep(s: Session)
    requires !s.recvInit
    ensures Step(s).Proceed? <==> PACKET_INIT <= s.buf
    ensures Step(s).Proceed? ==>
      var e := Step(s);
      && PACKET_INIT + e.after.buf == s.buf
      && e.after.recvInit && e.after.recvKey == s.recvKey
      && e.reply == KEY_REPLY && |e.reply| == 529
      && e.frame == None
    ensures !Step(s).Proceed? ==> Step(s).Abort?
    ensures |s.buf| < |PACKET_INIT| ==> Step(s).Abort?
  {
    if PACKET_INIT <= s.buf {
      assert s.buf == PACKET_INIT + s.buf[|PACKET_INIT|..];
    }
  }

  /** Key phase: the key field is consumed, or the client stops; nothing is sent. */
  lemma KeyPhaseStep(s: Session)
    requires s.recvInit && !s.recvKey
    ensures Step(s).Proceed? <==> PACKET_KEY <= s.buf
    ensures Step(s).Proceed? ==>
      var e := Step(s);
      && PACKET_KEY + e.after.buf == s.buf
      && e.after.recvInit && e.after.recvKey
      && e.reply == [] && e.frame == None
    ensures !Step(s).Proceed? ==> Step(s).Abort?
  {
    if PACKET_KEY <= s.buf {
      assert s.buf == PACKET_KEY + s.buf[|PACKET_KEY|..];
    }
  }

  /**
   * Established phase: a header shorter than four bytes raises; otherwise
   * exactly one frame of the declared size plus 8 is cut off, or the client
   * stops when the buffer holds less than that.
   */
  lemma EstablishedStep(s: Session)
    requires s.recvInit && s.recvKey
    ensures Step(s).Fault? <==> |s.buf| < 4
    ensures |s.buf| >= 4 ==> (Step(s).Abort? <==> BigEndian(s.buf[..4]) + 8 > |s.buf|)
    ensures Step(s).Proceed? ==>
      var e := Step(s);
      && e.after.recvInit && e.after.recvKey && e.reply == []
      && e.frame.Some? && e.frame.value + e.after.buf == s.buf
      && |e.frame.value| == BigEndian(s.buf[..4]) + 8
  {
    SplitFrameShort(s.buf);
    if |s.buf| >= 4 {
      SplitFrameIncomplete(s.buf);
      if SplitFrame(s.buf).Complete? {
        SplitFrameComplete(s.buf);
      }
    }
  }

  /**
   * The flags never reset, the key flag is set only once the init flag is,
   * and the buffer only loses bytes from its front.
   */
  lemma StepFlags(s: Session)
    requires Step(s).Proceed?
    ensures var a := Step(s).after;
      && (s.recvInit ==> a.recvInit) && (s.recvKey ==> a.recvKey)
      && (a.recvKey && !s.recvKey ==> s.recvInit)
      && (s.Ordered() ==> a.Ordered())
      && |a.buf| < |s.buf| && a.buf == s.buf[|s.buf| - |a.buf|..]
  {
    var a := Step(s).after;
    if s.recvInit && s.recvKey {
      EstablishedStep(s);
      assert s.buf == Step(s).frame.value + a.buf;
    }
  }

  /**
   * One call either advances exactly one phase and hands on no frame, or
   * stays established and hands on exactly one frame.
   */
  lemma StepOnePhase(s: Session)
    requires s.Ordered() && Step(s).Proceed?
    ensures var e := Step(s);
      || (Rank(e.after.CurrentPhase()) == Rank(s.CurrentPhase()) + 1 && e.frame.None?)
      || (s.CurrentPhase() == Established == e.after.CurrentPhase() && e.frame.Some?)
  {
  }

  /** The observable state of a connection: receive state, running flag and the I/O logs. */
  datatype Conn = Conn(session: Session, running: bool, sent: Bytes, delivered: seq<Bytes>)

  /** A newly constructed `StandardClient`. */
  function Fresh(): Conn
  {
    Conn(Session([], false, false), true, [], [])
  }

  function Frames(frame: Option<Bytes>): seq<Bytes>
  {
    if frame.Some? then [frame.value] else []
  }

  /**
   * One `handle_packet` call on a running client: the effect of `Step` on
   * the whole connection. `stop()` clears the running flag; an exception
   * leaves everything as it was.
   */
  function Handle(c: Conn): Conn
  {
    match Step(c.session)
    case Proceed(after, reply, frame) =>
      c.(session := after, sent := c.sent + reply, delivered := c.delivered + Frames(frame))
    case Abort => c.(running := false)
    case Fault => c
  }

  /**
   * One iteration of `run` on a running client: an empty read stops it;
   * otherwise the chunk is appended and `handle_packet` runs once, an
   * exception it raises being swallowed.
   */
  function Receive(c: Conn, chunk: Bytes): Conn
  {
    if chunk == [] then c.(running := false)
    else Handle(c.(session := c.session.(buf := c.session.buf + chunk)))
  }

  /** The loop `while self.running` over the chunks the socket yields, in order. */
  function Feed(c: Conn, chunks: seq<Bytes>): Conn
    decreases |chunks|
  {
    if !c.running || chunks == [] then c
    else Feed(Receive(c, chunks[0]), chunks[1..])
  }

  /** Once a client has stopped, the loop processes nothing more. */
  lemma FeedStopped(c: Conn, chunks: seq<Bytes>)
    requires !c.running
    ensures Feed(c, chunks) == c
  {
  }

  /**
   * Over any number of reads: the flags stay ordered and never reset, a
   * stopped client stays stopped, and the sent and delivered logs only grow.
   */
  lemma {:induction false} FeedMonotone(c: Conn, chunks: seq<Bytes>)
    ensures var r := Feed(c, chunks);
      && (c.session.Ordered() ==> r.session.Ordered())
      && (c.session.recvInit ==> r.session.recvInit)
      && (c.session.recvKey ==> r.session.recvKey)
      && (r.running ==> c.running)
      && c.sent <= r.sent && c.delivered <= r.delivered
    decreases |chunks|
  {
    if c.running && chunks != [] {
      var c' := Receive(c, chunks[0]);
      if chunks[0] != [] {
        var s := c.session.(buf := c.session.buf + chunks[0]);
        if Step(s).Proceed? {
          StepFlags(s);
        }
      }
      FeedMonotone(c', chunks[1..]);
    }
  }

  /**
   * The only bytes `handle_packet` ever sends are the key reply, exactly
   * once, in the step that passes the init phase.
   */
  lemma {:induction false} FeedReplyOnce(c: Conn, chunks: seq<Bytes>)
    ensures var r := Feed(c, chunks);
      r.sent == c.sent + (if !c.session.recvInit && r.session.recvInit then KEY_REPLY else [])
    decreases |chunks|
  {
    if c.running && chunks != [] {
      var c' := Receive(c, chunks[0]);
      FeedReplyOnce(c', chunks[1..]);
      FeedMonotone(c', chunks[1..]);
      if chunks[0] != [] {
        var s := c.session.(buf := c.session.buf + chunks[0]);
        if Step(s).Proceed? && !c.session.recvInit {
          assert c'.sent == c.sent + KEY_REPLY && c'.session.recvInit;
        }
      }
    }
  }

  /** A read hands a frame to the application only if both handshake flags were set before it. */
  lemma ReceiveFramesAfterHandshake(c: Conn, chunk: Bytes)
    ensures Receive(c, chunk).delivered != c.delivered ==> c.session.recvInit && c.session.recvKey
  {
  }

  /** Running the loop over one more read is one more `Receive`, unless the client has stopped. */
  lemma {:induction false} FeedSnoc(c: Conn, chunks: seq<Bytes>, chunk: Bytes)
    ensures Feed(c, chunks + [chunk])
         == var r := Feed(c, chunks); if r.running then Receive(r, chunk) else r
    decreases |chunks|
  {
    if chunks == [] {
      assert [] + [chunk] == [chunk];
    } else if c.running {
      assert (chunks + [chunk])[0] == chunks[0];
      assert (chunks + [chunk])[1..] == chunks[1..] + [chunk];
      FeedSnoc(Receive(c, chunks[0]), chunks[1..], chunk);
    }
  }

  /**
   * No frame reaches the application before the handshake is complete: the
   * `k`-th read of a run hands on a frame only if both flags were already
   * set after the reads before it.
   */
  lemma FeedFramesAfterHandshake(c: Conn, chunks: seq<Bytes>, k: nat)
    requires k < |chunks|
    ensures var before := Feed(c, chunks[..k]);
      Feed(c, chunks[..k + 1]).delivered != before.delivered ==>
        before.session.recvInit && before.session.recvKey
  {
    assert chunks[..k + 1] == chunks[..k] + [chunks[k]];
    FeedSnoc(c, chunks[..k], chunks[k]);
    ReceiveFramesAfterHandshake(Feed(c, chunks[..k]), chunks[k]);
  }

  function Flatten(frames: seq<Bytes>): Bytes
  {
    if frames == [] then [] else Flatten(frames[..|frames| - 1]) + frames[|frames| - 1]
  }

  /**
   * In the established phase no byte is lost or repeated: while the client
   * keeps running, the frames handed on followed by the buffer are the old
   * buffer followed by everything read.
   */
  lemma {:induction false} FeedConservesBytes(c: Conn, chunks: seq<Bytes>)
    requires c.session.recvInit && c.session.recvKey
    requires Feed(c, chunks).running
    ensures var r := Feed(c, chunks);
      Flatten(r.delivered) + r.session.buf == Flatten(c.delivered) + c.session.buf + Flatten(chunks)
    decreases |chunks|
  {
    if chunks != [] {
      var chunk := chunks[0];
      var c' := Receive(c, chunk);
      FeedMonotone(c', chunks[1..]);
      ReceiveConservesBytes(c, chunk);
      FeedConservesBytes(c', chunks[1..]);
      assert chunks == [chunk] + chunks[1..];
      FlattenCons(chunk, chunks[1..]);
    }
  }

  /** One read of the established phase: `FeedConservesBytes` for a single chunk. */
  lemma ReceiveConservesBytes(c: Conn, chunk: Bytes)
    requires c.session.recvInit && c.session.recvKey
    requires Receive(c, chunk).running
    ensures var r := Receive(c, chunk);
      && r.session.recvInit && r.session.recvKey
      && Flatten(r.delivered) + r.session.buf == Flatten(c.delivered) + c.session.buf + chunk
  {
    var s := c.session.(buf := c.session.buf + chunk);
    EstablishedStep(s);
    var r := Receive(c, chunk);
    if Step(s).Proceed? {
      var f := Step(s).frame.value;
      assert r.delivered == c.delivered + [f];
      assert r.delivered[..|r.delivered| - 1] == c.delivered;
      assert Flatten(r.delivered) == Flatten(c.delivered) + f;
    }
  }

  lemma {:induction false} FlattenCons(b: Bytes, frames: seq<Bytes>)
    ensures Flatten([b] + frames) == b + Flatten(frames)
    decreases |frames|
  {
    if frames != [] {
      var init := frames[..|frames| - 1];
      assert ([b] + frames)[..|frames|] == [b] + init;
      FlattenCons(b, init);
    }
  }

  /**
   * A first read that does not start with the init marker (a short piece of
   * it included) stops the client with nothing sent and no flag set.
   */
  lemma RejectBadInit(chunk: Bytes, more: seq<Bytes>)
    requires chunk != [] && !(PACKET_INIT <= chunk)
    ensures Feed(Fresh(), [chunk] + more) == Conn(Session(chunk, false, false), false, [], [])
  {
    assert Receive(Fresh(), chunk) == Conn(Session(chunk, false, false), false, [], []);
  }

  /**
   * The whole protocol over three reads: marker, key, one frame. The client
   * ends established, having sent the key reply and handed on the frame.
   */
  lemma HandshakeThenFrame(tag: Bytes, body: Bytes)
    requires |tag| == 4 && |body| < WORD
    ensures Feed(Fresh(), [PACKET_INIT, PACKET_KEY, EncodeFrame(tag, body)])
         == Conn(Session([], true, true), true, KEY_REPLY, [EncodeFrame(tag, body)])
  {
    var f := EncodeFrame(tag, body);
    var c1 := Receive(Fresh(), PACKET_INIT);
    assert c1 == Conn(Session([], true, false), true, KEY_REPLY, []);
    var c2 := Receive(c1, PACKET_KEY);
    assert c2 == Conn(Session([], true, true), true, KEY_REPLY, []);
    SplitEncoded(tag, body, []);
    assert [] + f == f + [];
    var c3 := Receive(c2, f);
    assert c3 == Conn(Session([], true, true), true, KEY_REPLY, [f]);
    var chunks := [PACKET_INIT, PACKET_KEY, f];
    assert chunks[1..] == [PACKET_KEY, f] && chunks[1..][1..] == [f];
    calc {
      Feed(Fresh(), chunks);
      Feed(c1, [PACKET_KEY, f]);
      Feed(c2, [f]);
      Feed(c3, []);
    }
  }

  /**
   * Each read drives one step only: marker and key arriving in one read
   * leave the key in the buffer until another read arrives.
   */
  lemma CoalescedHandshake()
    ensures Feed(Fresh(), [PACKET_INIT + PACKET_KEY])
         == Conn(Session(PACKET_KEY, true, false), true, KEY_REPLY, [])
  {
    var both := PACKET_INIT + PACKET_KEY;
    assert [] + both == both && both[|PACKET_INIT|..] == PACKET_KEY;
  }

  /**
   * Each read drives one step in the established phase too: of two whole
   * frames arriving in one read only the first is handed on, and the second
   * stays in the buffer until another read.
   */
  lemma CoalescedFrames(t1: Bytes, b1: Bytes, t2: Bytes, b2: Bytes)
    requires |t1| == 4 && |b1| < WORD && |t2| == 4 && |b2| < WORD
    ensures var f2 := EncodeFrame(t2, b2);
      Receive(Conn(Session([], true, true), true, [], []), EncodeFrame(t1, b1) + f2)
        == Conn(Session(f2, true, true), true, [], [EncodeFrame(t1, b1)])
  {
    var both := EncodeFrame(t1, b1) + EncodeFrame(t2, b2);
    assert [] + both == both;
    SplitEncoded(t1, b1, EncodeFrame(t2, b2));
  }

  /**
   * A frame whose first read ends inside its 4-byte header is not lost: the
   * short header only raises, the bytes stay buffered, and the next read
   * completes the frame, which is handed on whole.
   */
  lemma SplitHeaderSurvives(tag: Bytes, body: Bytes)
    requires |tag| == 4 && |body| < WORD
    ensures var f := EncodeFrame(tag, body);
      Feed(Conn(Session([], true, true), true, [], []), [f[..2], f[2..]])
        == Conn(Session([], true, true), true, [], [f])
  {
    var f := EncodeFrame(tag, body);
    var c := Conn(Session([], true, true), true, [], []);
    var c1 := Receive(c, f[..2]);
    assert [] + f[..2] == f[..2];
    assert c1 == Conn(Session(f[..2], true, true), true, [], []);
    assert f[..2] + f[2..] == f + [];
    SplitEncoded(tag, body, []);
    var c2 := Receive(c1, f[2..]);
    assert c2 == Conn(Session([], true, true), true, [], [f]);
    var chunks := [f[..2], f[2..]];
    assert chunks[1..] == [f[2..]];
    calc {
      Feed(c, chunks);
      Feed(c1, [f[2..]]);
      Feed(c2, []);
    }
  }

  /**
   * Partial frames are not kept: an established client whose frame arrives
   * split after at least its four header bytes stops at the first piece.
   */
  lemma SplitFrameStops(c: Conn, tag: Bytes, body: Bytes, k: nat, more: seq<Bytes>)
    requires c.running && c.session == Session([], true, true)
    requires |tag| == 4 && |body| < WORD
    requires 4 <= k < |EncodeFrame(tag, body)|
    ensures var f := EncodeFrame(tag, body);
      Feed(c, [f[..k]] + more) == c.(session := Session(f[..k], true, true), running := false)
  {
    var f := EncodeFrame(tag, body);
    var piece := f[..k];
    assert [] + piece == piece;
    UnpackPack(|body|);
    assert piece[..4] == f[..4] == PackInt(|body|);
    SplitFrameIncomplete(piece);
  }
}
