/** Re-framing a TCP byte stream into KNX/IP frames. */
module FrameTransport {
  import opened Bytes

  datatype TransportError = Malformed | ConnectionClosed

  datatype Extraction = NeedMore | BadLength | Whole(frame: Octets, rest: Octets)

  /** What the front of a buffer amounts to, by the length field in octets 4 and 5. */
  function Extract(buf: Octets): (r: Extraction)
    ensures r.Whole? ==> buf == r.frame + r.rest && |r.frame| >= 6
  {
    if |buf| < 6 then NeedMore
    else
      var total := U16From(buf[4], buf[5]);
      if total < 6 then BadLength
      else if |buf| < total then NeedMore
      else Whole(buf[..total], buf[total..])
  }

  /** More octets behind the buffer never change a decision already taken. */
  lemma ExtractExtends(buf: Octets, more: Octets)
    ensures Extract(buf).BadLength? ==> Extract(buf + more) == BadLength
    ensures Extract(buf).Whole? ==> Extract(buf + more) == Whole(Extract(buf).frame, Extract(buf).rest + more)
  {
    if |buf| >= 6 {
      assert (buf + more)[4] == buf[4] && (buf + more)[5] == buf[5];
      var total := U16From(buf[4], buf[5]);
      if total <= |buf| {
        assert (buf + more)[..total] == buf[..total];
        assert (buf + more)[total..] == buf[total..] + more;
      }
    }
  }

  function Concat(chunks: seq<Octets>): (r: Octets) {
    if chunks == [] then [] else chunks[0] + Concat(chunks[1..])
  }

  lemma {:induction false} ConcatAppend(a: seq<Octets>, b: seq<Octets>)
    ensures Concat(a + b) == Concat(a) + Concat(b)
  {
    if a == [] {
      assert a + b == b;
    } else {
      assert (a + b)[1..] == a[1..] + b;
      ConcatAppend(a[1..], b);
    }
  }

  /** A reader: octets received but not yet delivered, and the reads the socket will still serve. */
  datatype Reader = Reader(buf: Octets, arrivals: seq<Octets>)

  /** Everything the reader holds or will receive. */
  function Stream(r: Reader): (s: Octets) { r.buf + Concat(r.arrivals) }

  /** A read of zero octets means that the peer closed the connection; there are none in between. */
  ghost predicate NonEmptyReads(r: Reader) {
    forall i :: 0 <= i < |r.arrivals| ==> r.arrivals[i] != []
  }

  /** One call of `recv_frame`: read until a whole frame stands at the front. */
  function Receive(r: Reader): (out: (Reader, Result<Octets, TransportError>))
    decreases |r.arrivals|
  {
    match Extract(r.buf)
    case Whole(frame, rest) => (r.(buf := rest), Ok(frame))
    case BadLength => (r, Err(Malformed))
    case NeedMore =>
      if r.arrivals == [] || r.arrivals[0] == [] then (r, Err(ConnectionClosed))
      else Receive(Reader(r.buf + r.arrivals[0], r.arrivals[1..]))
  }

  /** A call decides as if the whole stream were already buffered, and takes exactly the frame off it. */
  lemma {:induction false} ReceiveSeesStream(r: Reader)
    requires NonEmptyReads(r)
    ensures var (next, result) := Receive(r);
            && NonEmptyReads(next)
            && (match Extract(Stream(r))
                case Whole(frame, rest) => result == Ok(frame) && Stream(next) == rest
                case BadLength => result == Err(Malformed) && Stream(next) == Stream(r)
                case NeedMore => result == Err(ConnectionClosed) && Stream(next) == Stream(r))
    decreases |r.arrivals|
  {
    ExtractExtends(r.buf, Concat(r.arrivals));
    match Extract(r.buf) {
      case Whole(_, _) =>
      case BadLength =>
      case NeedMore =>
        if r.arrivals == [] {
          assert Stream(r) == r.buf;
        } else {
          var next := Reader(r.buf + r.arrivals[0], r.arrivals[1..]);
          assert Stream(next) == Stream(r) by {
            assert r.buf + (r.arrivals[0] + Concat(r.arrivals[1..])) == r.buf + r.arrivals[0] + Concat(r.arrivals[1..]);
          }
          ReceiveSeesStream(next);
        }
    }
  }

  /** A received frame has the length its length field announces, and that is at least a header. */
  lemma {:induction false} ReceivedIsFramed(r: Reader)
    ensures var result := Receive(r).1; result.Ok? ==> Framed(result.value)
    decreases |r.arrivals|
  {
    if Extract(r.buf).NeedMore? && r.arrivals != [] && r.arrivals[0] != [] {
      ReceivedIsFramed(Reader(r.buf + r.arrivals[0], r.arrivals[1..]));
    }
  }

  /** Calling `recv_frame` until it fails. */
  function ReceiveAll(r: Reader, calls: nat): (out: (seq<Octets>, Option<TransportError>))
    decreases calls
  {
    if calls == 0 then ([], None)
    else
      var (next, result) := Receive(r);
      if result.Err? then ([], Some(result.error))
      else
        var (frames, end) := ReceiveAll(next, calls - 1);
        ([result.value] + frames, end)
  }

  /** The reference: cutting a complete stream at its length fields. */
  function Cut(stream: Octets, calls: nat): (out: (seq<Octets>, Option<TransportError>))
    decreases calls
  {
    if calls == 0 then ([], None)
    else
      match Extract(stream)
      case Whole(frame, rest) =>
        var (frames, end) := Cut(rest, calls - 1);
        ([frame] + frames, end)
      case BadLength => ([], Some(Malformed))
      case NeedMore => ([], Some(ConnectionClosed))
  }

  /**
    * However the stream is split into reads, the frames received, and the error that ends them, are those of the
    * stream as a whole.
    */
  lemma {:induction false} ChunkingDoesNotMatter(r: Reader, calls: nat)
    requires NonEmptyReads(r)
    ensures ReceiveAll(r, calls) == Cut(Stream(r), calls)
    decreases calls
  {
    hide Receive, Extract, Stream;
    if calls > 0 {
      ReceiveSeesStream(r);
      var (next, result) := Receive(r);
      if result.Ok? {
        ChunkingDoesNotMatter(next, calls - 1);
      }
    }
  }

  /** Conservation: what was delivered, buffered and still to be read is always the whole stream. */
  lemma {:induction false} NothingIsLost(r: Reader, calls: nat)
    requires NonEmptyReads(r)
    ensures var after := ReaderAfter(r, calls);
            NonEmptyReads(after) && Stream(r) == Concat(ReceiveAll(r, calls).0) + Stream(after)
    decreases calls
  {
    hide Receive, Extract, Stream;
    if calls > 0 {
      ReceiveSeesStream(r);
      var (next, result) := Receive(r);
      if result.Ok? {
        NothingIsLost(next, calls - 1);
        var frames := ReceiveAll(next, calls - 1).0;
        assert ([result.value] + frames)[1..] == frames;
        assert Concat([result.value] + frames) == result.value + Concat(frames);
        FrontOfStream(r);
      }
    }
  }

  lemma FrontOfStream(r: Reader)
    requires NonEmptyReads(r) && Receive(r).1.Ok?
    ensures Stream(r) == Receive(r).1.value + Stream(Receive(r).0)
  {
    ReceiveSeesStream(r);
  }

  /** The reader after that many successful calls, or at the first failure. */
  function ReaderAfter(r: Reader, calls: nat): (out: Reader)
    decreases calls
  {
    if calls == 0 || Receive(r).1.Err? then r else ReaderAfter(Receive(r).0, calls - 1)
  }

  /** A frame whose length field is its length, as every KNX/IP frame is written. */
  predicate Framed(f: Octets) {
    |f| >= 6 && U16From(f[4], f[5]) == |f|
  }

  lemma FrontFrame(f: Octets, rest: Octets)
    requires Framed(f)
    ensures Extract(f + rest) == Whole(f, rest)
  {
    var s := f + rest;
    assert s[4] == f[4] && s[5] == f[5] && s[..|f|] == f && s[|f|..] == rest;
  }

  lemma {:induction false} CutFrames(frames: seq<Octets>)
    requires forall i :: 0 <= i < |frames| ==> Framed(frames[i])
    ensures Cut(Concat(frames), |frames| + 1) == (frames, Some(ConnectionClosed))
    decreases |frames|
  {
    if frames == [] {
      NothingToCut();
    } else {
      hide Extract, Framed, U16From;
      var first, others := frames[0], frames[1..];
      FrontFrame(first, Concat(others));
      CutFrames(others);
      assert frames == [first] + others;
    }
  }

  lemma NothingToCut()
    ensures Cut([], 1) == ([], Some(ConnectionClosed))
  {
  }

  /** Any frames, sent back to back and split into reads anyhow, are received exactly as sent; then the stream ends. */
  lemma FramesArrive(frames: seq<Octets>, arrivals: seq<Octets>)
    requires forall i :: 0 <= i < |frames| ==> Framed(frames[i])
    requires forall i :: 0 <= i < |arrivals| ==> arrivals[i] != []
    requires Concat(arrivals) == Concat(frames)
    ensures ReceiveAll(Reader([], arrivals), |frames| + 1) == (frames, Some(ConnectionClosed))
  {
    var r := Reader([], arrivals);
    ChunkingDoesNotMatter(r, |frames| + 1);
    CutFrames(frames);
    assert Stream(r) == Concat(arrivals);
  }

  /** The receiving half of a TCP transport: the buffer it drains, and the reads to come. */
  class TcpReader {
    var buf: Octets
    var arrivals: seq<Octets>

    ghost function Value(): (r: Reader)
      reads this
    {
      Reader(buf, this.arrivals)
    }

    constructor (incoming: seq<Octets>)
      ensures Value() == Reader([], incoming)
    {
      buf := [];
      arrivals := incoming;
    }

    /** Split one complete frame off the front of the buffer. */
    method TryExtractFrame() returns (r: Result<Option<Octets>, TransportError>)
      modifies this`buf
      ensures match Extract(old(buf))
              case NeedMore => r == Ok(None) && buf == old(buf)
              case BadLength => r == Err(Malformed) && buf == old(buf)
              case Whole(frame, rest) => r == Ok(Some(frame)) && buf == rest
    {
      if |buf| < 6 {
        return Ok(None);
      }
      var total := U16From(buf[4], buf[5]);
      if total < 6 {
        return Err(Malformed);
      }
      if |buf| < total {
        return Ok(None);
      }
      var frame := buf[..total];
      buf := buf[total..];
      return Ok(Some(frame));
    }

    method RecvFrame() returns (r: Result<Octets, TransportError>)
      modifies this
      ensures (Value(), r) == Receive(old(Value()))
    {
      while true
        invariant Receive(Value()) == Receive(old(Value()))
        decreases |arrivals|
      {
        var extracted := TryExtractFrame();
        if extracted.Err? {
          return Err(extracted.error);
        }
        if extracted.value.Some? {
          return Ok(extracted.value.value);
        }
        if arrivals == [] || |arrivals[0]| == 0 {
          return Err(ConnectionClosed);
        }
        buf, arrivals := buf + arrivals[0], arrivals[1..];
      }
    }
  }

  /**
    * What a call returns, by the stream alone: the frame the stream begins with; an error when it announces fewer octets
    * than a header has; the end when it announces more than will come.
    */
  lemma ReceiveExactly(r: Reader, f: Octets)
    requires NonEmptyReads(r)
    ensures var s, result := Stream(r), Receive(r).1;
            && (result == Ok(f) <==> Framed(f) && f <= s)
            && (result == Err(Malformed) <==> |s| >= 6 && U16From(s[4], s[5]) < 6)
            && (result == Err(ConnectionClosed) <==> |s| < 6 || (U16From(s[4], s[5]) >= 6 && U16From(s[4], s[5]) > |s|))
  {
    hide Receive, Stream, U16From;
    ReceiveSeesStream(r);
    var s := Stream(r);
    if Extract(s).Whole? {
      var frame := Extract(s).frame;
      assert s[4] == frame[4] && s[5] == frame[5];
    }
    if Framed(f) && f <= s {
      assert s[4] == f[4] && s[5] == f[5] && s[..|f|] == f;
    }
  }
}
