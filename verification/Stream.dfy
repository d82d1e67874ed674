/**
 A stream socket and the reader that gathers frames from it (pybtp/btp_socket.py).

 What the operating system will hand out is a script: pieces of the byte stream in the sizes it
 chooses, and points at which the reader's timeout elapses. An exhausted script is a timeout too.
 */
module Streams {
  import opened Bytes
  import opened Frames

  datatype Delivery = Chunk(data: seq<byte>) | Timeout

  /** A peer that has not closed its end delivers at least one byte at a time. */
  predicate Open(s: seq<Delivery>) {
    forall d <- s :: d.Chunk? ==> d.data != []
  }

  /** The byte stream that a script delivers. */
  function Content(s: seq<Delivery>): seq<byte> {
    if s == [] then []
    else (if s[0].Chunk? then s[0].data else []) + Content(s[1..])
  }

  /** The stream position of each timeout. */
  function TimeoutsAt(s: seq<Delivery>, pos: nat): seq<nat> {
    if s == [] then []
    else if s[0].Chunk? then TimeoutsAt(s[1..], pos + |s[0].data|)
    else [pos] + TimeoutsAt(s[1..], pos)
  }

  /** Gathering n bytes: what was received, fewer than n after a timeout, and what is left. */
  function Gather(s: seq<Delivery>, n: nat): (r: (seq<byte>, seq<Delivery>))
    ensures |r.0| <= n
    ensures r.0 + Content(r.1) == Content(s)
    ensures Open(s) ==> Open(r.1)
    ensures |r.1| <= |s|
    ensures n > 0 && s != [] && |r.1| == |s| ==> r.0 != []
  {
    if n == 0 || s == [] then ([], s)
    else
      match s[0]
      case Timeout => ([], s[1..])
      case Chunk(d) =>
        if n < |d| then
          assert ([Chunk(d[n..])] + s[1..])[1..] == s[1..];
          assert d[..n] + d[n..] == d;
          (d[..n], [Chunk(d[n..])] + s[1..])
        else
          var (got, rest) := Gather(s[1..], n - |d|);
          (d + got, rest)
  }

  /** A header and the data it announces are the wire form of the frame they make. */
  lemma WireFromParts(h: seq<byte>, d: seq<byte>)
    requires |h| == HDR_LEN && |d| == UnpackU16(h[3..5])
    ensures Frame(h[0], h[1], h[2], d).Wire() == h + d
  {
    UnpackPackU16(h[3..5]);
    assert h == [h[0], h[1], h[2]] + h[3..5];
  }

  datatype ReadResult = ReadResult(frame: Option<Frame>, rest: seq<Delivery>, lost: nat)

  /** `BTPSocket.read`: the header, then its data. A timeout loses what was gathered. */
  function ReadFrame(s: seq<Delivery>): ReadResult {
    var (h, s1) := Gather(s, HDR_LEN);
    if |h| < HDR_LEN then ReadResult(None, s1, |h|)
    else
      var hdr := DecHdr(h).value;
      var (d, s2) := Gather(s1, hdr.dataLen);
      if |d| < hdr.dataLen then ReadResult(None, s2, HDR_LEN + |d|)
      else ReadResult(Some(Frame(hdr.svcId, hdr.op, hdr.ctrlIndex, d)), s2, 0)
  }

  /** A call returns the frame at the front of the stream or loses bytes; nothing else goes missing. */
  lemma ReadFrameConserves(s: seq<Delivery>)
    ensures var r := ReadFrame(s);
            && (r.frame.Some? ==> r.lost == 0 && r.frame.value.Valid()
                                  && r.frame.value.Wire() + Content(r.rest) == Content(s))
            && (r.frame.None? ==> r.lost + |Content(r.rest)| == |Content(s)|)
            && (Open(s) ==> Open(r.rest))
  {
    var (h, s1) := Gather(s, HDR_LEN);
    if |h| == HDR_LEN {
      var n := UnpackU16(h[3..5]);
      var (d, s2) := Gather(s1, n);
      assert |Content(s)| == |h| + |Content(s1)| && |Content(s1)| == |d| + |Content(s2)|;
      if |d| == n {
        WireFromParts(h, d);
        assert h + (d + Content(s2)) == (h + d) + Content(s2);
      }
    }
  }

  /** What bounds the number of calls: each uses up a delivery or some of its bytes. */
  function Remaining(s: seq<Delivery>): nat {
    |s| + |Content(s)|
  }

  lemma ReadFrameProgress(s: seq<Delivery>)
    requires s != []
    ensures Remaining(ReadFrame(s).rest) < Remaining(s)
  {
    ReadFrameConserves(s);
    var (h, s1) := Gather(s, HDR_LEN);
    assert Remaining(s1) < Remaining(s);
  }

  datatype Received = Received(frames: seq<Frame>, lost: nat)

  /** Calling the reader until the script is used up, as the receive thread does. */
  function ReceiveAll(s: seq<Delivery>): Received
    decreases Remaining(s)
  {
    if s == [] then Received([], 0)
    else
      ReadFrameProgress(s);
      var r := ReadFrame(s);
      var more := ReceiveAll(r.rest);
      Received((if r.frame.Some? then [r.frame.value] else []) + more.frames, r.lost + more.lost)
  }

  /** Every byte is in exactly one returned frame or among the lost ones. */
  lemma {:induction false} ReceiveAllConserves(s: seq<Delivery>)
    ensures forall f <- ReceiveAll(s).frames :: f.Valid()
    ensures |WireAll(ReceiveAll(s).frames)| + ReceiveAll(s).lost == |Content(s)|
    decreases Remaining(s)
  {
    if s != [] {
      ReadFrameProgress(s);
      ReadFrameConserves(s);
      var r := ReadFrame(s);
      ReceiveAllConserves(r.rest);
      if r.frame.Some? {
        assert ([r.frame.value] + ReceiveAll(r.rest).frames)[1..] == ReceiveAll(r.rest).frames;
      } else {
        assert [] + ReceiveAll(r.rest).frames == ReceiveAll(r.rest).frames;
      }
    }
  }

  // ---- What a timeout takes, and what comes after it ----

  /** The bytes that arrive before the first timeout, and the script behind it. */
  function BeforeTimeout(s: seq<Delivery>): seq<byte> {
    if s == [] || s[0].Timeout? then [] else s[0].data + BeforeTimeout(s[1..])
  }

  function BehindTimeout(s: seq<Delivery>): seq<Delivery> {
    if s == [] then [] else if s[0].Timeout? then s[1..] else BehindTimeout(s[1..])
  }

  lemma {:induction false} GatherBefore(s: seq<Delivery>, n: nat)
    ensures var (got, rest) := Gather(s, n);
            && (n <= |BeforeTimeout(s)| ==>
                  got == BeforeTimeout(s)[..n] && BeforeTimeout(rest) == BeforeTimeout(s)[n..]
                  && BehindTimeout(rest) == BehindTimeout(s))
            && (n > |BeforeTimeout(s)| ==> got == BeforeTimeout(s) && rest == BehindTimeout(s))
  {
    if n != 0 && s != [] && s[0].Chunk? {
      var d := s[0].data;
      if n < |d| {
        var rest := [Chunk(d[n..])] + s[1..];
        assert rest[1..] == s[1..] && BeforeTimeout(rest) == d[n..] + BeforeTimeout(s[1..]);
      } else {
        GatherBefore(s[1..], n - |d|);
      }
    }
  }

  /** The frame at the front of the bytes, if it is complete. */
  predicate StartsWithFrame(b: seq<byte>) {
    |b| >= 5 && |b| >= 5 + b[3] as int + 0x100 * (b[4] as int)
  }

  /**
   One call of the reader, in terms of the bytes that arrive before the first timeout: if they start with a
   frame, that is returned and the rest stays, the timeout included. If not, the call ends at that timeout (or
   where the script ends), exactly those bytes are lost, and everything behind it stays.
   */
  lemma ReadFrameExact(s: seq<Delivery>)
    ensures var r, b := ReadFrame(s), BeforeTimeout(s);
            if StartsWithFrame(b) then
              var n := b[3] as int + 0x100 * (b[4] as int);
              && r.frame == Some(Frame(b[0], b[1], b[2], b[5..5 + n])) && r.lost == 0
              && BeforeTimeout(r.rest) == b[5 + n..] && BehindTimeout(r.rest) == BehindTimeout(s)
            else r.frame == None && r.rest == BehindTimeout(s) && r.lost == |b|
  {
    var b := BeforeTimeout(s);
    if |b| < 5 {
      GatherBefore(s, 5);
    } else if StartsWithFrame(b) {
      WholeFrame(s);
    } else {
      PartOfFrame(s);
    }
  }

  lemma HeaderGathered(s: seq<Delivery>)
    requires |BeforeTimeout(s)| >= 5
    ensures var (h, s1) := Gather(s, HDR_LEN);
            && h == BeforeTimeout(s)[..5] && BeforeTimeout(s1) == BeforeTimeout(s)[5..]
            && BehindTimeout(s1) == BehindTimeout(s)
  {
    GatherBefore(s, 5);
  }

  lemma PartOfFrame(s: seq<Delivery>)
    requires |BeforeTimeout(s)| >= 5 && !StartsWithFrame(BeforeTimeout(s))
    ensures ReadFrame(s) == ReadResult(None, BehindTimeout(s), |BeforeTimeout(s)|)
  {
    var b := BeforeTimeout(s);
    HeaderGathered(s);
    HeaderOf(b);
    GatherBefore(Gather(s, HDR_LEN).1, b[3] as int + 0x100 * (b[4] as int));
  }

  lemma WholeFrame(s: seq<Delivery>)
    requires StartsWithFrame(BeforeTimeout(s))
    ensures var r, b := ReadFrame(s), BeforeTimeout(s);
            var n := b[3] as int + 0x100 * (b[4] as int);
            && r.frame == Some(Frame(b[0], b[1], b[2], b[5..5 + n])) && r.lost == 0
            && BeforeTimeout(r.rest) == b[5 + n..] && BehindTimeout(r.rest) == BehindTimeout(s)
  {
    var b := BeforeTimeout(s);
    var n := b[3] as int + 0x100 * (b[4] as int);
    HeaderGathered(s);
    HeaderOf(b);
    var (h, s1) := Gather(s, HDR_LEN);
    PayloadGathered(s1, b, n);
    assert ReadFrame(s) == ReadResult(Some(Frame(b[0], b[1], b[2], b[5..5 + n])), Gather(s1, n).1, 0);
  }

  lemma PayloadGathered(s1: seq<Delivery>, b: seq<byte>, n: nat)
    requires 5 + n <= |b| && BeforeTimeout(s1) == b[5..]
    ensures var (d, s2) := Gather(s1, n);
            d == b[5..5 + n] && BeforeTimeout(s2) == b[5 + n..] && BehindTimeout(s2) == BehindTimeout(s1)
  {
    GatherBefore(s1, n);
    SliceOfRest(b, 5, n);
  }

  lemma HeaderOf(b: seq<byte>)
    requires |b| >= 5
    ensures DecHdr(b[..5]) == Ok(Header(b[0], b[1], b[2], b[3] as int + 0x100 * (b[4] as int)))
  {
    assert b[..5][3..5] == [b[3], b[4]];
  }

  lemma SliceOfRest(b: seq<byte>, k: nat, n: nat)
    requires k + n <= |b|
    ensures b[k..][..n] == b[k..k + n] && b[k..][n..] == b[k + n..]
  {
  }

  lemma {:induction false} FirstTimeout(s: seq<Delivery>, p: nat)
    ensures TimeoutsAt(s, p) != [] ==>
              && TimeoutsAt(s, p)[0] == p + |BeforeTimeout(s)|
              && TimeoutsAt(BehindTimeout(s), p + |BeforeTimeout(s)|) == TimeoutsAt(s, p)[1..]
    ensures TimeoutsAt(s, p) == [] ==> BehindTimeout(s) == [] && BeforeTimeout(s) == Content(s)
    ensures BeforeTimeout(s) + Content(BehindTimeout(s)) == Content(s)
  {
    if s != [] && s[0].Chunk? {
      FirstTimeout(s[1..], p + |s[0].data|);
    }
  }

  lemma SegmentEnds(s: seq<Delivery>, lost: nat, rest: seq<Delivery>)
    requires rest == BehindTimeout(s) && lost == |BeforeTimeout(s)|
    ensures var ts := TimeoutsAt(s, 0);
            if ts != [] then
              lost == ts[0] && lost <= |Content(s)| && Content(rest) == Content(s)[lost..] &&
                  TimeoutsAt(rest, lost) == ts[1..]
            else
              lost == |Content(s)| && rest == []
  {
    FirstTimeout(s, 0);
    ContentBehind(s);
  }

  /** A call that returns nothing: what it loses ends at the first timeout, and nothing behind that is touched. */
  lemma LossEndsAtTimeout(s: seq<Delivery>)
    requires ReadFrame(s).frame.None?
    ensures var r, ts := ReadFrame(s), TimeoutsAt(s, 0);
            if ts != [] then
              && r.lost == ts[0] && r.lost <= |Content(s)|
              && Content(r.rest) == Content(s)[r.lost..] && TimeoutsAt(r.rest, r.lost) == ts[1..]
            else
              r.lost == |Content(s)| && r.rest == []
  {
    LossIsSegment(s);
    SegmentEnds(s, ReadFrame(s).lost, ReadFrame(s).rest);
  }

  lemma ContentBehind(s: seq<Delivery>)
    ensures |BeforeTimeout(s)| <= |Content(s)| && Content(s)[|BeforeTimeout(s)|..] == Content(BehindTimeout(s))
  {
    FirstTimeout(s, 0);
    var b, rest := BeforeTimeout(s), Content(BehindTimeout(s));
    assert (b + rest)[|b|..] == rest;
  }

  lemma LossIsSegment(s: seq<Delivery>)
    requires ReadFrame(s).frame.None?
    ensures ReadFrame(s).rest == BehindTimeout(s) && ReadFrame(s).lost == |BeforeTimeout(s)|
  {
    ReadFrameExact(s);
  }

  /** The complete frames at the front of some bytes. */
  function FramesIn(b: seq<byte>): seq<Frame> {
    if !StartsWithFrame(b) then []
    else
      var n := b[3] as int + 0x100 * (b[4] as int);
      [Frame(b[0], b[1], b[2], b[5..5 + n])] + FramesIn(b[5 + n..])
  }

  /** The reader starts anew behind every timeout. */
  function FramesOf(s: seq<Delivery>): seq<Frame>
    decreases |s|
  {
    if TimeoutsAt(s, 0) == [] then FramesIn(BeforeTimeout(s))
    else
      BehindIsShorter(s);
      FramesIn(BeforeTimeout(s)) + FramesOf(BehindTimeout(s))
  }

  lemma {:induction false} BehindIsShorter(s: seq<Delivery>)
    requires s != []
    ensures |BehindTimeout(s)| < |s|
  {
    if s[0].Chunk? && |s| > 1 {
      BehindIsShorter(s[1..]);
    }
  }

  /**
   What is received over any script, with timeouts anywhere: between two timeouts, the complete frames at the
   front of what arrived since the first one; what does not make a frame is lost.
   */
  lemma {:induction false} ReceivedBetweenTimeouts(s: seq<Delivery>)
    ensures ReceiveAll(s).frames == FramesOf(s)
    decreases Remaining(s)
  {
    if s != [] {
      var r, b := ReadFrame(s), BeforeTimeout(s);
      ReadFrameProgress(s);
      ReadFrameExact(s);
      ReceivedBetweenTimeouts(r.rest);
      FirstTimeout(s, 0);
      FirstTimeout(r.rest, 0);
      if r.frame.Some? {
        SameTimeouts(s);
      } else {
        assert FramesIn(b) == [];
        assert [] + ReceiveAll(r.rest).frames == ReceiveAll(r.rest).frames;
      }
    }
  }

  lemma {:induction false} HasTimeout(s: seq<Delivery>, p: nat, q: nat)
    ensures TimeoutsAt(s, p) == [] <==> TimeoutsAt(s, q) == []
  {
    if s != [] && s[0].Chunk? {
      HasTimeout(s[1..], p + |s[0].data|, q + |s[0].data|);
    }
  }

  /** A returned frame leaves the timeouts where they are. */
  lemma TimeoutsAfterFrame(s: seq<Delivery>)
    requires ReadFrame(s).frame.Some?
    ensures TimeoutsAt(ReadFrame(s).rest, 0) == [] <==> TimeoutsAt(s, 0) == []
  {
    var (h, s1) := Gather(s, HDR_LEN);
    var n := DecHdr(h).value.dataLen;
    GatherTimeouts(s, HDR_LEN, 0);
    GatherTimeouts(s1, n, HDR_LEN);
    HasTimeout(ReadFrame(s).rest, HDR_LEN + n, 0);
  }

  /** A returned frame in front of the others. */
  lemma SameTimeouts(s: seq<Delivery>)
    requires ReadFrame(s).frame.Some?
    ensures FramesOf(s) == [ReadFrame(s).frame.value] + FramesOf(ReadFrame(s).rest)
  {
    TimeoutsAfterFrame(s);
    FrameInFront(s);
    var r, b := ReadFrame(s), BeforeTimeout(s);
    if TimeoutsAt(s, 0) != [] {
      Associative([r.frame.value], FramesIn(BeforeTimeout(r.rest)), FramesOf(BehindTimeout(s)));
    }
  }

  lemma FrameInFront(s: seq<Delivery>)
    requires ReadFrame(s).frame.Some?
    ensures var r := ReadFrame(s);
            && FramesIn(BeforeTimeout(s)) == [r.frame.value] + FramesIn(BeforeTimeout(r.rest))
            && BehindTimeout(r.rest) == BehindTimeout(s)
  {
    ReadFrameExact(s);
  }

  // ---- Which scripts are received exactly ----

  /** Position o falls between two frames of fs, or before the first or after the last one. */
  predicate Boundary(o: int, fs: seq<Frame>)
    requires forall f <- fs :: f.Valid()
    decreases |fs|
  {
    o == 0 || (fs != [] && o >= |fs[0].Wire()| && Boundary(o - |fs[0].Wire()|, fs[1..]))
  }

  /** All positions fall between the frames of fs, the first of which starts at p. */
  predicate OnBoundaries(ts: seq<nat>, p: nat, fs: seq<Frame>)
    requires forall f <- fs :: f.Valid()
  {
    forall o <- ts :: Boundary(o - p, fs)
  }

  lemma PastFirstFrame(ts: seq<nat>, p: nat, fs: seq<Frame>)
    requires fs != [] && forall f <- fs :: f.Valid()
    requires forall o <- ts :: o > p
    requires OnBoundaries(ts, p, fs)
    ensures forall o <- ts :: o >= p + |fs[0].Wire()|
    ensures OnBoundaries(ts, p + |fs[0].Wire()|, fs[1..])
  {
    forall o <- ts
      ensures o >= p + |fs[0].Wire()| && Boundary(o - (p + |fs[0].Wire()|), fs[1..])
    {
      assert Boundary(o - p, fs);
    }
  }

  lemma BeforeFirstFrame(ts: seq<nat>, p: nat, fs: seq<Frame>)
    requires fs != [] && forall f <- fs :: f.Valid()
    requires forall o <- ts :: o >= p + |fs[0].Wire()|
    requires OnBoundaries(ts, p + |fs[0].Wire()|, fs[1..])
    ensures OnBoundaries(ts, p, fs)
  {
    forall o <- ts
      ensures Boundary(o - p, fs)
    {
      assert Boundary(o - (p + |fs[0].Wire()|), fs[1..]);
    }
  }

  lemma TimeoutsNotBefore(s: seq<Delivery>, p: nat)
    ensures forall o <- TimeoutsAt(s, p) :: o >= p
  {
  }

  /** A gather that gets all its bytes meets no timeout; one that does not ends at the first one. */
  lemma {:induction false} GatherTimeouts(s: seq<Delivery>, n: nat, p: nat)
    ensures var (got, rest) := Gather(s, n);
            && (|got| == n ==> TimeoutsAt(s, p) == TimeoutsAt(rest, p + n))
            && (|got| < n ==> TimeoutsAt(s, p) == TimeoutsAt(rest, p + |got|)
                              || TimeoutsAt(s, p) == [p + |got|] + TimeoutsAt(rest, p + |got|))
  {
    if n != 0 && s != [] && s[0].Chunk? {
      var d := s[0].data;
      if n < |d| {
        assert ([Chunk(d[n..])] + s[1..])[1..] == s[1..];
      } else {
        GatherTimeouts(s[1..], n - |d|, p + |d|);
      }
    }
  }

  lemma {:induction false} GatherSucceeds(s: seq<Delivery>, n: nat, p: nat)
    requires n <= |Content(s)|
    requires forall o <- TimeoutsAt(s, p) :: o >= p + n
    ensures |Gather(s, n).0| == n
  {
    if n != 0 {
      assert s != [];
      if s[0].Timeout? {
        assert p in TimeoutsAt(s, p);
        assert false;
      } else if n > |s[0].data| {
        assert TimeoutsAt(s[1..], p + |s[0].data|) == TimeoutsAt(s, p);
        GatherSucceeds(s[1..], n - |s[0].data|, p + |s[0].data|);
      }
    }
  }

  /** A frame whose bytes arrive without a timeout among them is returned. */
  lemma ReadFrameSucceeds(s: seq<Delivery>, f: Frame, tail: seq<byte>, p: nat)
    requires f.Valid() && Content(s) == f.Wire() + tail
    requires forall o <- TimeoutsAt(s, p) :: o >= p + |f.Wire()|
    ensures var r := ReadFrame(s);
            r.frame == Some(f) && Content(r.rest) == tail && TimeoutsAt(r.rest, p + |f.Wire()|) == TimeoutsAt(s, p)
  {
    WireHeader(f, tail);
    var (h, s1) := Gather(s, HDR_LEN);
    GatherSucceeds(s, HDR_LEN, p);
    GatherTimeouts(s, HDR_LEN, p);
    assert h == Content(s)[..HDR_LEN] && Content(s1) == Content(s)[HDR_LEN..];
    var (d, s2) := Gather(s1, |f.data|);
    GatherSucceeds(s1, |f.data|, p + HDR_LEN);
    GatherTimeouts(s1, |f.data|, p + HDR_LEN);
    assert d == Content(s1)[..|f.data|] && Content(s2) == Content(s1)[|f.data|..];
  }

  lemma {:induction false} BoundariesSuffice(s: seq<Delivery>, p: nat, fs: seq<Frame>)
    requires Open(s)
    requires forall f <- fs :: f.Valid()
    requires Content(s) == WireAll(fs) && OnBoundaries(TimeoutsAt(s, p), p, fs)
    ensures ReceiveAll(s).frames == fs
    decreases Remaining(s)
  {
    if s == [] {
      assert fs == [];
    } else if s[0].Timeout? {
      ReadFrameProgress(s);
      assert ReadFrame(s) == ReadResult(None, s[1..], 0);
      var ts := TimeoutsAt(s[1..], p);
      assert TimeoutsAt(s, p) == [p] + ts;
      forall o <- ts ensures Boundary(o - p, fs) {
        assert o in [p] + ts;
      }
      BoundariesSuffice(s[1..], p, fs);
    } else {
      assert s[0].data != [] && fs != [];
      assert TimeoutsAt(s, p) == TimeoutsAt(s[1..], p + |s[0].data|);
      var w := |fs[0].Wire()|;
      TimeoutsNotBefore(s[1..], p + |s[0].data|);
      PastFirstFrame(TimeoutsAt(s, p), p, fs);
      ReadFrameProgress(s);
      ReadFrameConserves(s);
      ReadFrameSucceeds(s, fs[0], WireAll(fs[1..]), p);
      BoundariesSuffice(ReadFrame(s).rest, p + w, fs[1..]);
    }
  }

  /** The timeouts around one call that loses nothing. */
  lemma LosslessCall(s: seq<Delivery>, p: nat)
    requires s != [] && ReadFrame(s).lost == 0
    ensures var r := ReadFrame(s);
            && (r.frame.Some? ==> r.frame.value.Valid()
                                  && TimeoutsAt(s, p) == TimeoutsAt(r.rest, p + |r.frame.value.Wire()|))
            && (r.frame.None? ==> TimeoutsAt(s, p) == TimeoutsAt(r.rest, p)
                                  || TimeoutsAt(s, p) == [p] + TimeoutsAt(r.rest, p))
  {
    ReadFrameConserves(s);
    var (h, s1) := Gather(s, HDR_LEN);
    GatherTimeouts(s, HDR_LEN, p);
    if |h| == HDR_LEN {
      GatherTimeouts(s1, UnpackU16(h[3..5]), p + HDR_LEN);
    }
  }

  lemma ReceiveAllStep(s: seq<Delivery>)
    requires s != []
    ensures var r, all := ReadFrame(s), ReceiveAll(s);
            && Remaining(r.rest) < Remaining(s)
            && all.lost == r.lost + ReceiveAll(r.rest).lost
            && all.frames == WithFrame(r, ReceiveAll(r.rest).frames)
  {
    ReadFrameProgress(s);
  }

  lemma PrependBoundary(ts: seq<nat>, p: nat, fs: seq<Frame>)
    requires forall f <- fs :: f.Valid()
    requires OnBoundaries(ts, p, fs)
    ensures OnBoundaries([p] + ts, p, fs)
  {
    forall o <- [p] + ts ensures Boundary(o - p, fs) {
      assert o == p || o in ts;
    }
  }

  lemma AfterFrame(s: seq<Delivery>, p: nat, rest: seq<Delivery>, fs: seq<Frame>)
    requires fs != [] && forall f <- fs :: f.Valid()
    requires TimeoutsAt(s, p) == TimeoutsAt(rest, p + |fs[0].Wire()|)
    requires OnBoundaries(TimeoutsAt(rest, p + |fs[0].Wire()|), p + |fs[0].Wire()|, fs[1..])
    ensures OnBoundaries(TimeoutsAt(s, p), p, fs)
  {
    TimeoutsNotBefore(rest, p + |fs[0].Wire()|);
    BeforeFirstFrame(TimeoutsAt(s, p), p, fs);
  }

  /** Where the rest of the stream starts after a call. */
  function After(r: ReadResult, p: nat): nat {
    if r.frame.Some? then p + HDR_LEN + |r.frame.value.data| else p
  }

  function WithFrame(r: ReadResult, fs: seq<Frame>): seq<Frame> {
    if r.frame.Some? then [r.frame.value] + fs else fs
  }

  lemma LosslessRound(s: seq<Delivery>, p: nat, fs: seq<Frame>)
    requires s != [] && ReadFrame(s).lost == 0 && forall f <- fs :: f.Valid()
    requires var r := ReadFrame(s); OnBoundaries(TimeoutsAt(r.rest, After(r, p)), After(r, p), fs)
    ensures var r := ReadFrame(s);
            (forall f <- WithFrame(r, fs) :: f.Valid()) && OnBoundaries(TimeoutsAt(s, p), p, WithFrame(r, fs))
  {
    LosslessCall(s, p);
    var r := ReadFrame(s);
    if r.frame.Some? {
      var all := [r.frame.value] + fs;
      assert all[1..] == fs;
      AfterFrame(s, p, r.rest, all);
    } else {
      PrependBoundary(TimeoutsAt(r.rest, p), p, fs);
    }
  }

  lemma {:induction false} LosslessMeansBoundaries(s: seq<Delivery>, p: nat)
    requires ReceiveAll(s).lost == 0
    ensures forall f <- ReceiveAll(s).frames :: f.Valid()
    ensures OnBoundaries(TimeoutsAt(s, p), p, ReceiveAll(s).frames)
    decreases Remaining(s)
  {
    if s != [] {
      var r := ReadFrame(s);
      ReceiveAllStep(s);
      LosslessMeansBoundaries(r.rest, After(r, p));
      LosslessRound(s, p, ReceiveAll(r.rest).frames);
    }
  }

  /**
   However the stream of some frames is cut up, the reader returns exactly those frames in order
   if and only if no timeout elapses inside a frame.
   */
  lemma Reassembly(s: seq<Delivery>, fs: seq<Frame>)
    requires Open(s)
    requires forall f <- fs :: f.Valid()
    requires Content(s) == WireAll(fs)
    ensures ReceiveAll(s).frames == fs <==> OnBoundaries(TimeoutsAt(s, 0), 0, fs)
  {
    ReceiveAllConserves(s);
    if OnBoundaries(TimeoutsAt(s, 0), 0, fs) {
      BoundariesSuffice(s, 0, fs);
    }
    if ReceiveAll(s).frames == fs {
      LosslessMeansBoundaries(s, 0);
    }
  }

  /** A message of the other transport, sent over a stream in any pieces, is read as the same frame. */
  lemma StreamAgreesWithMessage(raw: seq<byte>, f: Frame, s: seq<Delivery>)
    requires ReadMessage(raw) == Ok(f)
    requires Open(s) && Content(s) == raw && TimeoutsAt(s, 0) == []
    ensures ReceiveAll(s) == Received([f], 0)
  {
    ReadMessageExact(raw, f);
    assert WireAll([f]) == f.Wire() + WireAll([]);
    Reassembly(s, [f]);
    ReceiveAllConserves(s);
  }

  /** A timeout after three header bytes loses them, and the reader never finds the frame again. */
  lemma TimeoutInsideFrame()
    ensures var f := Frame(1, 0x80, 0, [7, 7]);
            var s := [Chunk(f.Wire()[..3]), Timeout, Chunk(f.Wire()[3..])];
            Open(s) && Content(s) == WireAll([f]) && ReceiveAll(s) == Received([], 7)
  {
    var f := Frame(1, 0x80, 0, [7, 7]);
    var w := f.Wire();
    var s := [Chunk(w[..3]), Timeout, Chunk(w[3..])];
    assert WireAll([f]) == w + WireAll([]);
    assert s[1..][1..] == [Chunk(w[3..])] && [Chunk(w[3..])][1..] == [];
    assert w[..3] + w[3..] == w;
    assert Content([Chunk(w[3..])]) == w[3..];
    assert Content(s[1..]) == w[3..];
    assert Gather(s[1..], 2) == ([], [Chunk(w[3..])]);
    assert ReadFrame(s) == ReadResult(None, [Chunk(w[3..])], 3);
    ReadFrameProgress(s);
    assert Gather([Chunk(w[3..])], 5) == (w[3..], []) by {
      assert Gather([], 1) == ([], []);
    }
    ReadFrameProgress([Chunk(w[3..])]);
    assert ReadFrame([Chunk(w[3..])]) == ReadResult(None, [], 4);
    assert ReceiveAll([]) == Received([], 0);
  }
}
