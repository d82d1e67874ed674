/** The reader over a connected socket, gathering into preallocated buffers (pybtp/btp_socket.py). */
module Sockets {
  import opened Bytes
  import opened Frames
  import opened Streams

  /** What one `recv_into` of at most n bytes leaves of the script. */
  function AfterRecv(s: seq<Delivery>, n: nat): seq<Delivery>
    requires s != []
  {
    if s[0].Chunk? && n < |s[0].data| then [Chunk(s[0].data[n..])] + s[1..] else s[1..]
  }

  /** Receiving a piece and then gathering the remainder is gathering the whole. */
  lemma GatherByPieces(s: seq<Delivery>, n: nat)
    requires s != [] && n > 0
    ensures s[0].Timeout? ==> Gather(s, n) == ([], AfterRecv(s, n))
    ensures s[0].Chunk? ==>
              var k := if n < |s[0].data| then n else |s[0].data|;
              var (got, rest) := Gather(AfterRecv(s, n), n - k);
              Gather(s, n) == (s[0].data[..k] + got, rest)
  {
    if s[0].Chunk? {
      var d := s[0].data;
      if n < |d| {
        assert Gather(AfterRecv(s, n), 0) == ([], AfterRecv(s, n));
        assert d[..n] + [] == d[..n];
      } else {
        assert d[..|d|] == d;
      }
    }
  }

  lemma NothingReceived(s: seq<Delivery>, n: nat)
    requires n > 0 && (s == [] || s[0].Timeout?)
    ensures Gather(s, n) == ([], if s == [] then [] else AfterRecv(s, n))
  {
  }

  /** What has been gathered, in front of what is still to come. */
  function Gathering(had: seq<byte>, s: seq<Delivery>, n: nat): (seq<byte>, seq<Delivery>) {
    (had + Gather(s, n).0, Gather(s, n).1)
  }

  /** One round of the gather loop that receives a piece. */
  lemma PieceReceived(had: seq<byte>, s: seq<Delivery>, n: nat)
    requires n > 0 && s != [] && s[0].Chunk?
    ensures var k := if n < |s[0].data| then n else |s[0].data|;
            Gathering(had, s, n) == Gathering(had + s[0].data[..k], AfterRecv(s, n), n - k)
  {
    GatherByPieces(s, n);
    var k := if n < |s[0].data| then n else |s[0].data|;
    Associative(had, s[0].data[..k], Gather(AfterRecv(s, n), n - k).0);
  }

  lemma GatheringStarts(s: seq<Delivery>, n: nat)
    ensures Gathering([], s, n) == Gather(s, n)
  {
    assert [] + Gather(s, n).0 == Gather(s, n).0;
  }

  /** The round that receives nothing, or the end of the loop. */
  lemma GatheringEnds(had: seq<byte>, s: seq<Delivery>, n: nat)
    requires n == 0 || s == [] || s[0].Timeout?
    ensures Gathering(had, s, n) == (had, if n == 0 || s == [] then s else AfterRecv(s, n))
  {
    if n > 0 {
      NothingReceived(s, n);
    }
    assert had + [] == had;
  }

  class BtpSocket {
    var conn: seq<Delivery>

    constructor (script: seq<Delivery>)
      ensures conn == script
    {
      conn := script;
    }

    /** `conn.recv_into(buf[off:], n)`: the number of bytes received, or nothing after a timeout. */
    method RecvInto(buf: array<byte>, off: nat, n: nat) returns (nbytes: Option<nat>)
      requires n > 0 && off + n <= buf.Length
      requires Open(conn)
      modifies this, buf
      ensures Open(conn)
      ensures nbytes.None? <==> old(conn) == [] || old(conn)[0].Timeout?
      ensures conn == if old(conn) == [] then [] else AfterRecv(old(conn), n)
      ensures nbytes.Some? ==>
                var d := old(conn)[0].data;
                && 0 < nbytes.value <= n
                && nbytes.value == (if n < |d| then n else |d|)
                && buf[..off + nbytes.value] == old(buf[..off]) + d[..nbytes.value]
    {
      if conn == [] {
        return None;
      }
      var piece := conn[0];
      assert piece.Chunk? ==> piece.data != [];
      conn := AfterRecv(conn, n);
      assert Open(conn);
      if piece.Timeout? {
        return None;
      }
      var k := if n < |piece.data| then n else |piece.data|;
      for i := 0 to k
        invariant conn == AfterRecv(old(conn), n)
        invariant buf[..off + i] == old(buf[..off]) + piece.data[..i]
      {
        buf[off + i] := piece.data[i];
        assert buf[..off + i + 1] == buf[..off + i] + [piece.data[i]];
      }
      return Some(k);
    }

    /** One round of a gather loop that still has toread bytes of the buffer to fill. */
    method GatherRound(buf: array<byte>, toread: nat, ghost all: (seq<byte>, seq<Delivery>))
        returns (nbytes: Option<nat>)
      requires Open(conn) && 0 < toread <= buf.Length
      requires all == Gathering(buf[..buf.Length - toread], conn, toread)
      modifies this, buf
      ensures Open(conn)
      ensures nbytes.None? ==> |all.0| < buf.Length && conn == all.1
      ensures nbytes.Some? ==>
                0 < nbytes.value <= toread
                && all == Gathering(buf[..buf.Length - (toread - nbytes.value)], conn, toread - nbytes.value)
    {
      ghost var before, had := conn, buf[..buf.Length - toread];
      nbytes := RecvInto(buf, buf.Length - toread, toread);
      if nbytes.None? {
        GatheringEnds(had, before, toread);
      } else {
        PieceReceived(had, before, toread);
      }
    }

    /** Fills a new buffer of n bytes, or gives up at the first timeout. */
    method GatherInto(n: nat) returns (r: Option<array<byte>>)
      requires Open(conn)
      modifies this
      ensures Open(conn)
      ensures var (got, rest) := Gather(old(conn), n);
              && conn == rest
              && (r.Some? <==> |got| == n)
              && (r.Some? ==> fresh(r.value) && r.value[..] == got)
    {
      var buf := new byte[n](_ => 0);
      var toread := n;
      ghost var all := Gather(conn, n);
      GatheringStarts(conn, n);
      assert buf[..0] == [];
      while toread > 0
        invariant 0 <= toread <= n && Open(conn)
        invariant all == Gathering(buf[..n - toread], conn, toread)
      {
        var nbytes := GatherRound(buf, toread, all);
        if nbytes.None? {
          return None;
        }
        toread := toread - nbytes.value;
      }
      GatheringEnds(buf[..n], conn, 0);
      assert buf[..n] == buf[..];
      return Some(buf);
    }

    /** `read`: the next frame, or a timeout that leaves the stream wherever it was reached. */
    method Read() returns (r: Option<Frame>)
      requires Open(conn)
      modifies this
      ensures Open(conn)
      ensures r == ReadFrame(old(conn)).frame
      ensures conn == ReadFrame(old(conn)).rest
    {
      var hdr := GatherInto(HDR_LEN);
      if hdr.None? {
        return None;
      }
      var tupleHdr := DecHdr(hdr.value[..]).value;
      var data := GatherInto(tupleHdr.dataLen);
      if data.None? {
        return None;
      }
      return Some(Frame(tupleHdr.svcId, tupleHdr.op, tupleHdr.ctrlIndex, data.value[..]));
    }
  }
}
