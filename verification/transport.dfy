/** A connected stream socket as the client sees it through `send` and `recv`.
    The peer is a script: what arrives (chunks of octets, a moment with nothing
    to read, an orderly shutdown, a connection error), how many octets each
    `send` call is allowed to hand over, and the log of every octet the client
    handed over so far. */
module Transport {
  import opened Wire

  /** One event on the receiving side. `Pending` is a moment at which nothing
      has arrived yet; `Hangup` (orderly shutdown) and `Fault` (a connection
      error such as a reset) are final: every later `recv` sees them again. */
  datatype Arrival = Chunk(bytes: seq<char>) | Pending | Hangup | Fault

  /** The `recv` flags the client uses: none, `MSG_DONTWAIT`, `MSG_WAITALL`. */
  datatype RecvMode = Blocking | DontWait | WaitAll

  /** What one `recv` call returns: some octets, 0 (peer closed), -1 with
      `EAGAIN`/`EWOULDBLOCK`, or -1 with any other error. */
  datatype Received = Got(bytes: seq<char>) | Eof | Again | Error
  {
    /** The `ssize_t` that `recv` returns. */
    function Count(): int
    {
      match this
      case Got(b) => |b|
      case Eof => 0
      case _ => -1
    }
  }

  /** `inbound`: what is still to arrive; `quota`: how many octets each of the
      next `send` calls accepts (a value <= 0 makes that call fail with -1);
      `wire`: everything handed to `send` so far, in order. */
  datatype Peer = Peer(inbound: seq<Arrival>, quota: seq<int>, wire: seq<char>)

  /** The octets that are still to arrive, in order, up to the first final
      event. */
  function Stream(inbound: seq<Arrival>): seq<char>
  {
    if inbound == [] then []
    else match inbound[0]
      case Chunk(b) => b + Stream(inbound[1..])
      case Pending => Stream(inbound[1..])
      case _ => []
  }

  /** `q` is what is left of `s` after some octets were taken from its front. */
  predicate IsSuffix(q: seq<char>, s: seq<char>)
  {
    |q| <= |s| && q == s[|s| - |q|..]
  }

  /** One `send(fd, data, |data|, 0)` call and its `ssize_t` result. A
      zero-length send returns 0 without using the script. */
  function Send(p: Peer, data: seq<char>): (r: (int, Peer))
    ensures r.1.inbound == p.inbound
    ensures data == [] ==> r == (0, p)
    ensures data != [] ==> r.0 == -1 || 1 <= r.0 <= |data|
    ensures r.0 > 0 ==> r.1.wire == p.wire + data[..r.0]
    ensures r.0 <= 0 ==> r.1.wire == p.wire
  {
    if data == [] then (0, p)
    else if p.quota == [] then (-1, p)
    else
      var q := p.quota[0];
      var rest := p.(quota := p.quota[1..]);
      if q <= 0 then (-1, rest)
      else
        var n := if q < |data| then q else |data|;
        (n, rest.(wire := p.wire + data[..n]))
  }

  /** One `recv(fd, buf, max, flags)` call. Without `MSG_WAITALL` it returns
      at most one chunk; with it, it keeps reading until `max` octets arrived
      or the stream ends or fails, and then returns what it has. */
  function Recv(p: Peer, max: nat, mode: RecvMode): (r: (Received, Peer))
    requires max > 0
    ensures r.1.wire == p.wire && r.1.quota == p.quota
    ensures r.0.Got? ==> 1 <= |r.0.bytes| <= max
    ensures r.0 == Again ==> mode == DontWait
    decreases |p.inbound|
  {
    if p.inbound == [] then (Eof, p)
    else
      var rest := p.(inbound := p.inbound[1..]);
      match p.inbound[0]
      case Hangup => (Eof, p)
      case Fault => (Error, p)
      case Pending =>
        if mode == DontWait then (Again, rest) else Recv(rest, max, mode)
      case Chunk(b) =>
        if b == [] then
          if mode == DontWait then (Again, rest) else Recv(rest, max, mode)
        else if |b| > max then
          (Got(b[..max]), p.(inbound := [Chunk(b[max..])] + p.inbound[1..]))
        else if |b| == max || mode != WaitAll then (Got(b), rest)
        else
          var (more, after) := Recv(rest, max - |b|, WaitAll);
          if more.Got? then (Got(b + more.bytes), after) else (Got(b), after)
  }

  /** The socket of an object that closed it, or whose socket never
      connected: no `send` gets through, every `recv` fails, and the wire
      keeps what went out before. */
  function Unplugged(wire: seq<char>): (p: Peer)
    ensures p.wire == wire && p.quota == [] && Stream(p.inbound) == []
  {
    Peer([Fault], [], wire)
  }

  /** On such a socket a `send` of some octets returns -1, a `recv` returns
      -1, and neither changes anything. */
  lemma UnpluggedFails(wire: seq<char>, data: seq<char>, max: nat, mode: RecvMode)
    requires data != [] && max > 0
    ensures Send(Unplugged(wire), data) == (-1, Unplugged(wire))
    ensures Recv(Unplugged(wire), max, mode) == (Error, Unplugged(wire))
  {
  }

  /** `recv` takes its octets from the front of the stream and nothing else:
      a failed call leaves the stream as it was, `0` and errors are reported
      only on an ended stream, and a short `MSG_WAITALL` read means the stream
      ended. */
  lemma {:induction false} RecvStream(p: Peer, max: nat, mode: RecvMode)
    requires max > 0
    ensures var r := Recv(p, max, mode);
      && (r.0.Got? ==> r.0.bytes + Stream(r.1.inbound) == Stream(p.inbound))
      && (!r.0.Got? ==> Stream(r.1.inbound) == Stream(p.inbound))
      && (r.0.Eof? || r.0.Error? ==> Stream(r.1.inbound) == [] && Stream(p.inbound) == [])
      && (mode == WaitAll && r.0.Got? && |r.0.bytes| < max ==> Stream(r.1.inbound) == [])
    decreases |p.inbound|
  {
    if p.inbound != [] {
      var rest := p.(inbound := p.inbound[1..]);
      match p.inbound[0]
      case Hangup =>
        assert Recv(p, max, mode) == (Eof, p);
      case Fault =>
        assert Recv(p, max, mode) == (Error, p);
      case Pending =>
        assert Stream(p.inbound) == Stream(rest.inbound);
        if mode == DontWait {
          assert Recv(p, max, mode) == (Again, rest);
        } else {
          assert Recv(p, max, mode) == Recv(rest, max, mode);
          RecvStream(rest, max, mode);
        }
      case Chunk(b) =>
        assert Stream(p.inbound) == b + Stream(rest.inbound);
        if b == [] {
          assert Stream(p.inbound) == Stream(rest.inbound);
          if mode == DontWait {
            assert Recv(p, max, mode) == (Again, rest);
          } else {
            assert Recv(p, max, mode) == Recv(rest, max, mode);
            RecvStream(rest, max, mode);
          }
        } else if |b| > max {
          var q := p.(inbound := [Chunk(b[max..])] + p.inbound[1..]);
          assert Recv(p, max, mode) == (Got(b[..max]), q);
          assert q.inbound[1..] == rest.inbound;
          assert Stream(q.inbound) == b[max..] + Stream(rest.inbound);
          assert b == b[..max] + b[max..];
          Associative(b[..max], b[max..], Stream(rest.inbound));
        } else if |b| == max || mode != WaitAll {
          assert Recv(p, max, mode) == (Got(b), rest);
        } else {
          var more := Recv(rest, max - |b|, WaitAll);
          RecvStream(rest, max - |b|, WaitAll);
          if more.0.Got? {
            assert Recv(p, max, mode) == (Got(b + more.0.bytes), more.1);
            Associative(b, more.0.bytes, Stream(more.1.inbound));
          } else {
            assert Recv(p, max, mode) == (Got(b), more.1);
          }
        }
    }
  }

  /** With `MSG_WAITALL`, a stream holding at least `max` more octets yields
      exactly its next `max` octets. */
  lemma WaitAllFills(p: Peer, max: nat)
    requires max > 0 && |Stream(p.inbound)| >= max
    ensures Recv(p, max, WaitAll).0 == Got(Stream(p.inbound)[..max])
  {
    var (r, q) := Recv(p, max, WaitAll);
    RecvStream(p, max, WaitAll);
    assert r.bytes + Stream(q.inbound) == Stream(p.inbound);
    assert Stream(p.inbound)[..max] == (r.bytes + Stream(q.inbound))[..max];
  }

  /** A send the script accepts in full. */
  lemma SendWhole(p: Peer, data: seq<char>)
    requires data != [] && |p.quota| >= 1 && p.quota[0] >= |data|
    ensures Send(p, data) == (|data|, p.(quota := p.quota[1..], wire := p.wire + data))
  {
    assert data[..|data|] == data;
  }

  /** The arrivals of a server that sends each result as one 8-octet chunk. */
  function Chunks(rs: seq<Float64>): (a: seq<Arrival>)
    ensures |a| == |rs|
  {
    if rs == [] then [] else [Chunk(rs[0])] + Chunks(rs[1..])
  }

  /** The script of a socket that accepts every size and every value send of
      the vector loops of both clients whole:
      per vector a u32 size and then its (non-empty) value images. */
  predicate TakesWhole(quota: seq<int>, vs: seq<seq<Float64>>)
    decreases |vs|
  {
    vs == [] || (|quota| >= 2 && quota[0] >= 4 && quota[1] >= 8 * |vs[0]| && vs[0] != []
                 && TakesWhole(quota[2..], vs[1..]))
  }
}
