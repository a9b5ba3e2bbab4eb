/** `ServerConnection`: the socket owner of the class-based client. It runs
    the login handshake, moves binary data with exact-length loops and
    exchanges the vector set with the server one vector at a time. The socket
    is the scripted peer of `Transport`; every protocol step is a function of
    the peer, and the methods of the class are proved to perform it. */
module Connection {
  import opened Outcomes
  import opened Wire
  import opened Strings
  import opened Transport
  import Authenticator

  // ---------------------------------------------------------------------
  // 64-bit byte order

  /** `htonl`/`ntohl` on a little-endian host: the four octets reversed. */
  function Swap32(x: bv32): bv32
  {
    ((x & 0xFF) << 24) | (((x >> 8) & 0xFF) << 16) | (((x >> 16) & 0xFF) << 8) | (x >> 24)
  }

  /** `htonll` of the little-endian branch: the low half, swapped, becomes the
      high half and the high half, swapped, the low half. */
  function Htonll(x: bv64): bv64
  {
    ((Swap32((x & 0xFFFF_FFFF) as bv32) as bv64) << 32) | (Swap32((x >> 32) as bv32) as bv64)
  }

  /** `ntohll`: the expression of `htonll` with `ntohl`, which is the same
      octet swap as `htonl`. */
  function Ntohll(x: bv64): bv64
  {
    Htonll(x)
  }

  /** The eight octets of a 64-bit value in reverse order, mask by mask. */
  function Reverse64(x: bv64): bv64
  {
    ((x & 0xFF) << 56) | ((x & 0xFF00) << 40) | ((x & 0xFF_0000) << 24) | ((x & 0xFF00_0000) << 8) |
    ((x >> 8) & 0xFF00_0000) | ((x >> 24) & 0xFF_0000) | ((x >> 40) & 0xFF00) | (x >> 56)
  }

  /** `htonll` reverses all eight octets. */
  lemma HtonllReverses(x: bv64)
    ensures Htonll(x) == Reverse64(x)
  {
  }

  /** Reversing the octets twice gives the value back. */
  lemma Reverse64Involution(x: bv64)
    ensures Reverse64(Reverse64(x)) == x
  {
  }

  /** `ntohll` undoes `htonll`. */
  lemma NtohllHtonll(x: bv64)
    ensures Ntohll(Htonll(x)) == x
  {
    HtonllReverses(x);
    HtonllReverses(Htonll(x));
    Reverse64Involution(x);
  }

  // ---------------------------------------------------------------------
  // Protocol steps as functions of the peer

  /** `sendText`: one `send` of `text + "\n"`, no retry; it succeeds only if
      the whole line was accepted. */
  function SendLine(p: Peer, text: string): (r: (bool, Peer))
    ensures p.wire <= r.1.wire
    ensures r.1.inbound == p.inbound
    ensures r.1.quota == if p.quota == [] then [] else p.quota[1..]
    ensures r.0 ==> r.1.wire == p.wire + text + "\n"
    ensures !r.0 ==> |p.wire| <= |r.1.wire| < |p.wire| + |text| + 1
    ensures r.1.wire <= p.wire + text + "\n"
  {
    var line := text + "\n";
    var (n, q) := Send(p, line);
    assert line[..|line|] == line;
    (n == |line|, q)
  }

  /** `receiveText`: one `recv` of at most 1023 octets; it fails when that
      `recv` returns no octets, and otherwise the text is the octets received
      up to their first NUL or newline, whichever comes first. */
  function ReceiveLine(p: Peer): (r: (Option<string>, Peer))
    ensures r.1.wire == p.wire && r.1.quota == p.quota
    ensures r.1 == Recv(p, 1023, Blocking).1
    ensures r.0.Some? <==> Recv(p, 1023, Blocking).0.Got?
    ensures r.0.Some? ==>
      var bytes := Recv(p, 1023, Blocking).0.bytes;
      && r.0.value <= bytes && '\0' !in r.0.value && '\n' !in r.0.value
      && (|r.0.value| == |bytes| || bytes[|r.0.value|] == '\0' || bytes[|r.0.value|] == '\n')
    ensures r.0.Some? ==> |r.0.value| <= 1023
  {
    var (got, q) := Recv(p, 1023, Blocking);
    if got.Got? then (Some(CutAt(CutAt(got.bytes, '\0'), '\n')), q) else (None, q)
  }

  /** `authenticate`: login line, salt reply, hash line, status reply. */
  function Handshake(p: Peer, login: string, password: string, sha1: string -> Digest): (bool, Peer)
  {
    var (sent, p1) := SendLine(p, login);
    if !sent then (false, p1)
    else
      var (salt, p2) := ReceiveLine(p1);
      if salt.None? || salt.value == "ERR" || |salt.value| != 16 then (false, p2)
      else
        var (sentHash, p3) := SendLine(p2, Authenticator.ComputeHash(salt.value, password, sha1));
        if !sentHash then (false, p3)
        else
          var (status, p4) := ReceiveLine(p3);
          (status == Some("OK"), p4)
  }

  /** `sendBinaryData`: `send` until all of `data` went out; the first result
      <= 0 ends it with `false`. */
  function SendAll(p: Peer, data: seq<char>): (r: (bool, Peer))
    ensures p.wire <= r.1.wire
    ensures r.1.inbound == p.inbound
    ensures r.0 ==> r.1.wire == p.wire + data
    ensures !r.0 ==> |p.wire| <= |r.1.wire| < |p.wire| + |data|
    ensures r.1.wire <= p.wire + data
    decreases |data|
  {
    if data == [] then (true, p)
    else
      var (n, q) := Send(p, data);
      if n <= 0 then (false, q)
      else
        var (ok, q') := SendAll(q, data[n..]);
        assert data == data[..n] + data[n..];
        (ok, q')
  }

  /** `receiveBinaryData`: `recv` until `size` octets arrived; the first result
      <= 0 ends it with `false`. Yields the octets received either way. */
  function ReceiveAll(p: Peer, size: nat): (r: (bool, seq<char>, Peer))
    ensures r.2.wire == p.wire && r.2.quota == p.quota
    ensures |r.1| <= size && (r.0 <==> |r.1| == size)
    decreases size
  {
    if size == 0 then (true, [], p)
    else
      var (got, q) := Recv(p, size, Blocking);
      if !got.Got? then (false, [], q)
      else
        var (ok, rest, q') := ReceiveAll(q, size - |got.bytes|);
        (ok, got.bytes + rest, q')
  }

  /** `ReceiveAll` carried on after `got` already arrived, in the order the
      loop of `receiveBinaryData` runs. */
  function ReceiveRest(p: Peer, size: nat, got: seq<char>): (bool, seq<char>, Peer)
    decreases size
  {
    if size == 0 then (true, got, p)
    else
      var g := Recv(p, size, Blocking);
      if !g.0.Got? then (false, got, g.1)
      else ReceiveRest(g.1, size - |g.0.bytes|, got + g.0.bytes)
  }

  /** The element count `sendVectors` puts on the wire for `v`. */
  function SizeField(v: seq<Float64>): U32
  {
    ToU32(|v|)
  }

  /** What `sendVectors` sends for one vector: the u32 size, then the first
      `size` value images (nothing when the size is 0). */
  function SentFrame(v: seq<Float64>): seq<char>
  {
    EncodeU32(SizeField(v)) + Images(v[..SizeField(v)])
  }

  function SentFrames(vs: seq<seq<Float64>>): seq<char>
  {
    if vs == [] then [] else SentFrame(vs[0]) + SentFrames(vs[1..])
  }

  /** One vector's frame: the size, then (when it is not 0) the values. */
  function SendFrame(p: Peer, v: seq<Float64>): (r: (bool, Peer))
    ensures p.wire <= r.1.wire
    ensures r.1.inbound == p.inbound
    ensures r.0 ==> r.1.wire == p.wire + SentFrame(v)
    ensures r.1.wire <= p.wire + SentFrame(v)
  {
    var size := SizeField(v);
    var (ok, p1) := SendAll(p, EncodeU32(size));
    if !ok then (false, p1)
    else if size > 0 then SendAll(p1, Images(v[..size]))
    else (true, p1)
  }

  /** The reply to one vector: a non-blocking 8-octet `recv`; 8 octets are the
      result, 0 or an error other than `EAGAIN` fail, and `EAGAIN` falls back
      to a `MSG_WAITALL` read that must bring exactly 8 octets. */
  function AwaitResult(p: Peer): (r: (Option<Float64>, Peer))
    ensures r.1.wire == p.wire && r.1.quota == p.quota
  {
    var (first, p1) := Recv(p, 8, DontWait);
    match first
    case Got(b) => if |b| == 8 then (Some(b), p1) else (None, p1)
    case Again =>
      var (second, p2) := Recv(p1, 8, WaitAll);
      if second.Got? && |second.bytes| == 8 then (Some(second.bytes), p2) else (None, p2)
    case _ => (None, p1)
  }

  /** One pass of the loop of `sendVectors`: the vector's frame, then its
      reply. */
  function VectorStep(p: Peer, v: seq<Float64>): (r: (Option<Float64>, Peer))
    ensures p.wire <= r.1.wire <= p.wire + SentFrame(v)
    ensures r.0.Some? ==> r.1.wire == p.wire + SentFrame(v)
  {
    var frame := SendFrame(p, v);
    if !frame.0 then (None, frame.1) else AwaitResult(frame.1)
  }

  /** The loop of `sendVectors`: frame, reply, frame, reply, ...; yields the
      results received before the first failure. */
  function Exchange(p: Peer, vs: seq<seq<Float64>>): (r: (bool, seq<Float64>, Peer))
    decreases |vs|
  {
    if vs == [] then (true, [], p)
    else
      var step := VectorStep(p, vs[0]);
      if step.0.None? then (false, [], step.1)
      else
        var rest := Exchange(step.1, vs[1..]);
        (rest.0, [step.0.value] + rest.1, rest.2)
  }

  /** `sendVectors`: the u32 vector count, then the exchange. */
  /** `Exchange` carried on after the results `got`, in the order the loop
      of `sendVectors` runs. */
  function ExchangeFrom(p: Peer, vs: seq<seq<Float64>>, got: seq<Float64>): (bool, seq<Float64>, Peer)
    decreases |vs|
  {
    if vs == [] then (true, got, p)
    else
      var step := VectorStep(p, vs[0]);
      if step.0.None? then (false, got, step.1)
      else ExchangeFrom(step.1, vs[1..], got + [step.0.value])
  }

  function SendVectorsSpec(p: Peer, vs: seq<seq<Float64>>): (r: (bool, seq<Float64>, Peer))
  {
    var count := SendAll(p, EncodeU32(ToU32(|vs|)));
    if !count.0 then (false, [], count.1) else Exchange(count.1, vs)
  }

  // ---------------------------------------------------------------------
  // Properties of the protocol steps

  /** Carrying on after `got` is `Exchange` with `got` in front. */
  lemma {:induction false} ExchangeFromAll(p: Peer, vs: seq<seq<Float64>>, got: seq<Float64>)
    ensures var r := ExchangeFrom(p, vs, got); var e := Exchange(p, vs);
      r.0 == e.0 && r.1 == got + e.1 && r.2 == e.2
    decreases |vs|
  {
    if vs == [] {
      assert got + [] == got;
    } else {
      var step := VectorStep(p, vs[0]);
      if step.0.None? {
        assert got + [] == got;
      } else {
        var rest := Exchange(step.1, vs[1..]);
        ExchangeFromAll(step.1, vs[1..], got + [step.0.value]);
        Appended(got, step.0.value, rest.1);
      }
    }
  }

  /** One pass of the loop, from vector `i`. */
  lemma ExchangeFromStep(p: Peer, vs: seq<seq<Float64>>, i: nat, got: seq<Float64>)
    requires i < |vs|
    ensures var step := VectorStep(p, vs[i]);
      ExchangeFrom(p, vs[i..], got)
        == if step.0.None? then (false, got, step.1) else ExchangeFrom(step.1, vs[i + 1..], got + [step.0.value])
  {
    assert vs[i..][0] == vs[i] && vs[i..][1..] == vs[i + 1..];
  }

  lemma Appended(got: seq<Float64>, x: Float64, rest: seq<Float64>)
    ensures (got + [x]) + rest == got + ([x] + rest)
  {
  }

  /** The handshake in terms of the salt reply: a refused salt ("ERR" or a
      length other than 16) ends it with only the login line sent; success
      means the login line and then the hash line of that salt were sent. */
  lemma HandshakeLines(p: Peer, login: string, password: string, sha1: string -> Digest)
    ensures var (ok, q) := Handshake(p, login, password, sha1);
      var (sent, p1) := SendLine(p, login);
      var (salt, p2) := ReceiveLine(p1);
      && (sent && salt.Some? && (salt.value == "ERR" || |salt.value| != 16) ==>
            !ok && q.wire == p.wire + login + "\n")
      && (ok ==>
            && sent && salt.Some? && |salt.value| == 16 && salt.value != "ERR"
            && q.wire == p.wire + login + "\n" + Authenticator.ComputeHash(salt.value, password, sha1) + "\n")
  {
    var (sent, p1) := SendLine(p, login);
    if sent {
      var (salt, p2) := ReceiveLine(p1);
      if salt.Some? && salt.value != "ERR" && |salt.value| == 16 {
        var hash := Authenticator.ComputeHash(salt.value, password, sha1);
        var (sentHash, p3) := SendLine(p2, hash);
        assert sentHash ==> p3.wire == p.wire + login + "\n" + hash + "\n";
      }
    }
  }

  /** The handshake succeeds exactly when the status line, read after the
      hash went out, is "OK". */
  lemma HandshakeStatus(p: Peer, login: string, password: string, sha1: string -> Digest)
    ensures var (ok, q) := Handshake(p, login, password, sha1);
      var (sent, p1) := SendLine(p, login);
      var (salt, p2) := ReceiveLine(p1);
      sent && salt.Some? && salt.value != "ERR" && |salt.value| == 16 ==>
        var (sentHash, p3) := SendLine(p2, Authenticator.ComputeHash(salt.value, password, sha1));
        ok <==> sentHash && ReceiveLine(p3).0 == Some("OK")
  {
  }

  /** A server that sends a 16-character salt line and then a status line, on
      a socket that accepts both client lines whole: the client sends its
      login line and the hash line, and succeeds exactly when the status is
      "OK". */
  lemma HandshakeWithServer(login: string, password: string, sha1: string -> Digest,
                            salt: string, status: string, wire: seq<char>)
    requires |salt| == 16 && '\n' !in salt && '\0' !in salt
    requires |status| < 1023 && '\n' !in status && '\0' !in status
    ensures var p := Peer([Chunk(salt + "\n"), Chunk(status + "\n")], [|login| + 1, 41], wire);
      var (ok, q) := Handshake(p, login, password, sha1);
      && (ok <==> status == "OK")
      && q.wire == wire + login + "\n" + Authenticator.ComputeHash(salt, password, sha1) + "\n"
  {
    var p := Peer([Chunk(salt + "\n"), Chunk(status + "\n")], [|login| + 1, 41], wire);
    var (sent, p1) := SendLine(p, login);
    assert sent && p1.inbound == p.inbound && p1.quota == [41];
    var (got, p2) := ReceiveLine(p1);
    assert CutAt(salt + "\n", '\0') == salt + "\n" by { CutAtAbsent(salt + "\n", '\0'); }
    assert CutAt(salt + "\n", '\n') == salt by { CutAtNewline(salt); }
    assert got == Some(salt);
    assert p2.inbound == [Chunk(status + "\n")];
    var hash := Authenticator.ComputeHash(salt, password, sha1);
    var (sentHash, p3) := SendLine(p2, hash);
    assert sentHash;
    var (st, p4) := ReceiveLine(p3);
    assert CutAt(status + "\n", '\0') == status + "\n" by { CutAtAbsent(status + "\n", '\0'); }
    assert CutAt(status + "\n", '\n') == status by { CutAtNewline(status); }
    assert st == Some(status);
    HandshakeLines(p, login, password, sha1);
  }

  lemma {:induction false} CutAtAbsent(s: string, c: char)
    requires c !in s
    ensures CutAt(s, c) == s
  {
    if s != [] {
      CutAtAbsent(s[1..], c);
    }
  }

  lemma {:induction false} CutAtNewline(s: string)
    requires '\n' !in s
    ensures CutAt(s + "\n", '\n') == s
  {
    if s != [] {
      assert (s + "\n")[1..] == s[1..] + "\n";
      CutAtNewline(s[1..]);
    }
  }

  /** The line read is taken from the front of the inbound stream; a failed
      read consumes nothing. */
  lemma ReceiveLineStream(p: Peer)
    ensures var r := ReceiveLine(p);
      && (r.0.Some? ==> r.0.value <= Stream(p.inbound))
      && (r.0.None? ==> Stream(r.1.inbound) == Stream(p.inbound))
  {
    RecvStream(p, 1023, Blocking);
    var (got, q) := Recv(p, 1023, Blocking);
    if got.Got? {
      assert CutAt(CutAt(got.bytes, '\0'), '\n') <= got.bytes;
    }
  }

  /** What `receiveBinaryData` collects is the front of the inbound stream. */
  lemma {:induction false} ReceiveAllStream(p: Peer, size: nat)
    ensures var r := ReceiveAll(p, size);
      && r.1 + Stream(r.2.inbound) == Stream(p.inbound)
      && (!r.0 ==> Stream(r.2.inbound) == [])
    decreases size
  {
    if size > 0 {
      RecvStream(p, size, Blocking);
      var (got, q) := Recv(p, size, Blocking);
      if got.Got? {
        var rest := ReceiveAll(q, size - |got.bytes|);
        ReceiveAllStream(q, size - |got.bytes|);
        Associative(got.bytes, rest.1, Stream(rest.2.inbound));
      }
    }
  }

  /** Carrying on after `got` is `ReceiveAll` with `got` in front. */
  lemma {:induction false} ReceiveRestAll(p: Peer, size: nat, got: seq<char>)
    ensures var r := ReceiveRest(p, size, got); var a := ReceiveAll(p, size);
      r.0 == a.0 && r.1 == got + a.1 && r.2 == a.2
    decreases size
  {
    if size == 0 {
      assert got + [] == got;
    } else {
      var g := Recv(p, size, Blocking);
      if !g.0.Got? {
        assert got + [] == got;
      } else {
        ReceiveRestAll(g.1, size - |g.0.bytes|, got + g.0.bytes);
        Associative(got, g.0.bytes, ReceiveAll(g.1, size - |g.0.bytes|).1);
      }
    }
  }

  /** `receiveBinaryData` succeeds exactly when `size` octets arrive before the
      stream ends or fails, and then it returns exactly those octets. */
  lemma ReceiveAllExact(p: Peer, size: nat)
    ensures var r := ReceiveAll(p, size);
      && (r.0 <==> |Stream(p.inbound)| >= size)
      && (r.0 ==> r.1 == Stream(p.inbound)[..size])
  {
    ReceiveAllStream(p, size);
    var r := ReceiveAll(p, size);
    assert (r.1 + Stream(r.2.inbound))[..|r.1|] == r.1;
  }

  /** The reply is taken from the front of the inbound stream. */
  lemma AwaitResultStream(p: Peer)
    ensures var r := AwaitResult(p);
      && (r.0.Some? ==> r.0.value + Stream(r.1.inbound) == Stream(p.inbound))
      && IsSuffix(Stream(r.1.inbound), Stream(p.inbound))
  {
    RecvStream(p, 8, DontWait);
    var (first, p1) := Recv(p, 8, DontWait);
    if first.Again? {
      RecvStream(p1, 8, WaitAll);
      var (second, p2) := Recv(p1, 8, WaitAll);
      if second.Got? {
        SuffixAfter(second.bytes, Stream(p2.inbound));
      }
    } else if first.Got? {
      SuffixAfter(first.bytes, Stream(p1.inbound));
    }
  }

  lemma SuffixAfter(a: seq<char>, b: seq<char>)
    ensures IsSuffix(b, a + b)
  {
    assert (a + b)[|a|..] == b;
  }

  /** The result of one vector is taken from the front of the inbound
      stream. */
  lemma VectorStepStream(p: Peer, v: seq<Float64>)
    ensures var r := VectorStep(p, v);
      && (r.0.Some? ==> r.0.value + Stream(r.1.inbound) == Stream(p.inbound))
      && IsSuffix(Stream(r.1.inbound), Stream(p.inbound))
  {
    var frame := SendFrame(p, v);
    if frame.0 {
      AwaitResultStream(frame.1);
    }
  }

  /** On a stream holding 8 or more octets, the reply is its next 8 octets
      whenever the first `recv` sees a full 8-octet chunk or nothing yet. */
  lemma AwaitResultCases(p: Peer, x: seq<char>, rest: seq<Arrival>)
    ensures p.inbound == [Chunk(x)] + rest && |x| == 8 ==> AwaitResult(p).0 == Some(x)
    ensures p.inbound == [Pending] + rest && |Stream(rest)| >= 8 ==>
      AwaitResult(p).0 == Some(Stream(rest)[..8])
    ensures p.inbound == [Chunk(x)] + rest && 1 <= |x| < 8 ==> AwaitResult(p).0 == None
    ensures p.inbound == [Hangup] + rest || p.inbound == [Fault] + rest || p.inbound == [] ==>
      AwaitResult(p).0 == None
  {
    if p.inbound == [Pending] + rest && |Stream(rest)| >= 8 {
      var p1 := p.(inbound := rest);
      assert Recv(p, 8, DontWait) == (Again, p1);
      WaitAllFills(p1, 8);
    }
  }

  lemma {:induction false} ImagesCons(r: Float64, rs: seq<Float64>)
    ensures Images([r] + rs) == r + Images(rs)
  {
    ImagesAppend([r], rs);
    assert [r][..0] == [];
  }

  /** The exchange yields one result per vector on success and the results
      of a proper prefix of the vectors on failure. */
  lemma {:induction false} ExchangeCount(p: Peer, vs: seq<seq<Float64>>)
    ensures var r := Exchange(p, vs);
      |r.1| <= |vs| && (r.0 <==> |r.1| == |vs|)
    decreases |vs|
  {
    if vs != [] {
      var step := VectorStep(p, vs[0]);
      if step.0.Some? {
        ExchangeCount(step.1, vs[1..]);
      }
    }
  }

  /** Results are taken from the inbound stream in order: their images are a
      prefix of it, and on success exactly that prefix was consumed. */
  lemma {:induction false} ExchangeResults(p: Peer, vs: seq<seq<Float64>>)
    ensures var r := Exchange(p, vs);
      && Images(r.1) <= Stream(p.inbound)
      && (r.0 ==> Images(r.1) + Stream(r.2.inbound) == Stream(p.inbound))
    decreases |vs|
  {
    if vs != [] {
      var step := VectorStep(p, vs[0]);
      VectorStepStream(p, vs[0]);
      if step.0.Some? {
        var rest := Exchange(step.1, vs[1..]);
        assert Exchange(p, vs) == (rest.0, [step.0.value] + rest.1, rest.2);
        ExchangeResults(step.1, vs[1..]);
        ImagesCons(step.0.value, rest.1);
        PrefixExtend(step.0.value, Images(rest.1), Stream(step.1.inbound));
        Associative(step.0.value, Images(rest.1), Stream(rest.2.inbound));
      } else {
        assert Exchange(p, vs) == (false, [], step.1);
      }
    }
  }

  lemma PrefixExtend(a: seq<char>, x: seq<char>, y: seq<char>)
    requires x <= y
    ensures a + x <= a + y
  {
    assert (a + y)[..|a + x|] == a + x;
  }

  lemma PrefixWithin(a: seq<char>, f: seq<char>, u: seq<char>, w: seq<char>)
    requires w <= (a + f) + u
    ensures w <= a + (f + u)
  {
    Associative(a, f, u);
  }

  lemma SentFramesPrefix(vs: seq<seq<Float64>>, n: nat)
    requires 0 < n <= |vs|
    ensures SentFrames(vs[..n]) == SentFrame(vs[0]) + SentFrames(vs[1..][..n - 1])
  {
    assert vs[..n][1..] == vs[1..][..n - 1];
  }

  /** On success every frame was sent, in order. */
  lemma {:induction false} ExchangeFramesSent(p: Peer, vs: seq<seq<Float64>>)
    ensures var r := Exchange(p, vs);
      r.0 ==> r.2.wire == p.wire + SentFrames(vs)
    decreases |vs|
  {
    if vs != [] {
      var step := VectorStep(p, vs[0]);
      if step.0.Some? {
        var rest := Exchange(step.1, vs[1..]);
        assert Exchange(p, vs) == (rest.0, [step.0.value] + rest.1, rest.2);
        ExchangeFramesSent(step.1, vs[1..]);
        Associative(p.wire, SentFrame(vs[0]), SentFrames(vs[1..]));
      }
    }
  }

  /** On failure the frames of the vectors whose results arrived were all
      sent. */
  lemma {:induction false} ExchangeFramesBefore(p: Peer, vs: seq<seq<Float64>>)
    ensures var r := Exchange(p, vs);
      !r.0 ==> |r.1| < |vs| && p.wire + SentFrames(vs[..|r.1|]) <= r.2.wire
    decreases |vs|
  {
    if vs != [] {
      var step := VectorStep(p, vs[0]);
      if step.0.Some? {
        var rest := Exchange(step.1, vs[1..]);
        assert Exchange(p, vs) == (rest.0, [step.0.value] + rest.1, rest.2);
        ExchangeFramesBefore(step.1, vs[1..]);
        if !rest.0 {
          SentFramesPrefix(vs, |rest.1| + 1);
          FrameJoin(p.wire, step.1.wire, SentFrame(vs[0]), SentFrames(vs[1..][..|rest.1|]), rest.2.wire);
        }
      } else {
        assert Exchange(p, vs) == (false, [], step.1);
        assert vs[..0] == [] && p.wire + [] == p.wire;
      }
    }
  }

  lemma FrameJoin(a: seq<char>, b: seq<char>, f: seq<char>, l: seq<char>, w: seq<char>)
    requires b == a + f && b + l <= w
    ensures a + (f + l) <= w
  {
    Associative(a, f, l);
  }

  /** On failure nothing after the frame of the vector whose exchange failed
      went out: frame i+1 is never sent before the reply to vector i. */
  lemma {:induction false} ExchangeFramesAfter(p: Peer, vs: seq<seq<Float64>>)
    ensures var r := Exchange(p, vs);
      !r.0 ==> |r.1| < |vs| && r.2.wire <= p.wire + SentFrames(vs[..|r.1| + 1])
    decreases |vs|
  {
    if vs != [] {
      var step := VectorStep(p, vs[0]);
      if step.0.Some? {
        var rest := Exchange(step.1, vs[1..]);
        assert Exchange(p, vs) == (rest.0, [step.0.value] + rest.1, rest.2);
        ExchangeFramesAfter(step.1, vs[1..]);
        if !rest.0 {
          SentFramesPrefix(vs, |rest.1| + 2);
          PrefixWithin(p.wire, SentFrame(vs[0]), SentFrames(vs[1..][..|rest.1| + 1]), rest.2.wire);
        }
      } else {
        assert Exchange(p, vs) == (false, [], step.1);
        SentFramesPrefix(vs, 1);
        assert vs[1..][..0] == [];
        assert SentFrames(vs[..1]) == SentFrame(vs[0]) + [];
      }
    }
  }

  /** When every element count fits in 32 bits, the frames `sendVectors`
      sends are the frames of the layout. */
  lemma {:induction false} SentFramesAreFrames(vs: seq<seq<Float64>>)
    requires forall i :: 0 <= i < |vs| ==> |vs[i]| < TWO32
    ensures SentFrames(vs) == Frames(vs)
    decreases |vs|
  {
    if vs != [] {
      assert vs[0][..|vs[0]|] == vs[0];
      assert SentFrame(vs[0]) == Frame(vs[0]);
      SentFramesAreFrames(vs[1..]);
      FramesCons(vs[0], vs[1..]);
      assert [vs[0]] + vs[1..] == vs;
    }
  }

  /** A successful `sendVectors` puts the count and every frame on the wire,
      in order, and takes one result per vector from the front of the inbound
      stream. */
  lemma {:induction false} SendVectorsDelivers(p: Peer, vs: seq<seq<Float64>>)
    ensures var r := SendVectorsSpec(p, vs);
      r.0 ==>
        && r.2.wire == p.wire + EncodeU32(ToU32(|vs|)) + SentFrames(vs)
        && |r.1| == |vs|
        && Images(r.1) + Stream(r.2.inbound) == Stream(p.inbound)
  {
    var count := SendAll(p, EncodeU32(ToU32(|vs|)));
    if count.0 {
      ExchangeFramesSent(count.1, vs);
      ExchangeCount(count.1, vs);
      ExchangeResults(count.1, vs);
    }
  }

  /** For a set whose counts fit in 32 bits, what a successful `sendVectors`
      sent is the encoded set, and it decodes back to the vectors. */
  lemma {:induction false} SendVectorsEncodes(p: Peer, vs: seq<seq<Float64>>)
    requires Fits32(vs)
    ensures var r := SendVectorsSpec(p, vs);
      r.0 ==> r.2.wire == p.wire + Encode(vs) && Decode(r.2.wire[|p.wire|..]) == Some(vs)
  {
    var r := SendVectorsSpec(p, vs);
    SendVectorsDelivers(p, vs);
    if r.0 {
      EncodedAfter(p.wire, r.2.wire, vs);
    }
  }

  lemma {:induction false} EncodedAfter(a: seq<char>, w: seq<char>, vs: seq<seq<Float64>>)
    requires Fits32(vs) && w == a + EncodeU32(ToU32(|vs|)) + SentFrames(vs)
    ensures w == a + Encode(vs) && Decode(w[|a|..]) == Some(vs)
  {
    SentFramesAreFrames(vs);
    assert w[|a|..] == Encode(vs);
    DecodeEncode(vs);
  }

  /** A failed `sendVectors` sent no more than the count and the frames up to
      the one whose exchange failed; with an empty set only the count can
      have failed. */
  lemma {:induction false} SendVectorsFailure(p: Peer, vs: seq<seq<Float64>>)
    ensures var r := SendVectorsSpec(p, vs);
      !r.0 ==>
        && |r.1| <= |vs|
        && (vs != [] ==> |r.1| < |vs|)
        && r.2.wire <= p.wire + EncodeU32(ToU32(|vs|)) + SentFrames(vs[..if vs == [] then 0 else |r.1| + 1])
  {
    var count := SendAll(p, EncodeU32(ToU32(|vs|)));
    if count.0 {
      ExchangeCount(count.1, vs);
    }
    var r := SendVectorsSpec(p, vs);
    if r.0 {
      return;
    }
    var sentUpTo := SentFrames(vs[..if vs == [] then 0 else |r.1| + 1]);
    if !count.0 {
      PrefixPadded(count.1.wire, p.wire + EncodeU32(ToU32(|vs|)), sentUpTo);
    } else {
      ExchangeFramesAfter(count.1, vs);
      if vs != [] {
        FrameWithin(p.wire, count.1.wire, EncodeU32(ToU32(|vs|)), sentUpTo, r.2.wire);
      }
    }
  }

  lemma PrefixPadded(w: seq<char>, a: seq<char>, f: seq<char>)
    requires w <= a
    ensures w <= a + f
  {
  }

  lemma FrameWithin(a: seq<char>, b: seq<char>, f: seq<char>, u: seq<char>, w: seq<char>)
    requires b == a + f && w <= b + u
    ensures w <= a + f + u
  {
  }

  // ---------------------------------------------------------------------
  // The class

  /** `closeConnection` on a descriptor and the log of closed descriptors: an
      open descriptor is closed and forgotten, -1 is left alone. */
  function CloseEffect(fd: int, closed: seq<int>): (r: (int, seq<int>))
    ensures r.0 < 0
    ensures fd >= 0 ==> r == (-1, closed + [fd])
    ensures fd < 0 ==> r == (fd, closed)
  {
    if fd >= 0 then (-1, closed + [fd]) else (fd, closed)
  }

  /** Closing twice closes once. */
  lemma CloseIdempotent(fd: int, closed: seq<int>)
    ensures var once := CloseEffect(fd, closed);
      CloseEffect(once.0, once.1) == once
  {
  }

  /** The first send of `sendBinaryData` that returns 0 or -1 ends it with
      `false`; a partial send is continued with the octets not yet sent. */
  lemma SendAllSteps(p: Peer, data: seq<char>)
    requires data != []
    ensures var s := Send(p, data);
      && (s.0 <= 0 ==> SendAll(p, data) == (false, s.1))
      && (s.0 > 0 ==> SendAll(p, data) == SendAll(s.1, data[s.0..]))
  {
  }

  /** The sum of the send quotas `q`. */
  function QuotaSum(q: seq<int>): int
  {
    if q == [] then 0 else q[0] + QuotaSum(q[1..])
  }

  /** Each of the next `k` sends of the script accepts some octets, and
      together they accept at least `n`. */
  predicate Accepts(quota: seq<int>, k: nat, n: nat)
  {
    k <= |quota| && (forall i :: 0 <= i < k ==> quota[i] > 0) && QuotaSum(quota[..k]) >= n
  }

  lemma QuotaSumHead(quota: seq<int>, k: nat)
    requires 1 <= k <= |quota|
    ensures QuotaSum(quota[..k]) == quota[0] + QuotaSum(quota[1..][..k - 1])
  {
    assert quota[..k][1..] == quota[1..][..k - 1];
  }

  /** `sendBinaryData` puts all of `data` on the wire exactly when the next
      sends of the script accept octets until all of it is out: partial sends
      are continued, and a send that accepts nothing before then ends it. */
  lemma SendAllSucceeds(p: Peer, data: seq<char>)
    ensures SendAll(p, data).0 <==> exists k: nat :: Accepts(p.quota, k, |data|)
    ensures SendAll(p, data).0 ==> SendAll(p, data).1.wire == p.wire + data
  {
    if SendAll(p, data).0 {
      var k := SendAllAccepted(p, data);
    }
    if k: nat :| Accepts(p.quota, k, |data|) {
      SendAllDelivers(p, data, k);
    }
  }

  /** Sends that accept octets until all of `data` is out deliver it. */
  lemma {:induction false} SendAllDelivers(p: Peer, data: seq<char>, k: nat)
    requires Accepts(p.quota, k, |data|)
    ensures SendAll(p, data).0
    decreases |data|
  {
    if data != [] {
      assert k >= 1;
      var (n, q) := Send(p, data);
      assert n > 0 && q.quota == p.quota[1..];
      assert SendAll(p, data).0 == SendAll(q, data[n..]).0;
      if n == |data| {
        assert data[n..] == [];
      } else {
        QuotaSumHead(p.quota, k);
        assert forall i :: 0 <= i < k - 1 ==> q.quota[i] == p.quota[i + 1];
        assert Accepts(q.quota, k - 1, |data[n..]|);
        SendAllDelivers(q, data[n..], k - 1);
      }
    }
  }

  /** A `sendBinaryData` that succeeded used sends that accepted octets until
      all of `data` was out. */
  lemma {:induction false} SendAllAccepted(p: Peer, data: seq<char>) returns (k: nat)
    requires SendAll(p, data).0
    ensures Accepts(p.quota, k, |data|)
    decreases |data|
  {
    if data == [] {
      k := 0;
      assert p.quota[..0] == [];
    } else {
      var (n, q) := Send(p, data);
      assert n > 0 && p.quota != [] && p.quota[0] >= n && q.quota == p.quota[1..];
      var k' := SendAllAccepted(q, data[n..]);
      k := k' + 1;
      QuotaSumHead(p.quota, k);
      assert forall i :: 1 <= i < k ==> p.quota[i] == q.quota[i - 1];
    }
  }

  /** A send of non-empty `data` that the script takes in one go. */
  lemma SendAllWhole(p: Peer, data: seq<char>)
    requires data != [] && |p.quota| >= 1 && p.quota[0] >= |data|
    ensures SendAll(p, data) == (true, p.(quota := p.quota[1..], wire := p.wire + data))
  {
    SendWhole(p, data);
    assert data[|data|..] == [];
  }

  /** One pass of the vector loop on a socket that takes the size and the
      values whole and has the 8-octet result ready. */
  lemma VectorStepWhole(x: Float64, rest: seq<Arrival>, quota: seq<int>, wire: seq<char>, v: seq<Float64>)
    requires v != [] && |v| < TWO32 && |quota| >= 2 && quota[0] >= 4 && quota[1] >= 8 * |v|
    ensures VectorStep(Peer([Chunk(x)] + rest, quota, wire), v)
         == (Some(x), Peer(rest, quota[2..], wire + SentFrame(v)))
  {
    var p := Peer([Chunk(x)] + rest, quota, wire);
    assert v[..SizeField(v)] == v;
    SendAllWhole(p, EncodeU32(SizeField(v)));
    var p1 := p.(quota := quota[1..], wire := wire + EncodeU32(SizeField(v)));
    SendAllWhole(p1, Images(v));
    assert p.inbound[1..] == rest;
    assert Recv(Peer([Chunk(x)] + rest, quota[2..], wire + SentFrame(v)), 8, DontWait)
        == (Got(x), Peer(rest, quota[2..], wire + SentFrame(v)));
  }

  /** The loop of `sendVectors` on a socket that takes every send whole and
      answers each vector with one 8-octet chunk: it succeeds, sends every
      frame and returns the chunks as results, in order. */
  lemma {:induction false} ExchangeWhole(rs: seq<Float64>, rest: seq<Arrival>, quota: seq<int>,
                                         wire: seq<char>, vs: seq<seq<Float64>>)
    requires |rs| == |vs| && TakesWhole(quota, vs) && forall i :: 0 <= i < |vs| ==> |vs[i]| < TWO32
    ensures var r := Exchange(Peer(Chunks(rs) + rest, quota, wire), vs);
      r.0 && r.1 == rs && r.2.inbound == rest && r.2.wire == wire + SentFrames(vs)
    decreases |vs|
  {
    var p := Peer(Chunks(rs) + rest, quota, wire);
    if vs == [] {
      assert Chunks(rs) + rest == rest;
    } else {
      assert p.inbound == [Chunk(rs[0])] + (Chunks(rs[1..]) + rest);
      VectorStepWhole(rs[0], Chunks(rs[1..]) + rest, quota, wire, vs[0]);
      var next := Peer(Chunks(rs[1..]) + rest, quota[2..], wire + SentFrame(vs[0]));
      ExchangeWhole(rs[1..], rest, quota[2..], wire + SentFrame(vs[0]), vs[1..]);
      assert [rs[0]] + rs[1..] == rs;
      Associative(wire, SentFrame(vs[0]), SentFrames(vs[1..]));
    }
  }

  /** `sendVectors` against a socket that takes the count and every later
      send whole and answers each vector with one 8-octet chunk, for a set
      without empty vectors: it returns true, the wire holds the encoded set
      and the results are the chunks in arrival order. */
  lemma SendVectorsWhole(rs: seq<Float64>, rest: seq<Arrival>, quota: seq<int>,
                         wire: seq<char>, vs: seq<seq<Float64>>)
    requires |rs| == |vs| && Fits32(vs)
    requires |quota| >= 1 && quota[0] >= 4 && TakesWhole(quota[1..], vs)
    ensures var r := SendVectorsSpec(Peer(Chunks(rs) + rest, quota, wire), vs);
      r.0 && r.1 == rs && r.2.inbound == rest && r.2.wire == wire + Encode(vs)
  {
    var p := Peer(Chunks(rs) + rest, quota, wire);
    var count := EncodeU32(ToU32(|vs|));
    SendAllWhole(p, count);
    ExchangeWhole(rs, rest, quota[1..], wire + count, vs);
    EncodedAfter(wire, wire + count + SentFrames(vs), vs);
  }

  /** After `closeConnection`, or a failed `establishConnection`, every step
      fails without touching the wire: a text line is not sent, no text,
      octets or handshake come back, and a non-empty buffer does not go out. */
  lemma UnpluggedSteps(wire: seq<char>, text: string, data: seq<char>, size: nat,
                       login: string, password: string, sha1: string -> Digest)
    ensures SendLine(Unplugged(wire), text) == (false, Unplugged(wire))
    ensures ReceiveLine(Unplugged(wire)) == (None, Unplugged(wire))
    ensures Handshake(Unplugged(wire), login, password, sha1) == (false, Unplugged(wire))
    ensures data != [] ==> SendAll(Unplugged(wire), data) == (false, Unplugged(wire))
    ensures size > 0 ==> ReceiveAll(Unplugged(wire), size) == (false, [], Unplugged(wire))
  {
    UnpluggedFails(wire, text + "\n", 1023, Blocking);
    if size > 0 {
      UnpluggedFails(wire, text + "\n", size, Blocking);
    }
    if data != [] {
      UnpluggedFails(wire, data, 1, Blocking);
    }
  }

  /** What `recv` does to the caller's buffer: `bytes` land at offset `at`,
      the rest of the buffer is untouched. */
  method Place(buffer: array<char>, at: nat, bytes: seq<char>)
    requires at + |bytes| <= buffer.Length
    modifies buffer
    ensures buffer[..] == old(buffer[..])[..at] + bytes + old(buffer[..])[at + |bytes|..]
  {
    forall k | 0 <= k < |bytes| {
      buffer[at + k] := bytes[k];
    }
    assert buffer[..] == old(buffer[..])[..at] + bytes + old(buffer[..])[at + |bytes|..];
  }

  /** A buffer holding `got` and then the rest of `original` still does so,
      one chunk further, after the chunk `b` was placed behind `got`. */
  lemma Splice(before: seq<char>, got: seq<char>, b: seq<char>, original: seq<char>, after: seq<char>)
    requires |got| + |b| <= |original| && before == got + original[|got|..]
    requires after == before[..|got|] + b + before[|got| + |b|..]
    ensures after == (got + b) + original[|got| + |b|..]
  {
    assert before[..|got|] == got;
    assert before[|got| + |b|..] == original[|got| + |b|..];
  }

  class ServerConnection {
    var socketFD: int
    var login: string
    var password: string
    /** The connected socket as seen through `send` and `recv`. */
    var peer: Peer
    /** Every descriptor this object passed to `close`, in order. */
    var closed: seq<int>

    /** A connection object without a socket. */
    constructor ()
      ensures socketFD == -1 && login == [] && password == [] && closed == []
      ensures peer == Unplugged([])
    {
      socketFD := -1;
      login := [];
      password := [];
      peer := Unplugged([]);
      closed := [];
    }

    /** `establishConnection`: `fd` is what `socket` returned, `addressParses`
        whether `inet_pton` accepted the address, `connects` whether `connect`
        succeeded and `server` the peer it reached. The descriptor is kept in
        every case, also when a later step fails; a socket that did not
        connect takes no data, whatever the object was connected to before. */
    method EstablishConnection(fd: int, addressParses: bool, connects: bool, server: Peer)
      returns (ok: bool)
      modifies this
      ensures socketFD == fd && login == old(login) && password == old(password) && closed == old(closed)
      ensures ok <==> fd >= 0 && addressParses && connects
      ensures peer == if ok then server else Unplugged(old(peer).wire)
    {
      socketFD := fd;
      if socketFD < 0 || !addressParses || !connects {
        peer := Unplugged(peer.wire);
        return false;
      }
      peer := server;
      return true;
    }

    /** `closeConnection`, also what the destructor does. Once closed, the
        socket takes no data. */
    method CloseConnection()
      modifies this
      ensures (socketFD, closed) == CloseEffect(old(socketFD), old(closed))
      ensures peer == if old(socketFD) >= 0 then Unplugged(old(peer).wire) else old(peer)
      ensures login == old(login) && password == old(password)
    {
      if socketFD >= 0 {
        closed := closed + [socketFD];
        socketFD := -1;
        peer := Unplugged(peer.wire);
      }
    }

    /** `sendText`. */
    method SendText(text: string) returns (ok: bool)
      modifies this
      ensures (ok, peer) == SendLine(old(peer), text)
      ensures socketFD == old(socketFD) && login == old(login) && password == old(password) && closed == old(closed)
    {
      var message := text + "\n";
      var (bytesSent, after) := Send(peer, message);
      peer := after;
      ok := bytesSent == |message|;
    }

    /** `receiveText`; `text` is meaningful only when `ok`. */
    method ReceiveText() returns (ok: bool, text: string)
      modifies this
      ensures (if ok then Some(text) else None, peer) == ReceiveLine(old(peer))
      ensures socketFD == old(socketFD) && login == old(login) && password == old(password) && closed == old(closed)
    {
      var (received, after) := Recv(peer, 1023, Blocking);
      peer := after;
      if !received.Got? {
        return false, [];
      }
      text := CutAt(received.bytes, '\0');
      text := CutAt(text, '\n');
      ok := true;
    }

    /** `authenticate`: stores the credentials, then runs the handshake. */
    method Authenticate(userLogin: string, userPassword: string, sha1: string -> Digest) returns (ok: bool)
      modifies this
      ensures (ok, peer) == Handshake(old(peer), userLogin, userPassword, sha1)
      ensures login == userLogin && password == userPassword
      ensures socketFD == old(socketFD) && closed == old(closed)
    {
      login := userLogin;
      password := userPassword;
      ok := SendText(login);
      if !ok {
        return;
      }
      var gotSalt, saltResponse := ReceiveText();
      if !gotSalt {
        return false;
      }
      if saltResponse == "ERR" {
        return false;
      }
      if |saltResponse| != 16 {
        return false;
      }
      var hash := Authenticator.ComputeHash(saltResponse, password, sha1);
      ok := SendText(hash);
      if !ok {
        return;
      }
      var gotStatus, authResponse := ReceiveText();
      if !gotStatus {
        return false;
      }
      ok := authResponse == "OK";
    }

    /** `sendBinaryData`. */
    method SendBinaryData(data: seq<char>) returns (ok: bool)
      modifies this
      ensures (ok, peer) == SendAll(old(peer), data)
      ensures socketFD == old(socketFD) && login == old(login) && password == old(password) && closed == old(closed)
    {
      var totalSent := 0;
      while totalSent < |data|
        invariant 0 <= totalSent <= |data|
        invariant SendAll(peer, data[totalSent..]) == SendAll(old(peer), data)
        invariant socketFD == old(socketFD) && login == old(login) && password == old(password) && closed == old(closed)
        decreases |data| - totalSent
      {
        var (sent, after) := Send(peer, data[totalSent..]);
        peer := after;
        if sent <= 0 {
          return false;
        }
        assert data[totalSent..][sent..] == data[totalSent + sent..];
        totalSent := totalSent + sent;
      }
      return true;
    }

    /** `receiveBinaryData` into `buffer`; on failure the octets that did
        arrive are in the buffer all the same. */
    method ReceiveBinaryData(buffer: array<char>, size: nat) returns (ok: bool)
      requires size <= buffer.Length
      modifies this, buffer
      ensures var r := ReceiveAll(old(peer), size);
        && ok == r.0 && peer == r.2
        && buffer[..] == r.1 + old(buffer[..])[|r.1|..]
      ensures socketFD == old(socketFD) && login == old(login) && password == old(password) && closed == old(closed)
    {
      ghost var original := buffer[..];
      ghost var start := peer;
      ghost var got: seq<char> := [];
      var totalReceived := 0;
      while totalReceived < size
        invariant 0 <= totalReceived <= size && |got| == totalReceived
        invariant ReceiveRest(peer, size - totalReceived, got) == ReceiveRest(start, size, [])
        invariant buffer[..] == got + original[totalReceived..]
        invariant socketFD == old(socketFD) && login == old(login) && password == old(password) && closed == old(closed)
        decreases size - totalReceived
      {
        var (received, after) := Recv(peer, size - totalReceived, Blocking);
        peer := after;
        if received.Count() <= 0 {
          ReceiveRestAll(start, size, []);
          assert [] + ReceiveAll(start, size).1 == ReceiveAll(start, size).1;
          return false;
        }
        ghost var before := buffer[..];
        Place(buffer, totalReceived, received.bytes);
        Splice(before, got, received.bytes, original, buffer[..]);
        got := got + received.bytes;
        totalReceived := totalReceived + received.Count();
      }
      ReceiveRestAll(start, size, []);
      assert [] + ReceiveAll(start, size).1 == ReceiveAll(start, size).1;
      return true;
    }

    /** One pass of the loop of `sendVectors`: the size, the values when
        there are any, then the reply read without waiting and, when nothing
        was there yet, read again waiting for all 8 octets. */
    method ExchangeVector(vec: seq<Float64>) returns (result: Option<Float64>)
      modifies this
      ensures (result, peer) == VectorStep(old(peer), vec)
      ensures socketFD == old(socketFD) && login == old(login) && password == old(password) && closed == old(closed)
    {
      var vecSize := SizeField(vec);
      var sent := SendBinaryData(EncodeU32(vecSize));
      if !sent {
        return None;
      }
      if vecSize > 0 {
        sent := SendBinaryData(Images(vec[..vecSize]));
        if !sent {
          return None;
        }
      }
      var (first, afterFirst) := Recv(peer, 8, DontWait);
      peer := afterFirst;
      if first.Count() == 8 {
        return Some(first.bytes);
      } else if first.Count() == 0 {
        return None;
      } else if first == Again {
        var (second, afterSecond) := Recv(peer, 8, WaitAll);
        peer := afterSecond;
        if second.Count() == 8 {
          return Some(second.bytes);
        }
        return None;
      }
      return None;
    }

    /** `sendVectors`: the results received before the first failure are
        returned either way. */
    method SendVectors(vectors: seq<seq<Float64>>) returns (ok: bool, results: seq<Float64>)
      modifies this
      ensures (ok, results, peer) == SendVectorsSpec(old(peer), vectors)
      ensures socketFD == old(socketFD) && login == old(login) && password == old(password) && closed == old(closed)
    {
      results := [];
      var numVectors := ToU32(|vectors|);
      ok := SendBinaryData(EncodeU32(numVectors));
      if !ok {
        return;
      }
      ok, results := ExchangeVectors(vectors);
    }

    /** The for-loop of `sendVectors`, one `ExchangeVector` per vector,
        pushing each result. */
    method ExchangeVectors(vectors: seq<seq<Float64>>) returns (ok: bool, results: seq<Float64>)
      modifies this
      ensures (ok, results, peer) == Exchange(old(peer), vectors)
      ensures socketFD == old(socketFD) && login == old(login) && password == old(password) && closed == old(closed)
    {
      ghost var start := peer;
      assert vectors[0..] == vectors;
      results := [];
      var i := 0;
      while i < |vectors|
        invariant 0 <= i <= |vectors|
        invariant ExchangeFrom(peer, vectors[i..], results) == ExchangeFrom(start, vectors, [])
        invariant socketFD == old(socketFD) && login == old(login) && password == old(password) && closed == old(closed)
        decreases |vectors| - i
      {
        ExchangeFromStep(peer, vectors, i, results);
        var result := ExchangeVector(vectors[i]);
        if result.None? {
          ExchangeFromAll(start, vectors, []);
          assert [] + Exchange(start, vectors).1 == Exchange(start, vectors).1;
          return false, results;
        }
        results := results + [result.value];
        i := i + 1;
      }
      assert vectors[i..] == [];
      ExchangeFromAll(start, vectors, []);
      assert [] + Exchange(start, vectors).1 == Exchange(start, vectors).1;
      ok := true;
    }
  }
}
