/** `NetworkClient`: the second client variant. Its `run` connects, reads the
    credential file and authenticates, reads the input file, sends every
    vector, receives one result per vector and writes them to the output
    file; the first exception ends the run, which then returns false. The
    socket stays open until the destructor closes it. */
module NetClient {
  import opened Outcomes
  import opened Wire
  import opened Strings
  import opened Transport
  import opened Vectors
  import opened NetCommon
  import opened NetAuth
  import opened NetIO

  /** The credential file a client gets when it is not given one. */
  const DefaultAuthFile: string := "~/.config/velient.conf"

  /** The default credential file lies under `$HOME` when that is set, and is
      opened under its own name otherwise. */
  lemma DefaultAuthPath(home: string)
    ensures AuthPath(DefaultAuthFile, Some(home)) == home + "/.config/velient.conf"
    ensures AuthPath(DefaultAuthFile, None) == DefaultAuthFile
  {
    assert "~/" <= DefaultAuthFile;
  }

  const NetSteps: seq<NetStep> := [ConnectStep, AuthenticateStep, ReadInputStep, SendStep, ReceiveStep, SaveStep]

  /** What `run` depends on outside the process: what `socket` returns,
      whether `inet_pton` accepts an address, whether `connect` reaches an
      address and port, the server it reaches, `$HOME`, what each path opens
      to, SHA-1, how a word reads as a `uint32_t` and as a `double`, what the
      uninitialised result variable of each iteration holds, whether the
      output file can be created, and how a `double` prints. */
  datatype NetEnv = NetEnv(
    socket: int,
    addressParses: string -> bool,
    connects: (string, int) -> bool,
    server: Peer,
    home: Option<string>,
    files: string -> Option<string>,
    sha1: string -> Digest,
    u32: Parser<U32>,
    value: Parser<Float64>,
    stale: nat -> Float64,
    creates: string -> bool,
    fmt: Float64 -> string)

  /** What a run leaves behind: whether it returned true, the steps it
      started, the exception that ended it, the vectors read, the results
      received, the text written to the output file, and the socket as the
      object holds it and as the server saw it. */
  datatype NetReport = NetReport(
    ok: bool,
    trace: seq<NetStep>,
    failure: Option<Thrown>,
    vectors: seq<seq<Float64>>,
    results: seq<Float64>,
    saved: Option<string>,
    sock: int,
    peer: Peer)

  /** `connect_to_server` given what `socket` returned, whether the address
      parses and whether `connect` succeeds: `None` when it returns true. */
  function ConnectOutcome(fd: int, addressParses: bool, connects: bool): (r: Option<Thrown>)
    ensures r.None? <==> fd >= 0 && addressParses && connects
    ensures r.Some? ==> StepOf(r.value) == ConnectStep
    ensures fd < 0 ==> r == Some(SocketFailed)
  {
    if fd < 0 then Some(SocketFailed)
    else if !addressParses then Some(BadAddress)
    else if !connects then Some(ConnectFailed)
    else None
  }

  /** A run that threw `failure` in its `n`-th step. */
  function Threw(n: nat, failure: Thrown, sock: int, peer: Peer, vs: seq<seq<Float64>>): NetReport
    requires 1 <= n <= |NetSteps|
  {
    NetReport(false, NetSteps[..n], Some(failure), vs, [], None, sock, peer)
  }

  /** `run` of a client built for `ip`, `port`, the two data files and the
      credential file, whose socket was `peer0` before. */
  function RunSpec(ip: string, port: int, inFile: string, outFile: string, authFile: string,
                   env: NetEnv, peer0: Peer): NetReport
  {
    var conn := ConnectOutcome(env.socket, env.addressParses(ip), env.connects(ip, port));
    if conn.Some? then Threw(1, conn.value, env.socket, Unplugged(peer0.wire), [])
    else Authenticated(inFile, outFile, authFile, env)
  }

  /** From step 2 on, connected to `env.server`. */
  function Authenticated(inFile: string, outFile: string, authFile: string, env: NetEnv): NetReport
  {
    var auth := NetAuthenticate(env.server, authFile, env.home, env.files, env.sha1);
    if auth.0.Some? then Threw(2, auth.0.value, env.socket, auth.1, [])
    else Exchanged(inFile, outFile, env, auth.1)
  }

  /** From step 3 on, authenticated, the socket now at `p`. */
  function Exchanged(inFile: string, outFile: string, env: NetEnv, p: Peer): NetReport
  {
    var input := ParseInput(env.files(inFile), env.u32, env.value);
    if input.Err? then Threw(3, input.error, env.socket, p, [])
    else Delivered(outFile, env, input.value, p)
  }

  /** From step 4 on, the vectors `vs` read. */
  function Delivered(outFile: string, env: NetEnv, vs: seq<seq<Float64>>, p: Peer): NetReport
  {
    var sent := NetSendVectors(p, vs);
    if sent.0.Some? then Threw(4, sent.0.value, env.socket, sent.1, vs)
    else Collected(outFile, env, vs, sent.1)
  }

  /** From step 5 on, the vectors sent. */
  function Collected(outFile: string, env: NetEnv, vs: seq<seq<Float64>>, p: Peer): NetReport
  {
    var got := NetReceiveResults(p, ToU32(|vs|), env.stale);
    if got.0.Err? then Threw(5, got.0.error, env.socket, got.1, vs)
    else if !env.creates(outFile) then Threw(6, OutputNotCreated, env.socket, got.1, vs)
    else NetReport(true, NetSteps, None, vs, got.0.value, Some(SavedText(got.0.value, env.fmt)), env.socket, got.1)
  }

  /** The shape every run has: the steps started are a prefix of the full
      order, the run returns true exactly when nothing was thrown, and then
      it started every step and wrote the output file; an exception comes
      from the last step started. */
  predicate Ordered(r: NetReport)
  {
    && 1 <= |r.trace| <= |NetSteps| && r.trace == NetSteps[..|r.trace|]
    && (r.ok <==> r.failure.None?)
    && (r.ok ==> r.trace == NetSteps)
    && (r.failure.Some? ==> StepOf(r.failure.value) == r.trace[|r.trace| - 1])
    && (r.saved.Some? <==> r.ok)
  }

  /** A report of an exception thrown by step `n` has the shape of a run. */
  lemma ThrewOrdered(n: nat, failure: Thrown, sock: int, peer: Peer, vs: seq<seq<Float64>>)
    requires 1 <= n <= |NetSteps| && StepOf(failure) == NetSteps[n - 1]
    ensures Ordered(Threw(n, failure, sock, peer, vs))
  {
  }

  lemma CollectedOrder(outFile: string, env: NetEnv, vs: seq<seq<Float64>>, p: Peer)
    ensures var r := Collected(outFile, env, vs, p);
      Ordered(r) && 5 <= |r.trace| && r.sock == env.socket
  {
    var got := NetReceiveResults(p, ToU32(|vs|), env.stale);
    if got.0.Err? {
      ThrewOrdered(5, got.0.error, env.socket, got.1, vs);
    } else if !env.creates(outFile) {
      ThrewOrdered(6, OutputNotCreated, env.socket, got.1, vs);
    } else {
      assert NetSteps[..6] == NetSteps;
    }
  }

  lemma DeliveredOrder(outFile: string, env: NetEnv, vs: seq<seq<Float64>>, p: Peer)
    ensures var r := Delivered(outFile, env, vs, p);
      Ordered(r) && 4 <= |r.trace| && r.sock == env.socket
  {
    var sent := NetSendVectors(p, vs);
    if sent.0.Some? {
      ThrewOrdered(4, sent.0.value, env.socket, sent.1, vs);
    } else {
      CollectedOrder(outFile, env, vs, sent.1);
    }
  }

  lemma ExchangedOrder(inFile: string, outFile: string, env: NetEnv, p: Peer)
    ensures var r := Exchanged(inFile, outFile, env, p);
      Ordered(r) && 3 <= |r.trace| && r.sock == env.socket
  {
    var input := ParseInput(env.files(inFile), env.u32, env.value);
    if input.Err? {
      ThrewOrdered(3, input.error, env.socket, p, []);
    } else {
      DeliveredOrder(outFile, env, input.value, p);
    }
  }

  /** The steps of `run` come in the fixed order and the exception that ends
      a run is thrown by the last step it started: the trace is a prefix of
      the full order, the run returns true exactly when every step ran and
      nothing was thrown, only such a run writes the output file, and the
      object keeps whatever `socket` returned. */
  lemma RunOrder(ip: string, port: int, inFile: string, outFile: string, authFile: string,
                 env: NetEnv, peer0: Peer)
    ensures var r := RunSpec(ip, port, inFile, outFile, authFile, env, peer0);
      Ordered(r) && r.sock == env.socket
  {
    var conn := ConnectOutcome(env.socket, env.addressParses(ip), env.connects(ip, port));
    if conn.Some? {
      ThrewOrdered(1, conn.value, env.socket, peer0, []);
    } else {
      var auth := NetAuthenticate(env.server, authFile, env.home, env.files, env.sha1);
      if auth.0.Some? {
        ThrewOrdered(2, auth.0.value, env.socket, auth.1, []);
      } else {
        ExchangedOrder(inFile, outFile, env, auth.1);
      }
    }
  }

  /** From step 5 on: a run returning true received one result per vector
      and saved the count followed by the results. */
  lemma CollectedCompleted(outFile: string, env: NetEnv, vs: seq<seq<Float64>>, p: Peer)
    requires |vs| < TWO32
    ensures var r := Collected(outFile, env, vs, p);
      r.ok ==>
        && r.vectors == vs && p.wire <= r.peer.wire
        && |r.results| == |vs|
        && r.saved == Some(SavedText(r.results, env.fmt))
  {
    ReceiveFromCount(p, ToU32(|vs|), env.stale, []);
  }

  /** From step 4 on: a run returning true sent no empty vector. */
  lemma DeliveredCompleted(outFile: string, env: NetEnv, vs: seq<seq<Float64>>, p: Peer)
    requires |vs| < TWO32
    ensures var r := Delivered(outFile, env, vs, p);
      r.ok ==>
        && r.vectors == vs && p.wire <= r.peer.wire
        && (forall i :: 0 <= i < |vs| ==> vs[i] != [])
        && |r.results| == |vs|
        && r.saved == Some(SavedText(r.results, env.fmt))
  {
    var sent := NetSendVectors(p, vs);
    if sent.0.None? {
      CollectedCompleted(outFile, env, vs, sent.1);
      forall i | 0 <= i < |vs|
        ensures vs[i] != []
      {
        if vs[i] == [] {
          SendVectorsEmptyThrows(p, vs, i);
        }
      }
    }
  }

  /** From step 3 on: a run returning true read its vectors from the input
      file. */
  lemma ExchangedCompleted(inFile: string, outFile: string, env: NetEnv, p: Peer)
    ensures var r := Exchanged(inFile, outFile, env, p);
      r.ok ==>
        && ParseInput(env.files(inFile), env.u32, env.value) == Ok(r.vectors)
        && |r.vectors| < TWO32 && p.wire <= r.peer.wire
        && (forall i :: 0 <= i < |r.vectors| ==> r.vectors[i] != [])
        && |r.results| == |r.vectors|
        && r.saved == Some(SavedText(r.results, env.fmt))
  {
    var input := ParseInput(env.files(inFile), env.u32, env.value);
    if input.Ok? {
      ParseInputCount(env.files(inFile), env.u32, env.value);
      DeliveredCompleted(outFile, env, input.value, p);
    }
  }

  /** A run that returns true authenticated before anything else was sent,
      read exactly the vectors of the input file (fewer than 2^32, none
      empty), received one result per vector and wrote the count followed by
      the results. */
  lemma RunCompleted(ip: string, port: int, inFile: string, outFile: string, authFile: string,
                     env: NetEnv, peer0: Peer)
    ensures var r := RunSpec(ip, port, inFile, outFile, authFile, env, peer0);
      var auth := NetAuthenticate(env.server, authFile, env.home, env.files, env.sha1);
      r.ok ==>
        && auth.0.None? && auth.1.wire <= r.peer.wire
        && ParseInput(env.files(inFile), env.u32, env.value) == Ok(r.vectors)
        && |r.vectors| < TWO32
        && (forall i :: 0 <= i < |r.vectors| ==> r.vectors[i] != [])
        && |r.results| == |r.vectors|
        && r.saved == Some(SavedText(r.results, env.fmt))
  {
    var auth := NetAuthenticate(env.server, authFile, env.home, env.files, env.sha1);
    if auth.0.None? {
      ExchangedCompleted(inFile, outFile, env, auth.1);
    }
  }

  /** A successful read holds the number of vectors the count line declares,
      which as a `uint32_t` is below 2^32. */
  lemma ParseInputCount(content: Option<string>, u32: Parser<U32>, value: Parser<Float64>)
    ensures var r := ParseInput(content, u32, value);
      r.Ok? ==> |r.value| < TWO32 && ToU32(|r.value|) == |r.value|
  {
    var r := ParseInput(content, u32, value);
    if r.Ok? {
      var lines := Lines(content.value);
      var count := ReadNumber(lines[0], u32).value;
      VectorsFromShape(lines, 1, count, u32, value, []);
    }
  }

  /** A run whose connection fails throws before the server is reached. */
  lemma RunUnconnected(ip: string, port: int, inFile: string, outFile: string, authFile: string,
                       env: NetEnv, peer0: Peer)
    requires !(env.socket >= 0 && env.addressParses(ip) && env.connects(ip, port))
    ensures var r := RunSpec(ip, port, inFile, outFile, authFile, env, peer0);
      && r.trace == [ConnectStep] && r.peer == Unplugged(peer0.wire)
      && (env.socket < 0 ==> r.failure == Some(SocketFailed))
  {
    assert NetSteps[..1] == [ConnectStep];
  }

  class NetworkClient {
    var sock: int
    const serverIp: string
    const serverPort: int
    const inputFile: string
    const outputFile: string
    const authFile: string
    /** The connected socket as seen through `send` and `recv`. */
    var peer: Peer
    /** Every descriptor this object passed to `close`, in order. */
    var closed: seq<int>

    /** A client without a socket; `auth` is `DefaultAuthFile` when the
        caller gives none. */
    constructor (ip: string, port: int, inFile: string, outFile: string, auth: string)
      ensures sock == -1 && peer == Unplugged([]) && closed == []
      ensures serverIp == ip && serverPort == port && inputFile == inFile
      ensures outputFile == outFile && authFile == auth
    {
      sock := -1;
      serverIp := ip;
      serverPort := port;
      inputFile := inFile;
      outputFile := outFile;
      authFile := auth;
      peer := Unplugged([]);
      closed := [];
    }

    /** The destructor: closes the socket unless it is still -1. */
    method Destroy()
      modifies this`closed
      ensures closed == if old(sock) != -1 then old(closed) + [old(sock)] else old(closed)
    {
      if sock != -1 {
        closed := closed + [sock];
      }
    }

    /** `send_data`: one `send` on the socket. */
    method SendData(data: seq<char>) returns (n: int)
      modifies this`peer
      ensures (n, peer) == Send(old(peer), data)
    {
      var sent := Send(peer, data);
      n := sent.0;
      peer := sent.1;
    }

    /** `receive_data`: one `recv` of at most `length` octets. */
    method ReceiveData(length: nat) returns (got: Received)
      requires length > 0
      modifies this`peer
      ensures (got, peer) == Recv(old(peer), length, Blocking)
    {
      var r := Recv(peer, length, Blocking);
      got := r.0;
      peer := r.1;
    }

    /** `connect_to_server` given what `socket` returned, whether `inet_pton`
        accepted the address, whether `connect` succeeded and the server it
        reached. The descriptor is kept whatever happens next; a socket
        that did not connect takes no data. */
    method ConnectToServer(fd: int, addressParses: bool, connects: bool, server: Peer)
      returns (failure: Option<Thrown>)
      modifies this`sock, this`peer
      ensures sock == fd
      ensures failure == ConnectOutcome(fd, addressParses, connects)
      ensures peer == if failure.None? then server else Unplugged(old(peer).wire)
    {
      sock := fd;
      if sock < 0 {
        peer := Unplugged(peer.wire);
        return Some(SocketFailed);
      }
      if !addressParses {
        peer := Unplugged(peer.wire);
        return Some(BadAddress);
      }
      if !connects {
        peer := Unplugged(peer.wire);
        return Some(ConnectFailed);
      }
      peer := server;
      return None;
    }

    /** `authenticate`: the credentials, then the handshake on the object's
        socket. */
    method Authenticate(home: Option<string>, files: string -> Option<string>, sha1: string -> Digest)
      returns (failure: Option<Thrown>)
      modifies this`peer
      ensures (failure, peer) == NetAuthenticate(old(peer), authFile, home, files, sha1)
    {
      var credentials := ReadCredentials(files(AuthPath(authFile, home)));
      if credentials.Err? {
        return Some(credentials.error);
      }
      failure := Handshake(credentials.value, sha1);
    }

    /** The body of `authenticate` after the credentials: the split, the
        login, the salt, then the hash and the status. */
    method Handshake(credentials: string, sha1: string -> Digest) returns (failure: Option<Thrown>)
      modifies this`peer
      ensures (failure, peer) == NetHandshake(old(peer), credentials, sha1)
    {
      var split := SplitAtColon(credentials);
      if split.None? {
        return Some(BadCredentials);
      }
      var login := split.value.0;
      var password := split.value.1;
      var n := SendData(login);
      if n <= 0 {
        return Some(LoginNotSent);
      }
      ghost var afterLogin := peer;
      var got := ReceiveData(255);
      if got.Count() <= 0 {
        assert RawReply(afterLogin) == (None, peer);
        return Some(NoSalt);
      }
      var salt := CutAt(got.bytes, '\0');
      assert RawReply(afterLogin) == (Some(salt), peer);
      if salt == "ERR" {
        return Some(LoginRejected);
      }
      if |salt| != 16 {
        return Some(BadSalt);
      }
      failure := SendHash(ToUpper(Sha1Hash(salt + password, sha1)));
    }

    /** Sending the hash and reading the status. */
    method SendHash(hash: string) returns (failure: Option<Thrown>)
      modifies this`peer
      ensures (failure, peer) == HashExchange(old(peer), hash)
    {
      var n := SendData(hash);
      if n <= 0 {
        return Some(HashNotSent);
      }
      ghost var afterHash := peer;
      var got := ReceiveData(255);
      if got.Count() <= 0 {
        assert RawReply(afterHash) == (None, peer);
        return Some(NoStatus);
      }
      var status := CutAt(got.bytes, '\0');
      assert RawReply(afterHash) == (Some(status), peer);
      if status == "OK" {
        return None;
      }
      return Some(AuthFailed);
    }

    /** `read_input_file` on what `files` opens the input file to. */
    method ReadInputFile(files: string -> Option<string>, u32: Parser<U32>, value: Parser<Float64>)
      returns (r: Result<seq<seq<Float64>>, Thrown>)
      ensures r == ParseInput(files(inputFile), u32, value)
    {
      var content := files(inputFile);
      if content.None? {
        return Err(InputMissing);
      }
      var lines := Lines(content.value);
      if |lines| == 0 {
        return Err(NoCountLine);
      }
      var count := ReadNumber(lines[0], u32);
      if count.None? {
        return Err(BadCount);
      }
      r := ReadInputVectors(lines, count.value, u32, value);
    }

    /** `send_vectors`: the u32 count, then per vector its u32 size and its
        value images, each in one `send`. */
    method SendVectors(vs: seq<seq<Float64>>) returns (failure: Option<Thrown>)
      modifies this`peer
      ensures (failure, peer) == NetSendVectors(old(peer), vs)
    {
      var n := SendData(EncodeU32(ToU32(|vs|)));
      if n <= 0 {
        return Some(CountNotSent);
      }
      ghost var start := peer;
      assert vs[0..] == vs;
      var i: nat := 0;
      while i < |vs|
        invariant 0 <= i <= |vs|
        invariant SendVectorsFrom(peer, vs[i..], i) == SendVectorsFrom(start, vs, 0)
        decreases |vs| - i
      {
        assert vs[i..][0] == vs[i] && vs[i..][1..] == vs[i + 1..];
        n := SendData(EncodeU32(ToU32(|vs[i]|)));
        if n <= 0 {
          return Some(SizeNotSent(i + 1));
        }
        n := SendData(Images(vs[i]));
        if n <= 0 {
          return Some(ValuesNotSent(i + 1));
        }
        i := i + 1;
      }
      return None;
    }

    /** `receive_results(expected)`: one `recv` of at most 8 octets per
        result, over what `stale(i)` says the variable held. */
    method ReceiveResults(expected: U32, stale: nat -> Float64) returns (r: Result<seq<Float64>, Thrown>)
      modifies this`peer
      ensures (r, peer) == NetReceiveResults(old(peer), expected, stale)
    {
      ghost var start := peer;
      var results: seq<Float64> := [];
      var i: nat := 0;
      while i < expected
        invariant 0 <= i <= expected && |results| == i
        invariant ReceiveFrom(peer, expected - i, stale, results) == ReceiveFrom(start, expected, stale, [])
        decreases expected - i
      {
        var got := ReceiveData(8);
        if got.Count() <= 0 {
          return Err(NoResult(i + 1));
        }
        results := results + [Fill(got.bytes, stale(i))];
        i := i + 1;
      }
      return Ok(results);
    }

    /** `save_results`: `text` is what the output file receives. */
    method SaveResults(results: seq<Float64>, creates: string -> bool, fmt: Float64 -> string)
      returns (failure: Option<Thrown>, text: Option<string>)
      ensures failure.None? <==> creates(outputFile)
      ensures failure.Some? ==> failure == Some(OutputNotCreated) && text.None?
      ensures failure.None? ==> text == Some(SavedText(results, fmt))
    {
      if !creates(outputFile) {
        return Some(OutputNotCreated), None;
      }
      var out := Decimal(|results|);
      var i: nat := 0;
      while i < |results|
        invariant 0 <= i <= |results|
        invariant out == Decimal(|results|) + SavedTail(results[..i], fmt)
        decreases |results| - i
      {
        SavedTailSnoc(results[..i], results[i], fmt);
        assert results[..i + 1] == results[..i] + [results[i]];
        out := out + " " + fmt(results[i]);
        i := i + 1;
      }
      assert results[..i] == results;
      return None, Some(out);
    }

    /** `run`: every step in order; the first exception ends the run with
        `false`. The vectors, results and saved text are reported beside the
        returned flag. */
    method Run(env: NetEnv) returns (report: NetReport)
      modifies this`sock, this`peer
      ensures report == RunSpec(serverIp, serverPort, inputFile, outputFile, authFile, env, old(peer))
      ensures sock == report.sock && peer == report.peer
    {
      var failure := ConnectToServer(env.socket, env.addressParses(serverIp),
                                     env.connects(serverIp, serverPort), env.server);
      if failure.Some? {
        return Threw(1, failure.value, sock, peer, []);
      }
      failure := Authenticate(env.home, env.files, env.sha1);
      if failure.Some? {
        return Threw(2, failure.value, sock, peer, []);
      }
      ghost var authenticated := peer;
      assert RunSpec(serverIp, serverPort, inputFile, outputFile, authFile, env, old(peer))
          == Exchanged(inputFile, outputFile, env, authenticated);
      var input := ReadInputFile(env.files, env.u32, env.value);
      if input.Err? {
        return Threw(3, input.error, sock, peer, []);
      }
      var vectors := input.value;
      failure := SendVectors(vectors);
      if failure.Some? {
        return Threw(4, failure.value, sock, peer, vectors);
      }
      var received := ReceiveResults(ToU32(|vectors|), env.stale);
      if received.Err? {
        return Threw(5, received.error, sock, peer, vectors);
      }
      var results := received.value;
      var text;
      failure, text := SaveResults(results, env.creates, env.fmt);
      if failure.Some? {
        return Threw(6, failure.value, sock, peer, vectors);
      }
      return NetReport(true, NetSteps, None, vectors, results, text, sock, peer);
    }
  }

  /** The outer loop of `read_input_file`: `count` vectors, the size line of
      vector `i` at line `1 + 2i`. */
  method ReadInputVectors(lines: seq<string>, count: nat, u32: Parser<U32>, value: Parser<Float64>)
    returns (r: Result<seq<seq<Float64>>, Thrown>)
    ensures r == VectorsFrom(lines, 1, count, u32, value, [])
  {
    var vectors: seq<seq<Float64>> := [];
    var at: nat := 1;
    var n: nat := count;
    while n > 0
      invariant VectorsFrom(lines, at, n, u32, value, vectors) == VectorsFrom(lines, 1, count, u32, value, [])
    {
      var v := ReadVectorAt(lines, at, |vectors| + 1, u32, value);
      if v.Err? {
        VectorsFromFails(lines, at, n, u32, value, vectors, v.error);
        return Err(v.error);
      }
      VectorsFromStep(lines, at, n, u32, value, vectors, v.value);
      vectors := vectors + [v.value];
      at := at + 2;
      n := n - 1;
    }
    return Ok(vectors);
  }

  /** One pass of the outer loop of `read_input_file`: the size line at
      `at`, the values line after it, and the inner loop over its words. */
  method ReadVectorAt(lines: seq<string>, at: nat, number: nat, u32: Parser<U32>, value: Parser<Float64>)
    returns (r: Result<seq<Float64>, Thrown>)
    ensures r == ReadVector(lines, at, number, u32, value)
  {
    if at >= |lines| {
      return Err(NoSizeLine(number));
    }
    var size := ReadNumber(lines[at], u32);
    if size.None? {
      return Err(BadSize(number));
    }
    if at + 1 >= |lines| {
      return Err(NoValuesLine(number));
    }
    var words := Words(lines[at + 1]);
    var values: seq<Float64> := [];
    var j: nat := 0;
    while j < size.value
      invariant 0 <= j <= size.value && |values| == j
      invariant ValuesFrom(words, j, size.value - j, value, values) == ValuesFrom(words, 0, size.value, value, [])
      decreases size.value - j
    {
      if j >= |words| || value(words[j]).None? {
        return Err(BadValue(j + 1, number));
      }
      values := values + [value(words[j]).value];
      j := j + 1;
    }
    return Ok(values);
  }
}
