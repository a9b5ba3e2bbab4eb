/** The pure helpers of `NetworkClient` (the second client variant) and the
    exceptions its steps throw: the runtime byte-order probe behind
    `htonll`/`ntohll` and the lower-case SHA-1 hex digest. */
module NetCommon {
  import opened Wire
  import opened Strings
  import Connection

  /** Every `std::runtime_error` a `NetworkClient` step throws, by throw site.
      Vector, value and result numbers are 1-based, as in the messages. */
  datatype Thrown =
    // connect_to_server
    | SocketFailed | BadAddress | ConnectFailed
    // read_auth_credentials
    | AuthFileMissing | BadAuthFormat
    // authenticate
    | BadCredentials | LoginNotSent | NoSalt | LoginRejected | BadSalt
    | HashNotSent | NoStatus | AuthFailed
    // read_input_file
    | InputMissing | NoCountLine | BadCount
    | NoSizeLine(vector: nat) | BadSize(vector: nat) | NoValuesLine(vector: nat)
    | BadValue(value: nat, vector: nat)
    // send_vectors
    | CountNotSent | SizeNotSent(vector: nat) | ValuesNotSent(vector: nat)
    // receive_results
    | NoResult(result: nat)
    // save_results
    | OutputNotCreated

  /** The steps of `run`, in the order it takes them. */
  datatype NetStep = ConnectStep | AuthenticateStep | ReadInputStep | SendStep | ReceiveStep | SaveStep

  /** The step whose member throws `t`. */
  function StepOf(t: Thrown): NetStep
  {
    match t
    case SocketFailed | BadAddress | ConnectFailed => ConnectStep
    case AuthFileMissing | BadAuthFormat | BadCredentials | LoginNotSent | NoSalt | LoginRejected
       | BadSalt | HashNotSent | NoStatus | AuthFailed => AuthenticateStep
    case InputMissing | NoCountLine | BadCount | NoSizeLine(_) | BadSize(_) | NoValuesLine(_)
       | BadValue(_, _) => ReadInputStep
    case CountNotSent | SizeNotSent(_) | ValuesNotSent(_) => SendStep
    case NoResult(_) => ReceiveStep
    case OutputNotCreated => SaveStep
  }

  // ---------------------------------------------------------------------
  // 64-bit byte order with a runtime probe

  /** The byte order of the host the client runs on. */
  datatype Endianness = LittleEndian | BigEndian

  /** `c[0]` of the union holding `0x01020304`: the octet stored first. */
  function ProbeByte(e: Endianness): (b: int)
    ensures b == 1 <==> e == BigEndian
  {
    match e
    case LittleEndian => 4
    case BigEndian => 1
  }

  /** `NetworkClient::htonll`: the value unchanged when the probe octet is 1;
      otherwise `htonl` of the low half shifted up, or-ed with `htonl` of the
      high half, which on a host that is not big-endian is the expression of
      the class-based client's `htonll`. */
  function HostHtonll(e: Endianness, x: bv64): bv64
  {
    if ProbeByte(e) == 1 then x else Connection.Htonll(x)
  }

  /** `NetworkClient::ntohll` calls `htonll`. */
  function HostNtohll(e: Endianness, x: bv64): bv64
  {
    HostHtonll(e, x)
  }

  /** On a big-endian host `htonll` leaves the value alone; on a little-endian
      host it reverses all eight octets. */
  lemma HostHtonllCases(e: Endianness, x: bv64)
    ensures e == BigEndian ==> HostHtonll(e, x) == x
    ensures e == LittleEndian ==> HostHtonll(e, x) == Connection.Reverse64(x)
  {
    if e == LittleEndian {
      Connection.HtonllReverses(x);
    }
  }

  /** `ntohll` undoes `htonll` on either kind of host. */
  lemma HostNtohllHtonll(e: Endianness, x: bv64)
    ensures HostNtohll(e, HostHtonll(e, x)) == x
  {
    HostHtonllCases(e, x);
    HostHtonllCases(e, HostHtonll(e, x));
    if e == LittleEndian {
      Connection.Reverse64Involution(x);
    }
  }

  // ---------------------------------------------------------------------
  // SHA-1 hex digest

  /** `sha1_hash`: the 20 digest octets of `input`, each as two zero-padded
      lower-case hex digits. */
  function Sha1Hash(input: string, sha1: string -> Digest): (h: string)
    ensures |h| == 40
  {
    RenderHex(sha1(input))
  }

  /** Every character of the digest text is a hex digit and none is a capital
      letter; digit pair `k` spells digest octet `k`. */
  lemma Sha1HashDigits(input: string, sha1: string -> Digest)
    ensures var h := Sha1Hash(input, sha1);
      forall k :: 0 <= k < 40 ==> IsHexDigit(h[k]) && !('A' <= h[k] <= 'Z')
    ensures var h := Sha1Hash(input, sha1);
      forall k :: 0 <= k < 20 ==> 16 * HexDigitValue(h[2 * k]) + HexDigitValue(h[2 * k + 1]) == sha1(input)[k]
  {
    var d := sha1(input);
    var h := Sha1Hash(input, sha1);
    forall k | 0 <= k < 40
      ensures IsHexDigit(h[k]) && !('A' <= h[k] <= 'Z')
    {
      RenderHexAt(d, k / 2);
    }
    forall k | 0 <= k < 20
      ensures 16 * HexDigitValue(h[2 * k]) + HexDigitValue(h[2 * k + 1]) == d[k]
    {
      RenderHexAt(d, k);
    }
  }
}
