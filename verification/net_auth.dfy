/** The credential file and the login handshake of `NetworkClient`. The file
    holds the login on its first line and the password on its second; they
    travel inside the client as one `login:password` string that the
    handshake splits again. The handshake sends bare strings with one `send`
    each and reads raw replies of at most 255 octets with one `recv` each. */
module NetAuth {
  import opened Outcomes
  import opened Wire
  import opened Strings
  import opened Transport
  import opened NetCommon
  import Authenticator
  import Connection

  // ---------------------------------------------------------------------
  // read_auth_credentials

  /** A name starting with "~/" has the "~" replaced by `$HOME` when that is
      set; otherwise the name is used as it is. */
  function AuthPath(name: string, home: Option<string>): (path: string)
    ensures !("~/" <= name) || home.None? ==> path == name
    ensures "~/" <= name && home.Some? ==> path == home.value + name[1..]
  {
    if "~/" <= name && home.Some? then home.value + name[1..] else name
  }

  /** Line `i` as `std::getline` leaves it: empty once the file has no such
      line. */
  function LineOrEmpty(lines: seq<string>, i: nat): string
  {
    if i < |lines| then lines[i] else ""
  }

  /** The login and the password a file holds: its first and its second
      line, trimmed of space, tab, LF and CR at both ends. */
  function StoredLogin(content: string): string
  {
    Trim(LineOrEmpty(Lines(content), 0), Blank)
  }

  function StoredPassword(content: string): string
  {
    Trim(LineOrEmpty(Lines(content), 1), Blank)
  }

  /** `read_auth_credentials` on the contents of the file (`None`: it did not
      open): the trimmed login and password must both be non-empty; they are
      joined with ':'. */
  function ReadCredentials(content: Option<string>): (r: Result<string, Thrown>)
    ensures r.Err? ==> r.error == AuthFileMissing || r.error == BadAuthFormat
  {
    if content.None? then Err(AuthFileMissing)
    else
      var login := StoredLogin(content.value);
      var password := StoredPassword(content.value);
      if login == [] || password == [] then Err(BadAuthFormat)
      else Ok(login + ":" + password)
  }

  /** Nothing but blanks (or nothing at all). */
  predicate AllBlank(s: string)
  {
    forall k :: 0 <= k < |s| ==> s[k] in Blank
  }

  /** The credentials are rejected as malformed exactly when one of the first
      two lines is missing or consists of blanks only; otherwise they are the
      two non-blank lines without their surrounding blanks, joined with ':'. */
  lemma ReadCredentialsMeaning(content: string)
    ensures var lines := Lines(content);
      ReadCredentials(Some(content)) == Err(BadAuthFormat) <==>
        AllBlank(LineOrEmpty(lines, 0)) || AllBlank(LineOrEmpty(lines, 1))
    ensures var r := ReadCredentials(Some(content));
      r.Ok? ==>
        var login, password := StoredLogin(content), StoredPassword(content);
        && r.value == login + ":" + password
        && login != [] && login[0] !in Blank && login[|login| - 1] !in Blank
        && password != [] && password[0] !in Blank && password[|password| - 1] !in Blank
  {
    var lines := Lines(content);
    var first, second := LineOrEmpty(lines, 0), LineOrEmpty(lines, 1);
    TrimBlank(first);
    TrimBlank(second);
    assert StoredLogin(content) == Trim(first, Blank);
    assert StoredPassword(content) == Trim(second, Blank);
  }

  /** A line trims to nothing exactly when it is all blanks. */
  lemma TrimBlank(s: string)
    ensures Trim(s, Blank) == [] <==> AllBlank(s)
  {
    TrimEmpty(s, Blank);
  }

  /** A line closed by a newline comes first, then the lines after it. */
  lemma LinesCons(x: string, rest: string)
    requires '\n' !in x
    ensures Lines(x + "\n" + rest) == [x] + Lines(rest)
  {
    var s := x + "\n" + rest;
    CutAtPrefix(x, "\n" + rest, '\n');
    assert s == x + ("\n" + rest);
    assert CutAt(s, '\n') == x;
    assert s[|x| + 1..] == rest;
  }

  /** Two lines, each closed by a newline. */
  lemma LinesOfTwo(a: string, b: string)
    requires '\n' !in a && '\n' !in b
    ensures Lines(a + "\n" + b + "\n") == [a, b]
  {
    LinesCons(b, "");
    assert b + "\n" + "" == b + "\n";
    LinesCons(a, b + "\n");
    assert a + "\n" + (b + "\n") == a + "\n" + b + "\n";
  }

  /** Two spaces on either side of a word are trimmed away. */
  lemma TrimPadded(w: string)
    requires w != [] && w[0] !in Blank && w[|w| - 1] !in Blank
    ensures Trim("  " + w + "  ", Blank) == w
  {
    var v := w + "  ";
    assert "  " + w + "  " == "  " + v;
    TrimLeftSpaces(v);
    TrimRightSpaces(w);
  }

  lemma TrimLeftSpaces(w: string)
    requires w != [] && w[0] !in Blank
    ensures TrimLeft("  " + w, Blank) == w
  {
    assert ("  " + w)[1..] == " " + w;
    assert (" " + w)[1..] == w;
  }

  lemma TrimRightSpaces(w: string)
    requires w != [] && w[|w| - 1] !in Blank
    ensures TrimRight(w + "  ", Blank) == w
  {
    assert (w + "  ")[..|w| + 1] == w + " ";
    assert (w + " ")[..|w|] == w;
  }

  /** A file of two newline-closed lines holds the trimmed pair. */
  lemma ReadTwoLines(a: string, b: string)
    requires '\n' !in a && '\n' !in b
    ensures ReadCredentials(Some(a + "\n" + b + "\n")) ==
      if Trim(a, Blank) == [] || Trim(b, Blank) == [] then Err(BadAuthFormat)
      else Ok(Trim(a, Blank) + ":" + Trim(b, Blank))
  {
    LinesOfTwo(a, b);
  }

  /** The file of the tests, with blanks around both words. */
  lemma ReadCredentialsSpaced()
    ensures ReadCredentials(Some("  testuser  \n  testpass  \n")) == Ok("testuser:testpass")
  {
    ReadPadded("testuser", "testpass");
    SpacedText();
  }

  /** Two words, each with two blanks on either side, on lines of their own. */
  lemma ReadPadded(user: string, pass: string)
    requires user != [] && user[0] !in Blank && user[|user| - 1] !in Blank
    requires pass != [] && pass[0] !in Blank && pass[|pass| - 1] !in Blank
    requires '\n' !in "  " + user + "  " && '\n' !in "  " + pass + "  "
    ensures ReadCredentials(Some("  " + user + "  " + "\n" + ("  " + pass + "  ") + "\n")) == Ok(user + ":" + pass)
  {
    TrimPadded(user);
    TrimPadded(pass);
    ReadTwoLines("  " + user + "  ", "  " + pass + "  ");
  }

  lemma SpacedText()
    ensures "  " + "testuser" + "  " + "\n" + ("  " + "testpass" + "  ") + "\n" == "  testuser  \n  testpass  \n"
    ensures "testuser" + ":" + "testpass" == "testuser:testpass"
  {
  }

  /** A file of two empty lines is malformed; a missing file is reported as
      such. */
  lemma ReadCredentialsRejects()
    ensures ReadCredentials(Some("\n\n")) == Err(BadAuthFormat)
    ensures ReadCredentials(None) == Err(AuthFileMissing)
  {
    LinesOfTwo("", "");
    assert "" + "\n" + "" + "\n" == "\n\n";
  }

  // ---------------------------------------------------------------------
  // authenticate

  /** `find(':')` and the two `substr` calls: the text before the first ':'
      and the text after it; `None` when there is no ':'. */
  function SplitAtColon(s: string): (r: Option<(string, string)>)
    ensures r.None? <==> ':' !in s
    ensures r.Some? ==> s == r.value.0 + ":" + r.value.1 && ':' !in r.value.0
  {
    var login := CutAt(s, ':');
    if |login| == |s| then None
    else
      assert s == login + ":" + s[|login| + 1..] by {
        assert s == s[..|login|] + [s[|login|]] + s[|login| + 1..];
      }
      Some((login, s[|login| + 1..]))
  }

  /** Joining with ':' and splitting at the first ':' gives the pair back when
      the login has no ':' (the password may hold any number of them); a
      login with a ':' comes back cut at it. */
  lemma SplitJoin(login: string, password: string)
    ensures ':' !in login ==> SplitAtColon(login + ":" + password) == Some((login, password))
    ensures ':' in login ==> SplitAtColon(login + ":" + password).value.0 != login
  {
    var s := login + ":" + password;
    assert ':' in s by { assert s[|login|] == ':'; }
    var r := SplitAtColon(s);
    if ':' !in login {
      CutAtPrefix(login, ":" + password, ':');
      assert s == login + (":" + password);
      assert r.value.0 == login;
      assert s[|login| + 1..] == password;
    }
  }

  lemma {:induction false} CutAtPrefix(a: string, b: string, c: char)
    requires c !in a && b != [] && b[0] == c
    ensures CutAt(a + b, c) == a
  {
    if a != [] {
      assert (a + b)[1..] == a[1..] + b;
      CutAtPrefix(a[1..], b, c);
    } else {
      assert a + b == b;
    }
  }

  /** One `recv` of at most 255 octets read as a C string: the octets up to
      the first NUL. `None` when `recv` returned 0 or -1. */
  function RawReply(p: Peer): (r: (Option<string>, Peer))
    ensures r.1.wire == p.wire && r.1.quota == p.quota
    ensures r.1 == Recv(p, 255, Blocking).1
    ensures r.0.Some? <==> Recv(p, 255, Blocking).0.Got?
    ensures r.0.Some? ==>
      var bytes := Recv(p, 255, Blocking).0.bytes;
      && r.0.value <= bytes && '\0' !in r.0.value
      && (|r.0.value| == |bytes| || bytes[|r.0.value|] == '\0')
      && |r.0.value| <= 255
  {
    var got := Recv(p, 255, Blocking);
    if got.0.Got? then (Some(CutAt(got.0.bytes, '\0')), got.1) else (None, got.1)
  }

  /** `authenticate` after the credentials were read: split them, send the
      login, read the salt, send the upper-cased SHA-1 hex of salt + password,
      read the status. `None` means it returned true; the only way not to
      throw. */
  function NetHandshake(p: Peer, credentials: string, sha1: string -> Digest): (r: (Option<Thrown>, Peer))
    ensures p.wire <= r.1.wire
    ensures r.0.Some? ==> StepOf(r.0.value) == AuthenticateStep
  {
    var split := SplitAtColon(credentials);
    if split.None? then (Some(BadCredentials), p)
    else
      var login := split.value.0;
      var password := split.value.1;
      var s1 := Send(p, login);
      if s1.0 <= 0 then (Some(LoginNotSent), s1.1)
      else
        var salt := RawReply(s1.1);
        if salt.0.None? then (Some(NoSalt), salt.1)
        else if salt.0.value == "ERR" then (Some(LoginRejected), salt.1)
        else if |salt.0.value| != 16 then (Some(BadSalt), salt.1)
        else
          HashExchange(salt.1, ToUpper(Sha1Hash(salt.0.value + password, sha1)))
  }

  /** The second half of `authenticate`: send the hash, read the status. */
  function HashExchange(p: Peer, hash: string): (r: (Option<Thrown>, Peer))
    ensures p.wire <= r.1.wire
    ensures r.0.Some? ==> StepOf(r.0.value) == AuthenticateStep
  {
    var s2 := Send(p, hash);
    if s2.0 <= 0 then (Some(HashNotSent), s2.1)
    else
      var status := RawReply(s2.1);
      if status.0.None? then (Some(NoStatus), status.1)
      else if status.0.value == "OK" then (None, status.1)
      else (Some(AuthFailed), status.1)
  }

  /** `authenticate` as a whole: read the credential file, then the handshake. */
  function NetAuthenticate(p: Peer, authFile: string, home: Option<string>,
                           files: string -> Option<string>, sha1: string -> Digest): (r: (Option<Thrown>, Peer))
    ensures p.wire <= r.1.wire
    ensures r.0.Some? ==> StepOf(r.0.value) == AuthenticateStep
  {
    match ReadCredentials(files(AuthPath(authFile, home)))
    case Err(e) => (Some(e), p)
    case Ok(credentials) => NetHandshake(p, credentials, sha1)
  }

  /** The upper-cased lower-case digest is the hash the class-based client
      computes for the same salt and password. */
  lemma UpperSha1IsComputeHash(salt: string, password: string, sha1: string -> Digest)
    ensures ToUpper(Sha1Hash(salt + password, sha1)) == Authenticator.ComputeHash(salt, password, sha1)
    ensures |ToUpper(Sha1Hash(salt + password, sha1))| == 40
  {
  }

  /** What the handshake puts on the wire. After the login went out (possibly
      only in part, which is not detected), a salt reply of "ERR" or of a
      length other than 16 throws with nothing more sent. The handshake
      succeeds only after a 16-character salt other than "ERR", a hash send
      of (part of) `ComputeHash(salt, password)` and a status reply of
      exactly "OK". */
  lemma NetHandshakeSends(p: Peer, login: string, password: string, sha1: string -> Digest)
    requires ':' !in login
    ensures var r := NetHandshake(p, login + ":" + password, sha1);
      var s1 := Send(p, login);
      var salt := RawReply(s1.1);
      && (s1.0 > 0 && salt.0.Some? && (salt.0.value == "ERR" || |salt.0.value| != 16) ==>
            r.0.Some? && r.1.wire == p.wire + login[..s1.0])
      && (r.0.None? ==>
            && s1.0 > 0 && salt.0.Some? && salt.0.value != "ERR" && |salt.0.value| == 16
            && var hash := Authenticator.ComputeHash(salt.0.value, password, sha1);
               var s2 := Send(salt.1, hash);
               && s2.0 > 0
               && r.1.wire == p.wire + login[..s1.0] + hash[..s2.0]
               && RawReply(s2.1).0 == Some("OK"))
  {
    SplitJoin(login, password);
    var s1 := Send(p, login);
    var salt := RawReply(s1.1);
    if s1.0 > 0 && salt.0.Some? && salt.0.value != "ERR" && |salt.0.value| == 16 {
      UpperSha1IsComputeHash(salt.0.value, password, sha1);
    }
  }

  /** Once the login went out, a 16-character salt other than "ERR" came
      back and the hash went out, the handshake succeeds exactly when the
      status reply is "OK"; any other reply throws `AuthFailed`. */
  lemma NetHandshakeStatus(p: Peer, login: string, password: string, sha1: string -> Digest)
    requires ':' !in login
    ensures var r := NetHandshake(p, login + ":" + password, sha1);
      var s1 := Send(p, login);
      var salt := RawReply(s1.1);
      s1.0 > 0 && salt.0.Some? && salt.0.value != "ERR" && |salt.0.value| == 16 ==>
        var s2 := Send(salt.1, Authenticator.ComputeHash(salt.0.value, password, sha1));
        var status := RawReply(s2.1).0;
        s2.0 > 0 ==>
          && (r.0.None? <==> status == Some("OK"))
          && (status.Some? && status.value != "OK" ==> r.0 == Some(AuthFailed))
  {
    SplitJoin(login, password);
    var s1 := Send(p, login);
    var salt := RawReply(s1.1);
    if s1.0 > 0 && salt.0.Some? && salt.0.value != "ERR" && |salt.0.value| == 16 {
      UpperSha1IsComputeHash(salt.0.value, password, sha1);
    }
  }

  /** A server that replies with a 16-character salt and then a status, on a
      socket that takes both client strings whole: the client sends exactly
      the login and then the hash, with no newline, and succeeds exactly when
      the status is "OK"; any other status throws. */
  lemma NetHandshakeWithServer(login: string, password: string, sha1: string -> Digest,
                               salt: string, status: string, wire: seq<char>)
    requires login != [] && ':' !in login
    requires |salt| == 16 && '\0' !in salt && salt != "ERR"
    requires 1 <= |status| <= 255 && '\0' !in status
    ensures var p := Peer([Chunk(salt), Chunk(status)], [|login|, 40], wire);
      var r := NetHandshake(p, login + ":" + password, sha1);
      && (r.0.None? <==> status == "OK")
      && (r.0.Some? ==> r.0.value == AuthFailed)
      && r.1.wire == wire + login + Authenticator.ComputeHash(salt, password, sha1)
  {
    var p := Peer([Chunk(salt), Chunk(status)], [|login|, 40], wire);
    SplitJoin(login, password);
    var s1 := Send(p, login);
    assert s1.0 == |login| && s1.1.inbound == p.inbound && s1.1.quota == [40];
    assert login[..|login|] == login;
    var got := Recv(s1.1, 255, Blocking);
    assert got.0 == Got(salt);
    Connection.CutAtAbsent(salt, '\0');
    var r1 := RawReply(s1.1);
    assert r1.0 == Some(salt) && r1.1.inbound == [Chunk(status)];
    var hash := ToUpper(Sha1Hash(salt + password, sha1));
    UpperSha1IsComputeHash(salt, password, sha1);
    var s2 := Send(r1.1, hash);
    assert s2.0 == 40 && hash[..40] == hash;
    Connection.CutAtAbsent(status, '\0');
    var r2 := RawReply(s2.1);
    assert r2.0 == Some(status);
  }
}
