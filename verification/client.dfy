/** `Client`: the driver of the class-based client. It scans the command line,
    reads the login and password from a configuration file, and then runs the
    session with `DataProcessor` and `ServerConnection` step by step.

    The world outside the process is a parameter: `std::stoi`, the home
    directory, the files that open (and what they hold), the socket calls,
    SHA-1 and whether the results file could be written. */
module ClientApp {
  import opened Outcomes
  import opened Wire
  import opened Strings
  import opened Transport
  import opened Vectors
  import opened Connection

  /** `ClientConfig`. */
  datatype ClientConfig = ClientConfig(
    serverAddress: string,
    serverPort: int,
    inputFileName: string,
    outputFileName: string,
    configFileName: string,
    login: string,
    password: string)

  /** The values the `ClientConfig` constructor gives. */
  function DefaultConfig(): ClientConfig
  {
    ClientConfig("", 33333, "", "", "~/.config/velient.conf", "", "")
  }

  // ---------------------------------------------------------------------
  // The command line

  /** How `parseCommandLineArgs` ends: `true`, `false`, or an exception from
      `std::stoi` on the value of a `-p` (a word that is not a number or does
      not fit an `int`); nothing catches it. */
  datatype ArgsVerdict = Accepted | Rejected | BadPort

  /** The option loop from the option `opts[0]` on: `-p N` and `-c F` are
      applied to `cfg` in order; `-h`, any other word, and a `-p` or `-c`
      without a value end it with `false`. */
  function ScanOptions(opts: seq<string>, cfg: ClientConfig, stoi: string -> Option<int>): (ArgsVerdict, ClientConfig)
    decreases |opts|
  {
    if opts == [] then (Accepted, cfg)
    else if opts[0] == "-p" && |opts| > 1 then
      match stoi(opts[1])
      case None => (BadPort, cfg)
      case Some(port) => ScanOptions(opts[2..], cfg.(serverPort := port), stoi)
    else if opts[0] == "-c" && |opts| > 1 then
      ScanOptions(opts[2..], cfg.(configFileName := opts[1]), stoi)
    else (Rejected, cfg)
  }

  /** `parseCommandLineArgs` on `argv` (its length is `argc`). */
  function ParseArgs(argv: seq<string>, cfg: ClientConfig, stoi: string -> Option<int>): (ArgsVerdict, ClientConfig)
  {
    if |argv| < 4 then (Rejected, cfg)
    else ScanOptions(argv[4..], cfg.(serverAddress := argv[1], inputFileName := argv[2], outputFileName := argv[3]), stoi)
  }

  /** Options that the loop accepts: flag and value pairs, every flag `-p` or
      `-c`, and every port a number. */
  predicate WellFormedOptions(opts: seq<string>, stoi: string -> Option<int>)
  {
    |opts| % 2 == 0 && forall k :: 0 <= k < |opts| && k % 2 == 0 ==> FlagAt(opts, k, stoi)
  }

  /** Word `k` is `-c` or a `-p` followed by a number. */
  predicate FlagAt(opts: seq<string>, k: nat, stoi: string -> Option<int>)
    requires k < |opts|
  {
    opts[k] == "-c" || (opts[k] == "-p" && k + 1 < |opts| && stoi(opts[k + 1]).Some?)
  }

  /** The value of the last pair whose flag is `flag`. */
  function LastValue(opts: seq<string>, flag: string): Option<string>
    decreases |opts|
  {
    if |opts| < 2 then None
    else if opts[|opts| - 2] == flag then Some(opts[|opts| - 1])
    else LastValue(opts[..|opts| - 2], flag)
  }

  /** The loop accepts exactly the well-formed options. */
  lemma {:induction false} ScanAccepts(opts: seq<string>, cfg: ClientConfig, stoi: string -> Option<int>)
    ensures ScanOptions(opts, cfg, stoi).0 == Accepted <==> WellFormedOptions(opts, stoi)
    decreases |opts|
  {
    if opts != [] {
      if |opts| > 1 && (opts[0] == "-c" || (opts[0] == "-p" && stoi(opts[1]).Some?)) {
        var cfg' := if opts[0] == "-c" then cfg.(configFileName := opts[1]) else cfg.(serverPort := stoi(opts[1]).value);
        assert ScanOptions(opts, cfg, stoi) == ScanOptions(opts[2..], cfg', stoi);
        ScanAccepts(opts[2..], cfg', stoi);
        assert 0 % 2 == 0 && FlagAt(opts, 0, stoi);
        forall k | 2 <= k < |opts|
          ensures FlagAt(opts, k, stoi) == FlagAt(opts[2..], k - 2, stoi)
        {
          assert opts[k] == opts[2..][k - 2];
          if k + 1 < |opts| {
            assert opts[k + 1] == opts[2..][k - 1];
          }
        }
        if WellFormedOptions(opts[2..], stoi) {
          forall k | 0 <= k < |opts| && k % 2 == 0
            ensures FlagAt(opts, k, stoi)
          {
            if k >= 2 {
              assert (k - 2) % 2 == 0;
            }
          }
        }
        if WellFormedOptions(opts, stoi) {
          forall k | 0 <= k < |opts| - 2 && k % 2 == 0
            ensures FlagAt(opts[2..], k, stoi)
          {
            assert (k + 2) % 2 == 0 && FlagAt(opts, k + 2, stoi);
          }
        }
      } else if |opts| > 1 {
        assert 0 % 2 == 0 && !FlagAt(opts, 0, stoi);
      }
    }
  }

  /** Scanning pairs and then one more pair is scanning that last pair after
      the others. */
  lemma {:induction false} ScanSnoc(opts: seq<string>, flag: string, value: string, cfg: ClientConfig,
                                    stoi: string -> Option<int>)
    requires WellFormedOptions(opts, stoi)
    ensures ScanOptions(opts, cfg, stoi).0 == Accepted
    ensures ScanOptions(opts + [flag, value], cfg, stoi) == ScanOptions([flag, value], ScanOptions(opts, cfg, stoi).1, stoi)
    decreases |opts|
  {
    ScanAccepts(opts, cfg, stoi);
    if opts != [] {
      assert 0 % 2 == 0 && FlagAt(opts, 0, stoi);
      var cfg' := if opts[0] == "-c" then cfg.(configFileName := opts[1]) else cfg.(serverPort := stoi(opts[1]).value);
      var longer := opts + [flag, value];
      assert longer[0] == opts[0] && longer[1] == opts[1];
      assert longer[2..] == opts[2..] + [flag, value];
      assert ScanOptions(opts, cfg, stoi) == ScanOptions(opts[2..], cfg', stoi);
      assert ScanOptions(longer, cfg, stoi) == ScanOptions(longer[2..], cfg', stoi);
      ScanAccepts(opts[2..], cfg', stoi);
      ScanSnoc(opts[2..], flag, value, cfg', stoi);
    } else {
      assert opts + [flag, value] == [flag, value];
    }
  }

  /** Well-formed options set the port to the last `-p` value and the
      configuration file to the last `-c` value, and nothing else; with no
      such option the field keeps its value. */
  lemma {:induction false} ScanSettings(opts: seq<string>, cfg: ClientConfig, stoi: string -> Option<int>)
    requires WellFormedOptions(opts, stoi)
    ensures var r := ScanOptions(opts, cfg, stoi).1;
      && r.(serverPort := cfg.serverPort, configFileName := cfg.configFileName) == cfg
      && (LastValue(opts, "-p").None? ==> r.serverPort == cfg.serverPort)
      && (LastValue(opts, "-p").Some? ==> stoi(LastValue(opts, "-p").value) == Some(r.serverPort))
      && r.configFileName == (if LastValue(opts, "-c").Some? then LastValue(opts, "-c").value else cfg.configFileName)
    decreases |opts|
  {
    if opts != [] {
      var n := |opts|;
      var init, flag, value := opts[..n - 2], opts[n - 2], opts[n - 1];
      assert (n - 2) % 2 == 0 && FlagAt(opts, n - 2, stoi);
      assert opts == init + [flag, value];
      forall k | 0 <= k < |init| && k % 2 == 0
        ensures FlagAt(init, k, stoi)
      {
        assert FlagAt(opts, k, stoi);
        assert k + 1 < |init| by {
          assert |init| % 2 == 0;
        }
        assert init[k] == opts[k] && init[k + 1] == opts[k + 1];
      }
      ScanSettings(init, cfg, stoi);
      ScanSnoc(init, flag, value, cfg, stoi);
      var c := ScanOptions(init, cfg, stoi).1;
      assert [flag, value][2..] == [];
      if flag == "-p" {
        assert ScanOptions([flag, value], c, stoi) == (Accepted, c.(serverPort := stoi(value).value));
        assert LastValue(opts, "-c") == LastValue(init, "-c");
      } else {
        assert ScanOptions([flag, value], c, stoi) == (Accepted, c.(configFileName := value));
        assert LastValue(opts, "-p") == LastValue(init, "-p");
      }
    }
  }

  /** `parseCommandLineArgs` in full: fewer than four words are refused and
      leave the configuration alone; otherwise the first three set the
      address, the input file and the output file, and the call succeeds
      exactly on well-formed options, whose last `-p` and `-c` win. */
  lemma ParseArgsMeaning(argv: seq<string>, cfg: ClientConfig, stoi: string -> Option<int>)
    ensures var r := ParseArgs(argv, cfg, stoi);
      && (|argv| < 4 ==> r == (Rejected, cfg))
      && (|argv| >= 4 ==>
            && r.1.serverAddress == argv[1] && r.1.inputFileName == argv[2] && r.1.outputFileName == argv[3]
            && r.1.login == cfg.login && r.1.password == cfg.password
            && (r.0 == Accepted <==> WellFormedOptions(argv[4..], stoi))
            && (r.0 == Accepted ==>
                  var opts := argv[4..];
                  && (LastValue(opts, "-p").None? ==> r.1.serverPort == cfg.serverPort)
                  && (LastValue(opts, "-p").Some? ==> stoi(LastValue(opts, "-p").value) == Some(r.1.serverPort))
                  && r.1.configFileName == (if LastValue(opts, "-c").Some? then LastValue(opts, "-c").value else cfg.configFileName)))
  {
    if |argv| >= 4 {
      var opts := argv[4..];
      var c := cfg.(serverAddress := argv[1], inputFileName := argv[2], outputFileName := argv[3]);
      ScanAccepts(opts, c, stoi);
      ScanFields(opts, c, stoi);
      if WellFormedOptions(opts, stoi) {
        ScanSettings(opts, c, stoi);
      }
    }
  }

  /** The option loop changes only the port and the configuration file. */
  lemma {:induction false} ScanFields(opts: seq<string>, cfg: ClientConfig, stoi: string -> Option<int>)
    ensures ScanOptions(opts, cfg, stoi).1.(serverPort := cfg.serverPort, configFileName := cfg.configFileName) == cfg
    decreases |opts|
  {
    if opts != [] && |opts| > 1 {
      if opts[0] == "-p" && stoi(opts[1]).Some? {
        ScanFields(opts[2..], cfg.(serverPort := stoi(opts[1]).value), stoi);
      } else if opts[0] == "-c" {
        ScanFields(opts[2..], cfg.(configFileName := opts[1]), stoi);
      }
    }
  }

  // ---------------------------------------------------------------------
  // The configuration file

  /** A path that starts with "~/" has the "~" replaced by the home directory. */
  function Expand(name: string, home: string): string
  {
    if "~/" <= name then home + name[1..] else name
  }

  /** The default configuration file lives in the home directory. */
  lemma DefaultConfigPath(home: string)
    ensures Expand(DefaultConfig().configFileName, home) == home + "/.config/velient.conf"
  {
    assert "~/" <= DefaultConfig().configFileName;
  }

  /** A line that holds an entry: not blank once trimmed, and not a comment. */
  predicate IsEntry(line: string)
  {
    var t := Trim(line, Blank);
    t != [] && t[0] != '#'
  }

  /** The index of the first entry line at `from` or later. */
  function NextEntry(lines: seq<string>, from: nat): (r: Option<nat>)
    ensures r.Some? ==> from <= r.value < |lines|
    decreases |lines| - from
  {
    if from >= |lines| then None
    else if IsEntry(lines[from]) then Some(from)
    else NextEntry(lines, from + 1)
  }

  /** `NextEntry` finds the first entry line at `from` or later, and finds
      none exactly when there is none. */
  lemma {:induction false} NextEntryFirst(lines: seq<string>, from: nat)
    ensures var r := NextEntry(lines, from);
      && (r.Some? ==> IsEntry(lines[r.value]) && forall k :: from <= k < r.value ==> !IsEntry(lines[k]))
      && (r.None? ==> forall k :: from <= k < |lines| ==> !IsEntry(lines[k]))
    decreases |lines| - from
  {
    if from < |lines| {
      NextEntryStep(lines, from);
      if !IsEntry(lines[from]) {
        NextEntryFirst(lines, from + 1);
      }
    }
  }

  lemma NextEntryStep(lines: seq<string>, k: nat)
    requires k < |lines|
    ensures NextEntry(lines, k) == if IsEntry(lines[k]) then Some(k) else NextEntry(lines, k + 1)
  {
  }

  /** The login and the password: the first two entry lines, trimmed. */
  function Credentials(lines: seq<string>): Option<(string, string)>
  {
    match NextEntry(lines, 0)
    case None => None
    case Some(i) =>
      match NextEntry(lines, i + 1)
      case None => None
      case Some(j) => Some((Trim(lines[i], Blank), Trim(lines[j], Blank)))
  }

  /** `readConfigFile`: `files` says what each path opens to. The expanded
      path is kept also when reading fails; login and password are assigned
      only when both were found. */
  function ReadConfig(cfg: ClientConfig, home: string, files: string -> Option<string>): (bool, ClientConfig)
  {
    var c := cfg.(configFileName := Expand(cfg.configFileName, home));
    LoadCredentials(c, files(c.configFileName))
  }

  /** The part of `readConfigFile` after the file was opened with `content`
      (`None`: it did not open). */
  function LoadCredentials(cfg: ClientConfig, content: Option<string>): (bool, ClientConfig)
  {
    if content.None? then (false, cfg)
    else match Credentials(Lines(content.value))
      case None => (false, cfg)
      case Some((login, password)) => (true, cfg.(login := login, password := password))
  }

  /** Every entry of the file, trimmed, in order: an independent account of
      which lines hold settings. */
  function Entries(lines: seq<string>): (es: seq<string>)
    ensures forall k :: 0 <= k < |es| ==> es[k] != [] && es[k][0] != '#'
    ensures forall k :: 0 <= k < |es| ==> es[k][0] !in Blank && es[k][|es[k]| - 1] !in Blank
    decreases |lines|
  {
    if lines == [] then []
    else (if IsEntry(lines[0]) then [Trim(lines[0], Blank)] else []) + Entries(lines[1..])
  }

  /** The search for the next entry line agrees with the list of entries. */
  lemma {:induction false} NextEntryEntries(lines: seq<string>, from: nat)
    requires from <= |lines|
    ensures NextEntry(lines, from).None? <==> Entries(lines[from..]) == []
    ensures NextEntry(lines, from).Some? ==>
      var i := NextEntry(lines, from).value;
      Entries(lines[from..]) == [Trim(lines[i], Blank)] + Entries(lines[i + 1..])
    decreases |lines| - from
  {
    if from < |lines| {
      var here := lines[from..];
      var rest := Entries(lines[from + 1..]);
      assert here[0] == lines[from] && here[1..] == lines[from + 1..];
      assert Entries(here) == (if IsEntry(lines[from]) then [Trim(lines[from], Blank)] else []) + rest;
      if IsEntry(lines[from]) {
        assert NextEntry(lines, from) == Some(from);
      } else {
        assert NextEntry(lines, from) == NextEntry(lines, from + 1);
        assert Entries(here) == rest;
        NextEntryEntries(lines, from + 1);
      }
    }
  }

  /** `readConfigFile` succeeds exactly when the file opens and holds at least
      two entries; the login is the first, the password the second, and each
      is free of surrounding blanks and does not start with '#'. Otherwise
      only the path changed. */
  lemma ReadConfigMeaning(cfg: ClientConfig, home: string, files: string -> Option<string>)
    ensures var r := ReadConfig(cfg, home, files);
      var path := Expand(cfg.configFileName, home);
      && r.1.configFileName == path
      && (r.0 <==> files(path).Some? && |Entries(Lines(files(path).value))| >= 2)
      && (r.0 ==>
            var es := Entries(Lines(files(path).value));
            r.1 == cfg.(configFileName := path, login := es[0], password := es[1]))
      && (!r.0 ==> r.1 == cfg.(configFileName := path))
      && (r.0 ==> r.1.login != [] && r.1.login[0] != '#' && r.1.login[0] !in Blank && r.1.login[|r.1.login| - 1] !in Blank)
      && (r.0 ==> r.1.password != [] && r.1.password[0] != '#' && r.1.password[0] !in Blank
                  && r.1.password[|r.1.password| - 1] !in Blank)
  {
    var path := Expand(cfg.configFileName, home);
    var c := cfg.(configFileName := path);
    var content := files(path);
    if content.None? {
      assert ReadConfig(cfg, home, files) == (false, c);
    } else {
      var lines := Lines(content.value);
      CredentialsEntries(lines);
      if Credentials(lines).None? {
        assert ReadConfig(cfg, home, files) == (false, c);
      } else {
        var es := Entries(lines);
        assert ReadConfig(cfg, home, files) == (true, c.(login := es[0], password := es[1]));
      }
    }
  }

  /** The first two entries are the login and the password. */
  lemma CredentialsEntries(lines: seq<string>)
    ensures Credentials(lines).Some? <==> |Entries(lines)| >= 2
    ensures Credentials(lines).Some? ==> Credentials(lines).value == (Entries(lines)[0], Entries(lines)[1])
  {
    assert lines[0..] == lines;
    NextEntryEntries(lines, 0);
    var first := NextEntry(lines, 0);
    if first.Some? {
      NextEntryEntries(lines, first.value + 1);
    }
  }

  // ---------------------------------------------------------------------
  // The session

  /** The steps of `run`, in the order they are taken. */
  datatype Step = ParseArgsStep | ReadConfigStep | ReadInputStep | ValidateStep | ConnectStep
                | AuthenticateStep | SendStep | SaveStep | CloseStep

  const AllSteps: seq<Step> := [ParseArgsStep, ReadConfigStep, ReadInputStep, ValidateStep, ConnectStep,
                                AuthenticateStep, SendStep, SaveStep, CloseStep]

  /** How `run` ends: it returns `true` or `false`, `exitWithError` ends the
      process, or an exception escapes it. */
  datatype Outcome = Completed | ReturnedFalse | Exited | Aborted

  /** What `run` depends on outside the process: `std::stoi`, the home
      directory, what each path opens to, how words read as numbers, what
      `socket` returns, whether `inet_pton` accepts an address, whether
      `connect` reaches an address and port, the server it reaches, SHA-1,
      and whether the results file is written. */
  datatype Environment = Environment(
    stoi: string -> Option<int>,
    home: string,
    files: string -> Option<string>,
    count: Parser<nat>,
    value: Parser<Float64>,
    socket: int,
    addressParses: string -> bool,
    connects: (string, int) -> bool,
    server: Peer,
    sha1: string -> Digest,
    saves: (string, seq<Float64>) -> bool)

  /** What a run leaves behind: how it ended, the steps it started, the
      configuration, the vectors read, the results received, the connection's
      socket as the server saw it, and the descriptors closed. */
  datatype Report = Report(
    outcome: Outcome,
    trace: seq<Step>,
    config: ClientConfig,
    vectors: seq<seq<Float64>>,
    results: seq<Float64>,
    peer: Peer,
    closed: seq<int>)

  /** The peer of a connection object that never connected. */
  const Unconnected: Peer := Unplugged([])

  /** A run that ended at its `n`-th step, before any vector was read. */
  function Stopped(outcome: Outcome, n: nat, cfg: ClientConfig): Report
    requires 1 <= n <= |AllSteps|
  {
    Report(outcome, AllSteps[..n], cfg, [], [], Unconnected, [])
  }

  /** `run`, step by step: the first step that fails ends the run. */
  function RunSpec(argv: seq<string>, env: Environment, cfg0: ClientConfig): Report
  {
    var args := ParseArgs(argv, cfg0, env.stoi);
    if args.0 == BadPort then Stopped(Aborted, 1, args.1)
    else if args.0 == Rejected then Stopped(ReturnedFalse, 1, args.1)
    else Configure(args.1, env)
  }

  /** From step 2 on: the configuration file. */
  function Configure(cfg: ClientConfig, env: Environment): Report
  {
    var conf := ReadConfig(cfg, env.home, env.files);
    if !conf.0 then Stopped(ReturnedFalse, 2, conf.1) else Prepare(conf.1, env)
  }

  /** From step 3 on: reading and checking the vectors; a failure ends the
      process through `exitWithError`. */
  function Prepare(cfg: ClientConfig, env: Environment): Report
  {
    var input := ReadVectors(env.files(cfg.inputFileName), env.count, env.value, []);
    if !input.0 then Report(Exited, AllSteps[..3], cfg, input.1, [], Unconnected, [])
    else if !Valid(input.1) then Report(Exited, AllSteps[..4], cfg, input.1, [], Unconnected, [])
    else Session(cfg, input.1, env)
  }

  /** From step 5 on: the session with the server. Each failure ends the
      process through `exitWithError`, so the `closeConnection` calls that
      follow it in the source are never reached and the socket stays open. */
  function Session(cfg: ClientConfig, vs: seq<seq<Float64>>, env: Environment): Report
  {
    if !(env.socket >= 0 && env.addressParses(cfg.serverAddress) && env.connects(cfg.serverAddress, cfg.serverPort)) then
      Report(Exited, AllSteps[..5], cfg, vs, [], Unconnected, [])
    else
      var auth := Handshake(env.server, cfg.login, cfg.password, env.sha1);
      if !auth.0 then Report(Exited, AllSteps[..6], cfg, vs, [], auth.1, [])
      else
        var sent := SendVectorsSpec(auth.1, vs);
        if !sent.0 then Report(Exited, AllSteps[..7], cfg, vs, sent.1, sent.2, [])
        else if !env.saves(cfg.outputFileName, sent.1) then Report(Exited, AllSteps[..8], cfg, vs, sent.1, sent.2, [])
        else Report(Completed, AllSteps, cfg, vs, sent.1, sent.2, [env.socket])
  }

  /** The order of a run: the steps it started are a prefix of the full order. */
  predicate Ordered(r: Report)
  {
    1 <= |r.trace| <= |AllSteps| && r.trace == AllSteps[..|r.trace|]
  }

  /** The session steps come in order; the run completes exactly when all
      of them ran, and only a completed run closes the socket. */
  lemma SessionOrder(cfg: ClientConfig, vs: seq<seq<Float64>>, env: Environment)
    ensures var r := Session(cfg, vs, env);
      && Ordered(r) && 5 <= |r.trace|
      && (r.outcome == Completed || r.outcome == Exited)
      && (r.outcome == Completed <==> r.trace == AllSteps)
      && (r.closed != [] <==> r.outcome == Completed)
  {
    var r := Session(cfg, vs, env);
    if !(env.socket >= 0 && env.addressParses(cfg.serverAddress) && env.connects(cfg.serverAddress, cfg.serverPort)) {
      assert r == Report(Exited, AllSteps[..5], cfg, vs, [], Unconnected, []);
      PrefixOfSteps(5);
    } else {
      var auth := Handshake(env.server, cfg.login, cfg.password, env.sha1);
      if !auth.0 {
        assert r == Report(Exited, AllSteps[..6], cfg, vs, [], auth.1, []);
        PrefixOfSteps(6);
      } else {
        var sent := SendVectorsSpec(auth.1, vs);
        if !sent.0 {
          assert r == Report(Exited, AllSteps[..7], cfg, vs, sent.1, sent.2, []);
          PrefixOfSteps(7);
        } else if !env.saves(cfg.outputFileName, sent.1) {
          assert r == Report(Exited, AllSteps[..8], cfg, vs, sent.1, sent.2, []);
          PrefixOfSteps(8);
        } else {
          assert r == Report(Completed, AllSteps, cfg, vs, sent.1, sent.2, [env.socket]);
          PrefixOfSteps(9);
        }
      }
    }
  }

  lemma PrefixOfSteps(n: nat)
    requires 1 <= n <= |AllSteps|
    ensures |AllSteps[..n]| == n && AllSteps[..n][..n] == AllSteps[..n]
    ensures AllSteps[..n] == AllSteps <==> n == |AllSteps|
  {
  }

  /** The steps run in the fixed order and a failed step is the last one
      started: the trace is a prefix of the full order, it is the full order
      exactly when the run completed, the command line and the configuration
      file end the run by returning (or, for a bad port, by an exception),
      every later failure ends the process, and the socket is closed only
      by a completed run. */
  lemma RunOrder(argv: seq<string>, env: Environment, cfg0: ClientConfig)
    ensures var r := RunSpec(argv, env, cfg0);
      && Ordered(r)
      && (r.outcome == Completed <==> r.trace == AllSteps)
      && (r.outcome == Aborted ==> r.trace == [ParseArgsStep])
      && (r.outcome == ReturnedFalse ==> |r.trace| <= 2)
      && (r.outcome == Exited ==> 3 <= |r.trace| < |AllSteps|)
      && (r.closed != [] <==> r.outcome == Completed)
  {
    RunShaped(argv, env, cfg0);
  }

  /** The shape of a run `RunOrder` states. */
  ghost predicate Shaped(r: Report)
  {
    && Ordered(r)
    && (r.outcome == Completed <==> r.trace == AllSteps)
    && (r.outcome == Aborted ==> r.trace == [ParseArgsStep])
    && (r.outcome == ReturnedFalse ==> |r.trace| <= 2)
    && (r.outcome == Exited ==> 3 <= |r.trace| < |AllSteps|)
    && (r.closed != [] <==> r.outcome == Completed)
  }

  lemma RunShaped(argv: seq<string>, env: Environment, cfg0: ClientConfig)
    ensures Shaped(RunSpec(argv, env, cfg0))
  {
    var args := ParseArgs(argv, cfg0, env.stoi);
    if args.0 == BadPort {
      StoppedShaped(Aborted, 1, args.1);
    } else if args.0 == Rejected {
      StoppedShaped(ReturnedFalse, 1, args.1);
    } else {
      assert RunSpec(argv, env, cfg0) == Configure(args.1, env);
      var conf := ReadConfig(args.1, env.home, env.files);
      if !conf.0 {
        StoppedShaped(ReturnedFalse, 2, conf.1);
      } else {
        assert Configure(args.1, env) == Prepare(conf.1, env);
        PrepareOrder(conf.1, env);
      }
    }
  }

  lemma StoppedShaped(outcome: Outcome, n: nat, cfg: ClientConfig)
    requires (outcome == Aborted && n == 1) || (outcome == ReturnedFalse && 1 <= n <= 2)
    ensures Shaped(Stopped(outcome, n, cfg))
  {
    PrefixOfSteps(n);
  }

  /** From step 3 on, a run ends by `exitWithError` or completes. */
  lemma PrepareOrder(cfg: ClientConfig, env: Environment)
    ensures var r := Prepare(cfg, env);
      && Shaped(r) && 3 <= |r.trace|
      && (r.outcome == Completed || r.outcome == Exited)
  {
    var input := ReadVectors(env.files(cfg.inputFileName), env.count, env.value, []);
    if !input.0 {
      PrefixOfSteps(3);
    } else if !Valid(input.1) {
      PrefixOfSteps(4);
    } else {
      SessionOrder(cfg, input.1, env);
    }
  }

  /** A completed session received one result per vector (so the count
      warning of `run` never fires), authenticated first, and, when the
      counts fit in 32 bits, sent the encoded set right after the handshake. */
  lemma SessionCompleted(cfg: ClientConfig, vs: seq<seq<Float64>>, env: Environment)
    ensures var r := Session(cfg, vs, env);
      r.outcome == Completed ==>
        var auth := Handshake(env.server, cfg.login, cfg.password, env.sha1);
        && r.config == cfg && r.vectors == vs
        && |r.results| == |vs|
        && auth.0
        && (Fits32(vs) ==> r.peer.wire == auth.1.wire + Encode(vs))
        && r.closed == [env.socket] && env.socket >= 0
  {
    var r := Session(cfg, vs, env);
    if r.outcome == Completed {
      var auth := Handshake(env.server, cfg.login, cfg.password, env.sha1);
      var sent := SendVectorsSpec(auth.1, vs);
      assert auth.0 && sent.0 && r.results == sent.1 && r.peer == sent.2;
      SendVectorsDelivers(auth.1, vs);
      if Fits32(vs) {
        SendVectorsEncodes(auth.1, vs);
      }
    }
  }

  /** A completed run read a valid vector set, received one result per
      vector, authenticated with the credentials of the configuration file,
      and, when the counts fit in 32 bits, sent the server the encoded set
      right after the handshake. */
  lemma RunCompleted(argv: seq<string>, env: Environment, cfg0: ClientConfig)
    ensures var r := RunSpec(argv, env, cfg0);
      r.outcome == Completed ==>
        var auth := Handshake(env.server, r.config.login, r.config.password, env.sha1);
        && Valid(r.vectors)
        && |r.results| == |r.vectors|
        && auth.0
        && (Fits32(r.vectors) ==> r.peer.wire == auth.1.wire + Encode(r.vectors))
        && r.closed == [env.socket] && env.socket >= 0
  {
    var args := ParseArgs(argv, cfg0, env.stoi);
    if args.0 == Accepted {
      var conf := ReadConfig(args.1, env.home, env.files);
      assert RunSpec(argv, env, cfg0) == Configure(args.1, env);
      if conf.0 {
        var cfg := conf.1;
        assert Configure(args.1, env) == Prepare(cfg, env);
        var input := ReadVectors(env.files(cfg.inputFileName), env.count, env.value, []);
        if input.0 && Valid(input.1) {
          assert Prepare(cfg, env) == Session(cfg, input.1, env);
          SessionCompleted(cfg, input.1, env);
        }
      }
    }
  }

  /** One `while (std::getline(...))` loop of `readConfigFile`, reading from
      line `from`: each line is trimmed, blank lines and comments are passed
      over, and the first other line ends the loop. Yields that line (empty
      when the lines ran out) and the index of the line after it. */
  method ReadEntry(lines: seq<string>, from: nat) returns (entry: string, next: nat)
    requires from <= |lines|
    ensures entry == [] ==> NextEntry(lines, from) == None
    ensures entry != [] ==> NextEntry(lines, from) == Some(next - 1) && entry == Trim(lines[next - 1], Blank)
  {
    entry := [];
    next := from;
    while next < |lines|
      invariant from <= next <= |lines|
      invariant NextEntry(lines, next) == NextEntry(lines, from)
    {
      var line := Trim(lines[next], Blank);
      NextEntryStep(lines, next);
      next := next + 1;
      if line == [] || line[0] == '#' {
        continue;
      }
      entry := line;
      break;
    }
  }

  class Client {
    var config: ClientConfig

    /** A client with the default configuration. */
    constructor ()
      ensures config == DefaultConfig()
    {
      config := DefaultConfig();
    }

    /** `parseCommandLineArgs`: the loop advances `i` past an option's value
        inside its body. */
    method ParseCommandLineArgs(argv: seq<string>, stoi: string -> Option<int>) returns (verdict: ArgsVerdict)
      modifies this
      ensures (verdict, config) == ParseArgs(argv, old(config), stoi)
    {
      if |argv| < 4 {
        return Rejected;
      }
      config := config.(serverAddress := argv[1], inputFileName := argv[2], outputFileName := argv[3]);
      ghost var start := config;
      var i := 4;
      while i < |argv|
        invariant 4 <= i <= |argv|
        invariant ScanOptions(argv[i..], config, stoi) == ScanOptions(argv[4..], start, stoi)
      {
        ghost var opts := argv[i..];
        assert opts[0] == argv[i];
        if argv[i] == "-p" && i + 1 < |argv| {
          assert opts[1] == argv[i + 1] && opts[2..] == argv[i + 2..];
          i := i + 1;
          var port := stoi(argv[i]);
          if port.None? {
            return BadPort;
          }
          config := config.(serverPort := port.value);
        } else if argv[i] == "-c" && i + 1 < |argv| {
          assert opts[1] == argv[i + 1] && opts[2..] == argv[i + 2..];
          i := i + 1;
          config := config.(configFileName := argv[i]);
        } else if argv[i] == "-h" {
          return Rejected;
        } else {
          return Rejected;
        }
        i := i + 1;
      }
      assert argv[i..] == [];
      return Accepted;
    }

    /** `readConfigFile`: `home` is what `getenv("HOME")` (or the password
        database) gives, `files` what each path opens to; the two loops
        read lines one `getline` at a time. */
    method ReadConfigFile(home: string, files: string -> Option<string>) returns (ok: bool)
      modifies this
      ensures (ok, config) == ReadConfig(old(config), home, files)
    {
      if "~/" <= config.configFileName {
        config := config.(configFileName := home + config.configFileName[1..]);
      }
      var content := files(config.configFileName);
      assert ReadConfig(old(config), home, files) == LoadCredentials(config, content);
      if content.None? {
        return false;
      }
      var lines := Lines(content.value);
      var login, k := ReadEntry(lines, 0);
      if login == [] {
        assert Credentials(lines) == None;
        return false;
      }
      var password, _ := ReadEntry(lines, k);
      if password == [] {
        assert Credentials(lines) == None;
        return false;
      }
      assert Credentials(lines) == Some((login, password));
      config := config.(login := login, password := password);
      return true;
    }

    /** `run`. The objects it creates are reported through the out-parameters:
        the vectors `dataProcessor` read, the results `sendVectors` gave, the
        connection's socket and the descriptors it closed. */
    method Run(argv: seq<string>, env: Environment)
      returns (outcome: Outcome, trace: seq<Step>, vectors: seq<seq<Float64>>, results: seq<Float64>,
               peer: Peer, closed: seq<int>)
      modifies this
      ensures Report(outcome, trace, config, vectors, results, peer, closed) == RunSpec(argv, env, old(config))
    {
      trace, vectors, results, peer, closed := AllSteps[..1], [], [], Unconnected, [];
      var verdict := ParseCommandLineArgs(argv, env.stoi);
      if verdict == BadPort {
        outcome := Aborted;
        return;
      }
      if verdict == Rejected {
        outcome := ReturnedFalse;
        return;
      }
      assert RunSpec(argv, env, old(config)) == Configure(config, env);

      trace := AllSteps[..2];
      ghost var beforeConfig := config;
      var configured := ReadConfigFile(env.home, env.files);
      if !configured {
        outcome := ReturnedFalse;
        return;
      }
      assert Configure(beforeConfig, env) == Prepare(config, env);

      trace := AllSteps[..3];
      var dataProcessor := new DataProcessor();
      var read := dataProcessor.ReadVectorsFromFile(env.files(config.inputFileName), env.count, env.value);
      vectors := dataProcessor.GetVectors();
      if !read {
        outcome := Exited;
        return;
      }
      trace := AllSteps[..4];
      var valid := dataProcessor.ValidateData();
      if !valid {
        outcome := Exited;
        return;
      }
      assert Prepare(config, env) == Session(config, vectors, env);

      trace := AllSteps[..5];
      var connection := new ServerConnection();
      var connected := connection.EstablishConnection(env.socket, env.addressParses(config.serverAddress),
                                                      env.connects(config.serverAddress, config.serverPort), env.server);
      if !connected {
        outcome := Exited;
        assert Session(config, vectors, env) == Report(outcome, trace, config, vectors, results, peer, closed);
        return;
      }

      trace := AllSteps[..6];
      var authenticated := connection.Authenticate(config.login, config.password, env.sha1);
      peer := connection.peer;
      if !authenticated {
        outcome := Exited;
        assert Session(config, vectors, env) == Report(outcome, trace, config, vectors, results, peer, closed);
        return;
      }

      trace := AllSteps[..7];
      var sent;
      sent, results := connection.SendVectors(dataProcessor.GetVectors());
      peer := connection.peer;
      if !sent {
        outcome := Exited;
        assert Session(config, vectors, env) == Report(outcome, trace, config, vectors, results, peer, closed);
        return;
      }

      trace := AllSteps[..8];
      if !env.saves(config.outputFileName, results) {
        outcome := Exited;
        assert Session(config, vectors, env) == Report(outcome, trace, config, vectors, results, peer, closed);
        return;
      }

      trace := AllSteps;
      connection.CloseConnection();
      // the destructor, on leaving `run`
      connection.CloseConnection();
      closed := connection.closed;
      outcome := Completed;
    }
  }
}
