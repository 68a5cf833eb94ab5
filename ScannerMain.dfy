/**
 * The command line: parsing the arguments into an option map, and the settings `run` derives
 * from that map before it scans (defaults, legacy mode, the empty-server filter and the host
 * list used when resolution is skipped). Prompts, help text and output are not modelled.
 */
module ScannerMain {
  import opened Results
  import opened JavaLang
  import opened PingResponses
  import opened MinecraftPinger
  import opened NgrokScanner
  import opened CommandLineOptions

  /** The parsed options: each present option with its value, `None` for a flag. */
  type Options = map<CommandLineOption, Option<string>>

  /** `arg.startsWith("-")`. */
  predicate StartsWithDash(arg: string) {
    |arg| >= 1 && arg[0] == '-'
  }

  /** The keys one argument names and the value they all share. */
  datatype Switch = Switch(keys: seq<string>, value: Option<string>)

  /**
   * How one argument starting with '-' is read: after "--" the rest names one key, after a
   * single '-' every character is a key; a value follows the first '='.
   */
  function ParseSwitch(arg: string): (sw: Switch)
    requires StartsWithDash(arg)
    ensures |sw.keys| >= 1
    ensures sw.value.Some? <==> '=' in arg
  {
    var long := |arg| >= 2 && arg[1] == '-';
    var body := arg[if long then 2 else 1..];
    assert arg == arg[..if long then 2 else 1] + body;
    var eq := IndexOf(body, '=');
    var name := if eq == -1 then body else body[..eq];
    var value := if eq == -1 then None else Some(body[eq + 1..]);
    Switch(if long then [name] else SplitChars(name), value)
  }

  /** Whether `value` is what `option` expects: a value its validator accepts, or none for a flag. */
  predicate AcceptsValue(option: CommandLineOption, value: Option<string>, isDirectory: FileSystem) {
    match Parser(option)
    case Some(validator) => value.Some? && Validate(validator, value.value, isDirectory).None?
    case None => value.None?
  }

  /** The checks on one key: it names an option, and the value suits that option. */
  function KeyOption(key: string, value: Option<string>, isDirectory: FileSystem): (r: Result<CommandLineOption, string>)
    ensures r.Success? <==> GetByKey(key).Some? && AcceptsValue(GetByKey(key).value, value, isDirectory)
    ensures r.Success? ==> Key(r.value) == key
    ensures GetByKey(key).None? ==> r == Failure("Unknown option \"" + key + "\"")
    ensures GetByKey(key).Some? && Argument(GetByKey(key).value).Some? && value.None? ==>
      r == Failure("Missing arguments for option \"" + key + "\"")
    ensures GetByKey(key).Some? && Argument(GetByKey(key).value).None? && value.Some? ==>
      r == Failure("Option \"" + key + "\" does not accept any arguments")
    ensures GetByKey(key).Some? && Parser(GetByKey(key).value).Some? && value.Some? ==>
      var error := Validate(Parser(GetByKey(key).value).value, value.value, isDirectory);
      error.Some? ==> r == Failure(error.value)
  {
    match GetByKey(key)
    case None => Failure("Unknown option \"" + key + "\"")
    case Some(option) =>
      if Argument(option).Some? then
        if value.None? then Failure("Missing arguments for option \"" + key + "\"")
        else
          match Validate(Parser(option).value, value.value, isDirectory)
          case Some(error) => Failure(error)
          case None => Success(option)
      else if value.Some? then Failure("Option \"" + key + "\" does not accept any arguments")
      else Success(option)
  }

  /** The keys of one argument applied in order; the first bad key stops the parse. */
  function ApplyKeys(options: Options, keys: seq<string>, value: Option<string>, isDirectory: FileSystem)
    : Result<Options, string>
  {
    if keys == [] then Success(options)
    else
      var before :- ApplyKeys(options, keys[..|keys| - 1], value, isDirectory);
      var option :- KeyOption(keys[|keys| - 1], value, isDirectory);
      Success(before[option := value])
  }

  /** One argument: ignored unless it starts with '-'. */
  function ApplyArg(options: Options, arg: string, isDirectory: FileSystem): Result<Options, string> {
    if !StartsWithDash(arg) then Success(options)
    else
      var sw := ParseSwitch(arg);
      ApplyKeys(options, sw.keys, sw.value, isDirectory)
  }

  /** The arguments applied in order. */
  function ApplyArgs(options: Options, args: seq<string>, isDirectory: FileSystem): Result<Options, string> {
    if args == [] then Success(options)
    else
      var before :- ApplyArgs(options, args[..|args| - 1], isDirectory);
      ApplyArg(before, args[|args| - 1], isDirectory)
  }

  /** parseOptions(args): the option map, or the message printed before returning null. */
  function ParsedOptions(args: seq<string>, isDirectory: FileSystem): Result<Options, string> {
    ApplyArgs(map[], args, isDirectory)
  }

  method ParseOptions(args: seq<string>, isDirectory: FileSystem) returns (r: Result<Options, string>)
    ensures r == ParsedOptions(args, isDirectory)
  {
    var options: Options := map[];
    for i := 0 to |args|
      invariant ApplyArgs(map[], args[..i], isDirectory) == Success(options)
    {
      var arg := args[i];
      assert args[..i + 1][..i] == args[..i];
      if StartsWithDash(arg) {
        var sw := ParseSwitch(arg);
        r := PutKeys(options, sw.keys, sw.value, isDirectory);
        if r.Failure? {
          ApplyArgsStops(map[], args, i + 1, isDirectory);
          return r;
        }
        options := r.value;
      }
    }
    assert args[..|args|] == args;
    return Success(options);
  }

  /** The inner loop of `parseOptions`: each key checked, then put with the shared value. */
  method PutKeys(options: Options, keys: seq<string>, value: Option<string>, isDirectory: FileSystem)
    returns (r: Result<Options, string>)
    ensures r == ApplyKeys(options, keys, value, isDirectory)
  {
    var current := options;
    for j := 0 to |keys|
      invariant ApplyKeys(options, keys[..j], value, isDirectory) == Success(current)
    {
      var key := keys[j];
      assert keys[..j + 1][..j] == keys[..j];
      var option := KeyOption(key, value, isDirectory);
      if option.Failure? {
        ApplyKeysStops(options, keys, j + 1, value, isDirectory);
        return Failure(option.error);
      }
      current := current[option.value := value];
    }
    assert keys[..|keys|] == keys;
    return Success(current);
  }

  /** Once a prefix of the keys fails, the rest are never looked at. */
  lemma {:induction false} ApplyKeysStops(options: Options, keys: seq<string>, j: nat, value: Option<string>,
                                          isDirectory: FileSystem)
    requires j <= |keys|
    requires ApplyKeys(options, keys[..j], value, isDirectory).Failure?
    ensures ApplyKeys(options, keys, value, isDirectory) == ApplyKeys(options, keys[..j], value, isDirectory)
  {
    if j < |keys| {
      assert keys[..|keys| - 1][..j] == keys[..j];
      ApplyKeysStops(options, keys[..|keys| - 1], j, value, isDirectory);
    } else {
      assert keys[..j] == keys;
    }
  }

  /** Once a prefix of the arguments fails, the rest are never looked at. */
  lemma {:induction false} ApplyArgsStops(options: Options, args: seq<string>, i: nat, isDirectory: FileSystem)
    requires i <= |args|
    requires ApplyArgs(options, args[..i], isDirectory).Failure?
    ensures ApplyArgs(options, args, isDirectory) == ApplyArgs(options, args[..i], isDirectory)
  {
    if i < |args| {
      assert args[..|args| - 1][..i] == args[..i];
      ApplyArgsStops(options, args[..|args| - 1], i, isDirectory);
    } else {
      assert args[..i] == args;
    }
  }

  // ---------------------------------------------------------------------------------------
  // Properties of the parse
  // ---------------------------------------------------------------------------------------

  /** Parsing `a + b` is parsing `a`, then carrying on with `b` from its result. */
  lemma {:induction false} ApplyArgsAppend(options: Options, a: seq<string>, b: seq<string>, isDirectory: FileSystem)
    ensures ApplyArgs(options, a + b, isDirectory) ==
      match ApplyArgs(options, a, isDirectory)
      case Failure(error) => Failure(error)
      case Success(after) => ApplyArgs(after, b, isDirectory)
  {
    if b == [] {
      assert a + b == a;
    } else {
      assert (a + b)[..|a + b| - 1] == a + b[..|b| - 1];
      ApplyArgsAppend(options, a, b[..|b| - 1], isDirectory);
    }
  }

  /** An argument that does not start with '-' changes nothing, wherever it stands. */
  lemma PlainArgumentIgnored(a: seq<string>, plain: string, b: seq<string>, isDirectory: FileSystem)
    requires !StartsWithDash(plain)
    ensures ParsedOptions(a + [plain] + b, isDirectory) == ParsedOptions(a + b, isDirectory)
  {
    ApplyArgsAppend(map[], a + [plain], b, isDirectory);
    ApplyArgsAppend(map[], a, [plain], isDirectory);
    ApplyArgsAppend(map[], a, b, isDirectory);
    assert [plain][..0] == [];
  }

  /** Every option in a successful parse carries a value that suits it. */
  predicate WellFormed(options: Options, isDirectory: FileSystem) {
    forall option :: option in options ==> AcceptsValue(option, options[option], isDirectory)
  }

  lemma {:induction false} ApplyKeysWellFormed(options: Options, keys: seq<string>, value: Option<string>,
                                               isDirectory: FileSystem)
    requires WellFormed(options, isDirectory)
    ensures ApplyKeys(options, keys, value, isDirectory).Success? ==>
      WellFormed(ApplyKeys(options, keys, value, isDirectory).value, isDirectory)
  {
    if keys != [] {
      ApplyKeysWellFormed(options, keys[..|keys| - 1], value, isDirectory);
    }
  }

  lemma {:induction false} ApplyArgsWellFormed(options: Options, args: seq<string>, isDirectory: FileSystem)
    requires WellFormed(options, isDirectory)
    ensures ApplyArgs(options, args, isDirectory).Success? ==>
      WellFormed(ApplyArgs(options, args, isDirectory).value, isDirectory)
  {
    if args != [] {
      ApplyArgsWellFormed(options, args[..|args| - 1], isDirectory);
      var before := ApplyArgs(options, args[..|args| - 1], isDirectory);
      var arg := args[|args| - 1];
      if before.Success? && StartsWithDash(arg) {
        ApplyKeysWellFormed(before.value, ParseSwitch(arg).keys, ParseSwitch(arg).value, isDirectory);
      }
    }
  }

  /**
   * A successful parse holds only options whose values passed their validators, and flags
   * without values.
   */
  lemma ParsedOptionsWellFormed(args: seq<string>, isDirectory: FileSystem)
    ensures ParsedOptions(args, isDirectory).Success? ==>
      WellFormed(ParsedOptions(args, isDirectory).value, isDirectory)
  {
    ApplyArgsWellFormed(map[], args, isDirectory);
  }

  /** Applying keys sets each key's option to the shared value and leaves the other options alone. */
  lemma {:induction false} ApplyKeysSets(options: Options, keys: seq<string>, value: Option<string>,
                                         isDirectory: FileSystem)
    requires ApplyKeys(options, keys, value, isDirectory).Success?
    ensures var after := ApplyKeys(options, keys, value, isDirectory).value;
      (forall k :: k in keys ==> GetByKey(k).Some? && GetByKey(k).value in after && after[GetByKey(k).value] == value) &&
      (forall option :: option in options && Key(option) !in keys ==> option in after && after[option] == options[option]) &&
      (forall option :: option in after ==> option in options || Key(option) in keys)
  {
    if keys != [] {
      var front := keys[..|keys| - 1];
      var last := keys[|keys| - 1];
      var before := ApplyKeys(options, front, value, isDirectory).value;
      var option := KeyOption(last, value, isDirectory).value;
      assert ApplyKeys(options, keys, value, isDirectory).value == before[option := value];
      ApplyKeysSets(options, front, value, isDirectory);
      GetByKeyRoundTrip(option, last);
      assert forall k :: k in keys <==> k in front || k == last;
    }
  }


  /**
   * The last argument naming an option decides its value: every key of a final switch maps
   * to that switch's value after a successful parse.
   */
  lemma LastOccurrenceWins(args: seq<string>, arg: string, key: string, isDirectory: FileSystem)
    requires StartsWithDash(arg) && key in ParseSwitch(arg).keys
    requires ParsedOptions(args + [arg], isDirectory).Success?
    ensures GetByKey(key).Some?
    ensures var options := ParsedOptions(args + [arg], isDirectory).value;
      GetByKey(key).value in options && options[GetByKey(key).value] == ParseSwitch(arg).value
  {
    assert (args + [arg])[..|args|] == args;
    var before := ParsedOptions(args, isDirectory).value;
    ApplyKeysSets(before, ParseSwitch(arg).keys, ParseSwitch(arg).value, isDirectory);
  }

  /** The first '=' after a name free of '=' is the one that follows it. */
  lemma IndexOfAfterName(name: string, value: string)
    requires '=' !in name
    ensures IndexOf(name + "=" + value, '=') == |name|
  {
    var s := name + "=" + value;
    var r := IndexOf(s, '=');
    assert s[|name|] == '=';
  }

  /** "--name" names the one key `name`. */
  lemma LongSwitch(name: string)
    requires '=' !in name
    ensures ParseSwitch("--" + name) == Switch([name], None)
  {
    assert ("--" + name)[2..] == name;
  }

  /** "--name=v" gives the key `name` the value `v`, which may itself hold '='. */
  lemma LongSwitchValue(name: string, value: string)
    requires '=' !in name
    ensures ParseSwitch("--" + name + "=" + value) == Switch([name], Some(value))
  {
    var arg := "--" + name + "=" + value;
    var body := name + "=" + value;
    assert arg[2..] == body;
    IndexOfAfterName(name, value);
    assert body[..|name|] == name;
    assert body[|name| + 1..] == value;
  }

  /** "-abc" names the keys "a", "b" and "c". */
  lemma ShortSwitch(letters: string)
    requires '=' !in letters && letters != [] && letters[0] != '-'
    ensures ParseSwitch("-" + letters) == Switch(SplitChars(letters), None)
    ensures forall i :: 0 <= i < |letters| ==> SplitChars(letters)[i] == [letters[i]]
  {
    assert ("-" + letters)[1..] == letters;
  }

  /** "-abc=v" gives all three keys the value `v`. */
  lemma ShortSwitchValue(letters: string, value: string)
    requires '=' !in letters && letters != [] && letters[0] != '-'
    ensures ParseSwitch("-" + letters + "=" + value) == Switch(SplitChars(letters), Some(value))
  {
    var arg := "-" + letters + "=" + value;
    var body := letters + "=" + value;
    assert arg[1..] == body;
    IndexOfAfterName(letters, value);
    assert body[..|letters|] == letters;
    assert body[|letters| + 1..] == value;
  }

  /** A bare "-" or "--" names the empty key, which is no option. */
  lemma BareDashIsUnknown(arg: string, isDirectory: FileSystem)
    requires arg == "-" || arg == "--"
    ensures ParsedOptions([arg], isDirectory) == Failure("Unknown option \"\"")
  {
    BareDashSwitch(arg);
    EmptyKeyUnknown(isDirectory);
    assert ApplyArg(map[], arg, isDirectory) == ApplyKeys(map[], [""], None, isDirectory);
    assert [arg][..0] == [];
    assert ApplyArgs(map[], [arg][..0], isDirectory) == Success(map[]);
  }

  lemma EmptyKeyUnknown(isDirectory: FileSystem)
    ensures ApplyKeys(map[], [""], None, isDirectory) == Failure("Unknown option \"\"")
  {
    EmptyKeyNoOption();
    assert [""][..0] == [];
    assert ApplyKeys(map[], [""][..0], None, isDirectory) == Success(map[]);
    assert KeyOption("", None, isDirectory) == Failure("Unknown option \"" + "" + "\"");
    assert "Unknown option \"" + "" + "\"" == "Unknown option \"\"";
  }

  lemma EmptyKeyNoOption()
    ensures GetByKey("") == None
  {
    forall option: CommandLineOption
      ensures Key(option) != ""
    {
    }
  }

  lemma BareDashSwitch(arg: string)
    requires arg == "-" || arg == "--"
    ensures StartsWithDash(arg) && ParseSwitch(arg) == Switch([""], None)
  {
    var body := arg[if arg == "--" then 2 else 1..];
    assert body == [];
  }

  // ---------------------------------------------------------------------------------------
  // The settings `run` derives from the options
  // ---------------------------------------------------------------------------------------

  /** The values `run` works with. */
  datatype Settings = Settings(
    region: string,
    threads: Int32,
    timeout: Int64,
    protocol: Int32,
    legacy: Int32,
    join: bool,
    skipEmpty: bool,
    resolve: bool)

  const DEFAULT_REGION: string := "us"
  const DEFAULT_THREADS: Int32 := 2
  const DEFAULT_TIMEOUT: Int64 := 1000
  const DEFAULT_PROTOCOL: Int32 := 754

  /** 2 forces the legacy ping, 1 falls back to it, 0 never uses it. */
  function LegacyMode(options: Options): (mode: Int32)
    ensures 0 <= mode <= 2
    ensures mode == 2 <==> ForceLegacyPing in options
    ensures mode == 1 <==> ForceLegacyPing !in options && LegacyPing in options
  {
    if ForceLegacyPing in options then 2 else if LegacyPing in options then 1 else 0
  }

  /** The settings from a well-formed option map: each present option overrides its default. */
  function Configure(options: Options, isDirectory: FileSystem): (s: Settings)
    requires WellFormed(options, isDirectory)
    ensures s.threads >= 1
    ensures ToLowerCase(s.region) in {"eu", "us"}
    ensures Region !in options ==> s.region == DEFAULT_REGION
    ensures Region in options ==> Some(s.region) == options[Region]
    ensures Threads !in options ==> s.threads == DEFAULT_THREADS
    ensures Threads in options ==> Some(s.threads) == ParseInt(options[Threads].value)
    ensures Timeout !in options ==> s.timeout == DEFAULT_TIMEOUT
    ensures Timeout in options ==> Some(s.timeout) == ParseLong(options[Timeout].value)
    ensures s.protocol == DEFAULT_PROTOCOL
    ensures s.legacy == LegacyMode(options)
    ensures s.join == (ForceJoin in options) && s.skipEmpty == (SkipEmpty in options)
    ensures s.resolve == (DontResolve !in options)
  {
    assert Region in options ==> AcceptsValue(Region, options[Region], isDirectory);
    assert Region in options ==> ValidateRegion(options[Region].value).None?;
    assert ToLowerCase(DEFAULT_REGION) == "us" by {
      assert ToLowerCase("s") == "s";
    }
    assert Threads in options ==> AcceptsValue(Threads, options[Threads], isDirectory);
    assert Timeout in options ==> AcceptsValue(Timeout, options[Timeout], isDirectory);
    Settings(
      if Region in options then options[Region].value else DEFAULT_REGION,
      if Threads in options then ParseInt(options[Threads].value).value else DEFAULT_THREADS,
      if Timeout in options then ParseLong(options[Timeout].value).value else DEFAULT_TIMEOUT,
      DEFAULT_PROTOCOL,
      LegacyMode(options),
      ForceJoin in options,
      SkipEmpty in options,
      DontResolve !in options)
  }

  /** The timeout handed to `scan`: the `long` narrowed to an `int`. */
  function ScanTimeout(settings: Settings): (t: Int32)
    ensures (t - settings.timeout) % TWO_32 == 0
    ensures -0x8000_0000 <= settings.timeout < 0x8000_0000 ==> t == settings.timeout
  {
    NarrowToInt(settings.timeout)
  }

  /** A timeout outside the `int` range wraps: 4294968296 ms reaches the probes as 1000 ms. */
  lemma ScanTimeoutWraps()
    ensures NarrowToInt(4294968296) == 1000
  {
  }

  /** What `main` does with the arguments. */
  datatype Action = ParseError(message: string) | ShowHelp | Run(settings: Settings)

  function MainAction(args: seq<string>, isDirectory: FileSystem): (a: Action)
    ensures a.ParseError? <==> ParsedOptions(args, isDirectory).Failure?
    ensures a.ShowHelp? <==> ParsedOptions(args, isDirectory).Success? && Help in ParsedOptions(args, isDirectory).value
    ensures a.Run? ==> a.settings.threads >= 1
    ensures a.ParseError? ==> a.message == ParsedOptions(args, isDirectory).error
    ensures a.Run? ==> (WellFormed(ParsedOptions(args, isDirectory).value, isDirectory) &&
                        a.settings == Configure(ParsedOptions(args, isDirectory).value, isDirectory))
  {
    match ParsedOptions(args, isDirectory)
    case Failure(message) => ParseError(message)
    case Success(options) =>
      if Help in options then ShowHelp
      else
        ParsedOptionsWellFormed(args, isDirectory);
        Run(Configure(options, isDirectory))
  }

  /** With no arguments, `run` scans the US region with 2 threads, a 1000 ms timeout and no legacy ping. */
  lemma NoArgumentsDefaults(isDirectory: FileSystem)
    ensures MainAction([], isDirectory) ==
      Run(Settings(DEFAULT_REGION, DEFAULT_THREADS, DEFAULT_TIMEOUT, DEFAULT_PROTOCOL, 0, false, false, true))
  {
  }

  /** "-L" makes every endpoint's ladder a lone legacy ping, whatever else is set. */
  lemma ForceLegacyMeansLegacyOnly(args: seq<string>, isDirectory: FileSystem, endpoint: Endpoint,
                                   network: Network, parseJson: JsonParser, heap: Heap)
    requires MainAction(args, isDirectory).Run?
    requires ForceLegacyPing in ParsedOptions(args, isDirectory).value
    ensures var s := MainAction(args, isDirectory).settings;
      Ladder(endpoint, s.legacy, s.join, ScanTimeout(s), network, parseJson, heap).tried == [LegacyProbe]
  {
  }

  // ---------------------------------------------------------------------------------------
  // discovered(): the SKIP_EMPTY filter
  // ---------------------------------------------------------------------------------------

  /** Whether a discovered server is printed. */
  function Shown(skipEmpty: bool, data: PingResponse): (shown: bool)
    ensures !skipEmpty ==> shown
    ensures skipEmpty ==> (shown <==> data.isUnlisted || data.players != 0)
  {
    !(skipEmpty && !data.isUnlisted && data.players == 0)
  }

  /** Unlisted servers are always printed: their zero player count is a placeholder. */
  lemma UnlistedAlwaysShown(skipEmpty: bool)
    ensures Shown(skipEmpty, Unlisted())
  {
  }

  // ---------------------------------------------------------------------------------------
  // The host list when resolution is skipped
  // ---------------------------------------------------------------------------------------

  /** The ten host names of the region, each standing for itself. */
  method UnresolvedHosts(region: string) returns (hosts: map<string, string>)
    ensures hosts.Keys == set x | 0 <= x < NGROK_HOSTS :: NgrokHost(x, RegionInfix(Some(region)))
    ensures forall host :: host in hosts ==> hosts[host] == host
  {
    var infix := RegionInfix(Some(region));
    hosts := map[];
    for x := 0 to NGROK_HOSTS
      invariant hosts.Keys == set y | 0 <= y < x :: NgrokHost(y, infix)
      invariant forall host :: host in hosts ==> hosts[host] == host
    {
      var host := [DigitChar(x)] + ".tcp" + infix + "ngrok.io";
      hosts := hosts[host := host];
      assert host == NgrokHost(x, infix);
      assert (set y | 0 <= y < x + 1 :: NgrokHost(y, infix)) == (set y | 0 <= y < x :: NgrokHost(y, infix)) + {host};
    }
  }

  /** The list holds ten different host names. */
  lemma {:induction false} UnresolvedHostCount(infix: string, k: nat)
    requires k <= NGROK_HOSTS
    ensures |set x | 0 <= x < k :: NgrokHost(x, infix)| == k
  {
    if k > 0 {
      UnresolvedHostCount(infix, k - 1);
      var smaller := set x | 0 <= x < k - 1 :: NgrokHost(x, infix);
      var all := set x | 0 <= x < k :: NgrokHost(x, infix);
      assert all == smaller + {NgrokHost(k - 1, infix)};
      forall y | 0 <= y < k - 1
        ensures NgrokHost(y, infix) != NgrokHost(k - 1, infix)
      {
        NgrokHostsDistinct(y, k - 1, infix);
      }
    }
  }
}
