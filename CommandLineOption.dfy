/**
 * The scanner's command-line options: the enum's table of keys, argument names and value
 * validators, the lookup by key, and the four validators. The help descriptions only feed the
 * help screen and are not modelled.
 */
module CommandLineOptions {
  import opened Results
  import opened JavaLang

  /** The enum constants, in declaration order. */
  datatype CommandLineOption =
    | DontResolve
    | ForceJoin
    | ForceLegacyPing
    | Help
    | Json
    | LegacyPing
    | NonInteractive
    | Output
    | Region
    | SkipEmpty
    | Threads
    | Timeout
    | Verbose

  /** `values()`: every constant once, in declaration order. */
  const VALUES: seq<CommandLineOption> := [
    DontResolve, ForceJoin, ForceLegacyPing, Help, Json, LegacyPing, NonInteractive,
    Output, Region, SkipEmpty, Threads, Timeout, Verbose
  ]

  /** The validators attached to the options that take a value. */
  datatype Validator = OutputValidator | RegionValidator | ThreadsValidator | TimeoutValidator

  /** `File.isDirectory` on the path the value names. */
  type FileSystem = string -> bool

  /** The `key` field: the letter after '-'. */
  function Key(option: CommandLineOption): (key: string)
    ensures |key| == 1
  {
    match option
    case DontResolve => "d"
    case ForceJoin => "J"
    case ForceLegacyPing => "L"
    case Help => "h"
    case Json => "j"
    case LegacyPing => "l"
    case NonInteractive => "y"
    case Output => "f"
    case Region => "r"
    case SkipEmpty => "e"
    case Threads => "t"
    case Timeout => "o"
    case Verbose => "v"
  }

  /** The `argument` field: the name of the value the option takes, `None` for a flag. */
  function Argument(option: CommandLineOption): Option<string> {
    match option
    case Output => Some("file")
    case Region => Some("region")
    case Threads => Some("threads")
    case Timeout => Some("timeout ms")
    case _ => None
  }

  /** The `parser` field. */
  function Parser(option: CommandLineOption): Option<Validator> {
    match option
    case Output => Some(OutputValidator)
    case Region => Some(RegionValidator)
    case Threads => Some(ThreadsValidator)
    case Timeout => Some(TimeoutValidator)
    case _ => None
  }

  /** `values()` lists every option exactly once. */
  lemma ValuesComplete(option: CommandLineOption)
    ensures option in VALUES
    ensures forall i, j :: 0 <= i < j < |VALUES| ==> VALUES[i] != VALUES[j]
  {
  }

  /** Keys are pairwise distinct; they are compared case-sensitively, so J/j and L/l differ. */
  lemma KeysDistinct(a: CommandLineOption, b: CommandLineOption)
    requires a != b
    ensures Key(a) != Key(b)
  {
  }

  /**
   * Exactly OUTPUT, REGION, THREADS and TIMEOUT take a value, and an option has a parser
   * exactly when it has an argument name.
   */
  lemma ArgumentIffParser(option: CommandLineOption)
    ensures Argument(option).Some? <==> Parser(option).Some?
    ensures Argument(option).Some? <==> option in {Output, Region, Threads, Timeout}
  {
  }

  /** The first option of `options` whose key equals `key`. */
  function FindByKey(options: seq<CommandLineOption>, key: string): (r: Option<CommandLineOption>)
    ensures r.Some? ==> r.value in options && Key(r.value) == key
    ensures r.None? ==> forall i :: 0 <= i < |options| ==> Key(options[i]) != key
  {
    if options == [] then None
    else if Key(options[0]) == key then Some(options[0])
    else FindByKey(options[1..], key)
  }

  /** getByKey(key): the option with that key, `None` for null. */
  function GetByKey(key: string): (r: Option<CommandLineOption>)
    ensures r.Some? <==> exists option :: Key(option) == key
    ensures r.Some? ==> Key(r.value) == key
  {
    var r := FindByKey(VALUES, key);
    assert r.None? ==> forall option :: Key(option) != key by {
      if r.None? {
        forall option
          ensures Key(option) != key
        {
          ValuesComplete(option);
        }
      }
    }
    r
  }

  /** Looking an option up by its own key finds that option, and only that one. */
  lemma GetByKeyRoundTrip(option: CommandLineOption, key: string)
    ensures GetByKey(Key(option)) == Some(option)
    ensures GetByKey(key) == Some(option) <==> key == Key(option)
  {
    var r := GetByKey(Key(option));
    if r.value != option {
      KeysDistinct(r.value, option);
    }
  }

  // ---------------------------------------------------------------------------------------
  // The validators: `None` accepts the value, `Some(message)` rejects it
  // ---------------------------------------------------------------------------------------

  /** OUTPUT: any path that is not a directory. */
  function ValidateOutput(input: string, isDirectory: FileSystem): (error: Option<string>)
    ensures error.None? <==> !isDirectory(input)
    ensures error.Some? ==> error.value == "File " + input + " is a directory!"
  {
    if isDirectory(input) then Some("File " + input + " is a directory!") else None
  }

  /** REGION: "eu" or "us" after lower-casing. */
  function ValidateRegion(input: string): (error: Option<string>)
    ensures error.None? <==> ToLowerCase(input) in {"eu", "us"}
    ensures error.Some? ==> error.value == "Unknown region \"" + input + "\""
  {
    match ToLowerCase(input)
    case "eu" => None
    case "us" => None
    case _ => Some("Unknown region \"" + input + "\"")
  }

  /** THREADS: an `int` greater than zero. */
  function ValidateThreads(input: string): (error: Option<string>)
    ensures error.None? <==> ParseInt(input).Some? && ParseInt(input).value > 0
    ensures ParseInt(input).None? ==> error == Some("Invalid number of threads: " + input)
    ensures ParseInt(input).Some? && ParseInt(input).value <= 0 ==>
      error == Some("Number of threads must be greater than 0")
  {
    match ParseInt(input)
    case None => Some("Invalid number of threads: " + input)
    case Some(n) => if n <= 0 then Some("Number of threads must be greater than 0") else None
  }

  /** TIMEOUT: any `long`, zero and negative ones included. */
  function ValidateTimeout(input: string): (error: Option<string>)
    ensures error.None? <==> ParseLong(input).Some?
    ensures error.Some? ==> error.value == "Invalid number: " + input
  {
    if ParseLong(input).Some? then None else Some("Invalid number: " + input)
  }

  /** `parser.parse(input)`. */
  function Validate(validator: Validator, input: string, isDirectory: FileSystem): Option<string> {
    match validator
    case OutputValidator => ValidateOutput(input, isDirectory)
    case RegionValidator => ValidateRegion(input)
    case ThreadsValidator => ValidateThreads(input)
    case TimeoutValidator => ValidateTimeout(input)
  }

  /** The REGION validator accepts exactly the eight spellings of "eu" and "us". */
  lemma RegionAcceptsExactly(input: string)
    ensures ValidateRegion(input).None? <==> input in {"eu", "eU", "Eu", "EU", "us", "uS", "Us", "US"}
  {
    if ValidateRegion(input).None? {
      var lower := ToLowerCase(input);
      assert |input| == 2;
      assert LowerAscii(input[0]) == lower[0] && LowerAscii(input[1]) == lower[1];
      assert input == [input[0], input[1]];
    } else if |input| == 2 {
      assert ToLowerCase(input) == [LowerAscii(input[0]), LowerAscii(input[1])];
    }
  }

  /** The TIMEOUT validator accepts zero and negative values, which THREADS rejects. */
  lemma TimeoutAcceptsNonPositive()
    ensures ValidateTimeout("0").None? && ValidateTimeout("-1").None?
    ensures ValidateThreads("0") == Some("Number of threads must be greater than 0")
    ensures ValidateThreads("two") == Some("Invalid number of threads: two")
  {
    assert DigitsValue("0") == 0;
    assert DigitsValue("1") == 1;
    assert "-1"[1..] == "1";
    assert !AllDigits("two") by {
      assert !IsDigit("two"[0]);
    }
    assert ParseDecimal("two") == None;
    assert "Invalid number of threads: " + "two" == "Invalid number of threads: two";
  }
}
