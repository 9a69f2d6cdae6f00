/** The command line of the benchmark: `--file-size <n>` and `--num-samples <n>`,
    both optional, read left to right by `parse_args`. */
module Args {
  import opened Text

  const FileSizeFlag := "--file-size"
  const NumSamplesFlag := "--num-samples"
  const DefaultFileSize := 1024
  const DefaultNumSamples := 1000

  /** The `Options` struct: bytes per file and number of files to write. */
  datatype Options = Options(fileSize: int, numSamples: int)

  const Defaults := Options(DefaultFileSize, DefaultNumSamples)

  /** Why `parse_args` returned false (the message it logs names the argument). */
  datatype ParseError = UnknownArgument(arg: string) | MissingValue(flag: string)

  datatype ParseResult = Parsed(opts: Options) | Rejected(error: ParseError)

  predicate IsFlag(arg: string) {
    arg == FileSizeFlag || arg == NumSamplesFlag
  }

  /** The field a recognised flag writes, set to `atoi` of its value. */
  function Assign(o: Options, flag: string, value: string): (r: Options)
    requires IsFlag(flag)
  {
    if flag == FileSizeFlag then o.(fileSize := Atoi(value)) else o.(numSamples := Atoi(value))
  }

  /** The scan of `argv` from position `i` with the options `o` written so far. */
  function Scan(argv: seq<string>, i: nat, o: Options): (r: ParseResult)
    ensures i >= |argv| ==> r == Parsed(o)
    ensures r.Rejected? && r.error.MissingValue? ==>
      && |argv| > i && IsFlag(r.error.flag) && r.error.flag == argv[|argv| - 1]
    ensures r.Rejected? && r.error.UnknownArgument? ==>
      i < |argv| && !IsFlag(r.error.arg)
    decreases |argv| - i
  {
    if i >= |argv| then Parsed(o)
    else if !IsFlag(argv[i]) then Rejected(UnknownArgument(argv[i]))
    else if i + 1 == |argv| then Rejected(MissingValue(argv[i]))
    else Scan(argv, i + 2, Assign(o, argv[i], argv[i + 1]))
  }

  /** What `parse_args(argc, argv, &opts)` decides; `argv[0]` is the program name. */
  function Parse(argv: seq<string>): (r: ParseResult)
    ensures |argv| <= 1 ==> r == Parsed(Defaults)
    ensures r.Rejected? && r.error.MissingValue? ==>
      && |argv| >= 2 && IsFlag(r.error.flag) && r.error.flag == argv[|argv| - 1]
    ensures r.Rejected? && r.error.UnknownArgument? ==>
      |argv| >= 2 && !IsFlag(r.error.arg)
  {
    Scan(argv, 1, Defaults)
  }

  /** The arguments after the program name. */
  function Arguments(argv: seq<string>): (args: seq<string>) {
    if |argv| <= 1 then [] else argv[1..]
  }

  /** The accepted command lines: flag/value pairs whose flags are all recognised. */
  predicate FlagValuePairs(args: seq<string>)
    decreases |args|
  {
    args == [] || (|args| >= 2 && IsFlag(args[0]) && FlagValuePairs(args[2..]))
  }

  /** The same, position by position: an even count, with a recognised flag
      at every even position. */
  lemma {:induction false} PairsIndexed(args: seq<string>)
    ensures FlagValuePairs(args) <==>
      |args| % 2 == 0 && forall j | 0 <= j < |args| && j % 2 == 0 :: IsFlag(args[j])
    decreases |args|
  {
    if |args| >= 2 {
      var rest := args[2..];
      PairsIndexed(rest);
      if FlagValuePairs(args) {
        forall j | 0 <= j < |args| && j % 2 == 0
          ensures IsFlag(args[j])
        {
          if j >= 2 { assert args[j] == rest[j - 2]; }
        }
      }
      if |args| % 2 == 0 && forall j | 0 <= j < |args| && j % 2 == 0 :: IsFlag(args[j]) {
        forall j | 0 <= j < |rest| && j % 2 == 0
          ensures IsFlag(rest[j])
        {
          assert rest[j] == args[j + 2];
        }
      }
    } else if |args| == 1 {
      assert !FlagValuePairs(args);
    }
  }

  /** Pairs come in an even count. */
  lemma {:induction false} PairsEven(args: seq<string>)
    requires FlagValuePairs(args)
    ensures |args| % 2 == 0
    decreases |args|
  {
    if args != [] {
      PairsEven(args[2..]);
    }
  }

  /** The value given by the last pair whose flag is `flag`, read from the end;
      `default` when no pair names it. */
  function LastValue(args: seq<string>, flag: string, default: int): (v: int)
    decreases |args|
  {
    if |args| < 2 then default
    else if args[|args| - 2] == flag then Atoi(args[|args| - 1])
    else LastValue(args[..|args| - 2], flag, default)
  }

  method ParseArgs(argv: seq<string>) returns (r: ParseResult)
    ensures r == Parse(argv)
    ensures r.Parsed? <==> FlagValuePairs(Arguments(argv))
  {
    ParseAccepts(argv);
    var opts := Defaults;
    var i := 1;
    while i < |argv|
      invariant 1 <= i
      invariant Scan(argv, i, opts) == Parse(argv)
      decreases |argv| - i
    {
      var arg := argv[i];
      i := i + 1;
      if arg == FileSizeFlag {
        if i == |argv| {
          return Rejected(MissingValue(arg));
        }
        opts := opts.(fileSize := Atoi(argv[i]));
        i := i + 1;
        continue;
      }
      if arg == NumSamplesFlag {
        if i == |argv| {
          return Rejected(MissingValue(arg));
        }
        opts := opts.(numSamples := Atoi(argv[i]));
        i := i + 1;
        continue;
      }
      return Rejected(UnknownArgument(arg));
    }
    r := Parsed(opts);
  }

  /** With no argument after the program name the defaults 1024 and 1000 stand. */
  lemma NoArguments(argv: seq<string>)
    requires |argv| <= 1
    ensures Parse(argv) == Parsed(Options(1024, 1000))
  {
  }

  lemma {:induction false} ScanAccepts(argv: seq<string>, i: nat, o: Options)
    requires i <= |argv|
    ensures Scan(argv, i, o).Parsed? <==> FlagValuePairs(argv[i..])
    decreases |argv| - i
  {
    var args := argv[i..];
    if i < |argv| && IsFlag(argv[i]) && i + 1 < |argv| {
      ScanAccepts(argv, i + 2, Assign(o, argv[i], argv[i + 1]));
      assert args[2..] == argv[i + 2..];
    } else if i < |argv| {
      assert args[0] == argv[i];
    }
  }

  /** `parse_args` returns true exactly for flag/value pairs with recognised flags. */
  lemma ParseAccepts(argv: seq<string>)
    ensures Parse(argv).Parsed? <==> FlagValuePairs(Arguments(argv))
  {
    if |argv| >= 1 {
      ScanAccepts(argv, 1, Defaults);
    }
  }

  lemma {:induction false} LastValueOfPrefix(f: string, v: string, rest: seq<string>, flag: string, default: int)
    requires |rest| % 2 == 0
    ensures LastValue([f, v] + rest, flag, default)
         == LastValue(rest, flag, if f == flag then Atoi(v) else default)
    decreases |rest|
  {
    var s := [f, v] + rest;
    if |rest| >= 2 {
      assert s[..|s| - 2] == [f, v] + rest[..|rest| - 2];
      LastValueOfPrefix(f, v, rest[..|rest| - 2], flag, default);
    } else {
      assert s[..|s| - 2] == [];
    }
  }

  lemma {:induction false} ScanValues(argv: seq<string>, i: nat, o: Options)
    requires i <= |argv| && FlagValuePairs(argv[i..])
    ensures Scan(argv, i, o)
         == Parsed(Options(LastValue(argv[i..], FileSizeFlag, o.fileSize),
                           LastValue(argv[i..], NumSamplesFlag, o.numSamples)))
    decreases |argv| - i
  {
    if i < |argv| {
      var rest := argv[i + 2..];
      SplitPair(argv, i);
      assert argv[i..][2..] == rest;
      PairsEven(rest);
      ScanValues(argv, i + 2, Assign(o, argv[i], argv[i + 1]));
      LastValueOfPrefix(argv[i], argv[i + 1], rest, FileSizeFlag, o.fileSize);
      LastValueOfPrefix(argv[i], argv[i + 1], rest, NumSamplesFlag, o.numSamples);
    }
  }

  /** An accepted command line sets each field from its flag's last occurrence,
      every flag taking exactly the argument after it as its value, and leaves
      the default where the flag does not occur. */
  lemma ParseValues(argv: seq<string>)
    requires FlagValuePairs(Arguments(argv))
    ensures Parse(argv)
         == Parsed(Options(LastValue(Arguments(argv), FileSizeFlag, DefaultFileSize),
                           LastValue(Arguments(argv), NumSamplesFlag, DefaultNumSamples)))
  {
    if |argv| >= 1 {
      ScanValues(argv, 1, Defaults);
    }
  }

  /** A flag repeated at the end overrides whatever an earlier occurrence set. */
  lemma LaterFlagOverrides(argv: seq<string>, flag: string, value: string)
    requires |argv| >= 1 && Parse(argv).Parsed? && IsFlag(flag)
    ensures Parse(argv + [flag, value]) == Parsed(Assign(Parse(argv).opts, flag, value))
  {
    ScanExtend(argv, 1, Defaults, flag, value);
  }

  lemma {:induction false} ScanExtend(argv: seq<string>, i: nat, o: Options, flag: string, value: string)
    requires i <= |argv| && Scan(argv, i, o).Parsed? && IsFlag(flag)
    ensures Scan(argv + [flag, value], i, o) == Parsed(Assign(Scan(argv, i, o).opts, flag, value))
    decreases |argv| - i
  {
    var longer := argv + [flag, value];
    if i == |argv| {
      assert longer[i] == flag && longer[i + 1] == value;
      assert Scan(longer, i, o) == Scan(longer, i + 2, Assign(o, flag, value));
    } else {
      assert longer[i] == argv[i] && longer[i + 1] == argv[i + 1];
      ScanExtend(argv, i + 2, Assign(o, argv[i], argv[i + 1]), flag, value);
    }
  }

  /** A command line rejected for a missing value ends with a recognised flag
      after flag/value pairs that were all accepted. */
  lemma ParseRejectsMissingValue(argv: seq<string>, flag: string)
    requires Parse(argv) == Rejected(MissingValue(flag))
    ensures var args := Arguments(argv);
      && |args| % 2 == 1 && flag == args[|args| - 1] && IsFlag(flag)
      && FlagValuePairs(args[..|args| - 1])
  {
    assert |argv| >= 2;
    ScanRejectsMissingValue(argv, 1, Defaults, flag);
  }

  /** A command line rejected for an unknown argument holds that argument in
      a flag's place, after flag/value pairs that were all accepted. */
  lemma ParseRejectsUnknown(argv: seq<string>, arg: string)
    requires Parse(argv) == Rejected(UnknownArgument(arg))
    ensures var args := Arguments(argv);
      exists j | 0 <= j < |args| && j % 2 == 0 ::
        args[j] == arg && !IsFlag(arg) && FlagValuePairs(args[..j])
  {
    assert |argv| >= 2 && Arguments(argv) == argv[1..];
    ScanRejectsUnknown(argv, 1, Defaults, arg);
  }

  lemma ScanRejectsMissingValue(argv: seq<string>, i: nat, o: Options, flag: string)
    requires i <= |argv| && Scan(argv, i, o) == Rejected(MissingValue(flag))
    ensures var args := argv[i..];
      && |args| % 2 == 1 && flag == args[|args| - 1] && IsFlag(flag)
      && FlagValuePairs(args[..|args| - 1])
  {
    MissingValuePairs(argv, i, o, flag);
    assert argv[i..][..|argv| - i - 1] == argv[i..|argv| - 1];
  }

  /** Before the flag that lacks its value, the scan saw only accepted pairs. */
  lemma {:induction false} MissingValuePairs(argv: seq<string>, i: nat, o: Options, flag: string)
    requires i <= |argv| && Scan(argv, i, o) == Rejected(MissingValue(flag))
    ensures i < |argv| && (|argv| - i) % 2 == 1 && FlagValuePairs(argv[i..|argv| - 1])
    decreases |argv| - i
  {
    if i + 1 < |argv| {
      var f, v := argv[i], argv[i + 1];
      assert IsFlag(f);
      var next := Assign(o, f, v);
      assert Scan(argv, i + 2, next) == Scan(argv, i, o);
      MissingValuePairs(argv, i + 2, next, flag);
      OddPlusTwo(|argv| - (i + 2));
      var rest := argv[i + 2..|argv| - 1];
      SplitPairBefore(argv, i, |argv| - 1);
      PairsPrepend(f, v, rest);
      assert FlagValuePairs([f, v] + rest);
    } else {
      assert argv[i..|argv| - 1] == [];
    }
  }

  lemma OddPlusTwo(n: int)
    requires n % 2 == 1
    ensures (n + 2) % 2 == 1
  { }

  lemma {:induction false} ScanRejectsUnknown(argv: seq<string>, i: nat, o: Options, arg: string)
    requires i <= |argv| && Scan(argv, i, o) == Rejected(UnknownArgument(arg))
    ensures var args := argv[i..];
      exists j | 0 <= j < |args| && j % 2 == 0 ::
        args[j] == arg && !IsFlag(arg) && FlagValuePairs(args[..j])
    decreases |argv| - i
  {
    var args := argv[i..];
    if !IsFlag(argv[i]) {
      assert args[0] == argv[i] && args[..0] == [];
    } else {
      ScanRejectsUnknown(argv, i + 2, Assign(o, argv[i], argv[i + 1]), arg);
      var rest := argv[i + 2..];
      SplitPair(argv, i);
      var j :| 0 <= j < |rest| && j % 2 == 0 && rest[j] == arg && !IsFlag(arg)
               && FlagValuePairs(rest[..j]);
      assert args[..j + 2] == [argv[i], argv[i + 1]] + rest[..j];
      PairsPrepend(argv[i], argv[i + 1], rest[..j]);
      assert args[j + 2] == rest[j];
    }
  }

  /** The arguments from `i` on are a flag/value pair and what follows it. */
  lemma SplitPair<T>(argv: seq<T>, i: nat)
    requires i + 2 <= |argv|
    ensures argv[i..] == [argv[i], argv[i + 1]] + argv[i + 2..]
  {
  }

  /** The same, for the arguments from `i` up to `j`. */
  lemma SplitPairBefore<T>(argv: seq<T>, i: nat, j: nat)
    requires i + 2 <= j <= |argv|
    ensures argv[i..j] == [argv[i], argv[i + 1]] + argv[i + 2..j]
  {
  }

  lemma PairsPrepend(f: string, v: string, rest: seq<string>)
    requires IsFlag(f) && FlagValuePairs(rest)
    ensures FlagValuePairs([f, v] + rest)
  {
    assert ([f, v] + rest)[2..] == rest;
  }
}
