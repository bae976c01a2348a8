/**
 * The `oakpal` command line: arguments are read left to right into an options builder, a flag spelled
 * `--no-x` or `+x` negating the flag `--x` or `-x`; the scan's exit code is chosen from the most severe
 * violation reported, when it is severe enough to fail the build.
 */
module CliCommand {
  import opened Wrappers
  import opened JavaResult
  import opened Violations
  import JavaString
  import Seqs

  const ExitGeneralError: int := 1
  const ExitAbortedScan: int := 9
  const ExitSevereViolation: int := 10
  const ExitMajorViolation: int := 11
  const ExitMinorViolation: int := 12

  /**
   * `flipOpt`: the positive spelling of a negated option, `--no-x` giving `--x` and `+x` giving `-x`; none
   * for an option that is not negated.
   */
  function FlipOpt(wholeOpt: string): (r: Option<string>)
    ensures r.Some? <==> JavaString.StartsWith(wholeOpt, "--no-") || JavaString.StartsWith(wholeOpt, "+")
    ensures r.Some? ==> (JavaString.StartsWith(r.value, "--") && wholeOpt == "--no-" + r.value[2..]) ||
                        (JavaString.StartsWith(r.value, "-") && wholeOpt == "+" + r.value[1..])
  {
    if JavaString.StartsWith(wholeOpt, "--no-") then
      assert wholeOpt == "--no-" + wholeOpt[5..];
      Some("--" + wholeOpt[5..])
    else if JavaString.StartsWith(wholeOpt, "+") then
      assert wholeOpt == "+" + wholeOpt[1..];
      Some("-" + wholeOpt[1..])
    else None
  }

  /** Negating the long or the short spelling of an option gives that spelling back. */
  lemma FlipOptNegations(name: string)
    ensures FlipOpt("--no-" + name) == Some("--" + name)
    ensures FlipOpt("+" + name) == Some("-" + name)
    ensures !JavaString.StartsWith(name, "+") && !JavaString.StartsWith(name, "--no-") ==> FlipOpt(name) == None
  {
    assert ("--no-" + name)[..5] == "--no-" && ("--no-" + name)[5..] == name;
    assert ("+" + name)[..1] == "+" && ("+" + name)[1..] == name;
    assert !JavaString.StartsWith("+" + name, "--no-") by {
      assert ("+" + name)[0] == '+';
    }
  }

  /** An option spelled with a leading `-` that is not `--no-...` is not negated. */
  lemma NotNegated(opt: string)
    requires |opt| >= 1 && opt[0] == '-' && !JavaString.StartsWith(opt, "--no-")
    ensures FlipOpt(opt) == None
  {
    assert !JavaString.StartsWith(opt, "+") by {
      assert opt[..1][0] == '-';
    }
  }

  /** The options the command line sets. */
  datatype Flag =
    | Help | Version | StoreBlobs | OpearFile | CacheDir | OutFile | OutputJson | Hooks | Plan | PlanFile
    | PlanFileBase | PreInstallFile | RepoInitFile | RunModes | ExtendClassPath | SeverityFail

  /** The spellings of the options. */
  const Spellings: map<string, Flag> := map[
    "-h" := Help, "--help" := Help,
    "-v" := Version, "--version" := Version,
    "-b" := StoreBlobs, "--store-blobs" := StoreBlobs,
    "-f" := OpearFile, "--file" := OpearFile,
    "-c" := CacheDir, "--cache" := CacheDir,
    "-o" := OutFile, "--outfile" := OutFile,
    "-j" := OutputJson, "--json" := OutputJson,
    "--hooks" := Hooks,
    "-p" := Plan, "--plan" := Plan,
    "-pf" := PlanFile, "--plan-file" := PlanFile,
    "--plan-file-base" := PlanFileBase,
    "-pi" := PreInstallFile, "--pre-install-file" := PreInstallFile,
    "-ri" := RepoInitFile, "--repoinit-file" := RepoInitFile,
    "-r" := RunModes, "--run-modes" := RunModes,
    "-xp" := ExtendClassPath, "--extend-classpath" := ExtendClassPath,
    "-s" := SeverityFail, "--severity-fail" := SeverityFail]

  /** The option a (positive) spelling names. */
  function FlagOf(opt: string): Option<Flag> {
    if opt in Spellings then Some(Spellings[opt]) else None
  }

  /** The options whose positive form reads the next argument as its value. */
  predicate TakesValue(flag: Flag) {
    !(flag.Help? || flag.Version? || flag.StoreBlobs? || flag.OutputJson? || flag.Hooks?)
  }

  /** What the options builder holds; paths are resolved against the working directory. */
  datatype Settings = Settings(
    justHelp: bool,
    justVersion: bool,
    storeBlobs: bool,
    outputJson: bool,
    noPlan: bool,
    noHooks: bool,
    noRunModes: bool,
    planName: Option<string>,
    planFile: Option<string>,
    planFileBaseDir: Option<string>,
    outFile: Option<string>,
    cacheDir: Option<string>,
    opearFile: Option<string>,
    preInstallFiles: seq<string>,
    repoInitFiles: seq<string>,
    extendedClassPathFiles: seq<string>,
    runModes: seq<string>,
    scanFiles: seq<string>,
    failOnSeverity: Option<Severity>)

  /** A new `Options.Builder`. */
  const NewBuilder: Settings :=
    Settings(false, false, false, false, false, false, false, None, None, None, None, None, None,
             [], [], [], [], [], None)

  /**
   * The console and the library calls `parseArgs` relies on: resolving a path against the working directory,
   * whether a path is a regular file, and `Severity.byName`.
   */
  datatype Env = Env(resolve: string -> string, isFile: string -> bool, severityByName: string -> Result<Severity>)

  /** The builder after a negated option: its value cleared or its switch turned off. */
  function Negated(s: Settings, flag: Flag): (r: Settings)
    ensures r.scanFiles == s.scanFiles
  {
    match flag
    case Help => s.(justHelp := false)
    case Version => s.(justVersion := false)
    case StoreBlobs => s.(storeBlobs := false)
    case OpearFile => s.(opearFile := None)
    case CacheDir => s.(cacheDir := None)
    case OutFile => s.(outFile := None)
    case OutputJson => s.(outputJson := false)
    case Hooks => s.(noHooks := true)
    case Plan => s.(noPlan := true, planName := None)
    case PlanFile => s.(planFile := None)
    case PlanFileBase => s.(planFileBaseDir := None)
    case PreInstallFile => s.(preInstallFiles := [])
    case RepoInitFile => s.(repoInitFiles := [])
    case RunModes => s.(noRunModes := true, runModes := [])
    case ExtendClassPath => s.(extendedClassPathFiles := [])
    case SeverityFail => s.(failOnSeverity := None)
  }

  /** The builder after a positive switch. */
  function Switched(s: Settings, flag: Flag): (r: Settings)
    requires !TakesValue(flag)
    ensures r.scanFiles == s.scanFiles
  {
    match flag
    case Help => s.(justHelp := true)
    case Version => s.(justVersion := true)
    case StoreBlobs => s.(storeBlobs := true)
    case OutputJson => s.(outputJson := true)
    case Hooks => s.(noHooks := false)
  }

  /** `--run-modes`: the comma-separated names, trimmed, the blank ones dropped. */
  function RunModeList(value: string): (r: seq<string>)
    ensures forall i :: 0 <= i < |r| ==> r[i] != "" && ',' !in r[i]
  {
    JavaString.TrimmedPieces(value, ',')
  }

  /** The builder after an option given its value, or the error `Severity.byName` gave. */
  function WithValue(env: Env, s: Settings, flag: Flag, value: string): (r: Result<Settings>)
    requires TakesValue(flag)
    ensures r.Success? ==> r.value.scanFiles == s.scanFiles
  {
    match flag
    case OpearFile => Success(s.(opearFile := Some(env.resolve(value))))
    case CacheDir => Success(s.(cacheDir := Some(env.resolve(value))))
    case OutFile => Success(s.(outFile := Some(env.resolve(value))))
    case Plan => Success(s.(noPlan := false, planName := Some(value)))
    case PlanFile => Success(s.(planFile := Some(env.resolve(value))))
    case PlanFileBase => Success(s.(planFileBaseDir := Some(env.resolve(value))))
    case PreInstallFile => Success(s.(preInstallFiles := s.preInstallFiles + [env.resolve(value)]))
    case RepoInitFile => Success(s.(repoInitFiles := s.repoInitFiles + [env.resolve(value)]))
    case RunModes => Success(s.(noRunModes := false, runModes := RunModeList(value)))
    case ExtendClassPath =>
      Success(s.(extendedClassPathFiles := s.extendedClassPathFiles + [env.resolve(value)]))
    case SeverityFail =>
      match env.severityByName(value)
      case Success(severity) => Success(s.(failOnSeverity := Some(severity)))
      case Failure(e) => Failure(e)
  }

  /**
   * How reading the arguments ends: with the builder, with a failure `parseArgs` returns, or with the
   * exception it throws when an option's value is missing.
   */
  datatype Outcome = Parsed(settings: Settings) | Failed(error: Exception) | Thrown(exception: Exception)

  /** One argument read: the next index and builder, or the end. */
  datatype Step = Continue(next: nat, settings: Settings) | Stop(outcome: Outcome)

  /** `"%s is not a file."` */
  function NotAFile(wholeOpt: string): Exception {
    FailureOf<Settings>(wholeOpt + " is not a file.").error
  }

  /** One argument read: whether it consumed the value after it, and the builder; or the end. */
  datatype ArgStep = Next(usedValue: bool, settings: Settings) | Halt(outcome: Outcome)

  /**
   * Reading one argument, given the argument after it if there is one: an option (negated or not, with its
   * value) or a file to scan.
   */
  function ReadOne(env: Env, wholeOpt: string, value: Option<string>, s: Settings): (r: ArgStep)
    ensures r.Next? && r.usedValue ==> value.Some?
  {
    var flipped := FlipOpt(wholeOpt);
    var opt := if flipped.Some? then flipped.value else wholeOpt;
    match FlagOf(opt)
    case None =>
      var scanFile := env.resolve(wholeOpt);
      if !env.isFile(scanFile) then Halt(Failed(NotAFile(wholeOpt)))
      else Next(false, s.(scanFiles := s.scanFiles + [scanFile]))
    case Some(flag) =>
      if flipped.Some? then Next(false, Negated(s, flag))
      else if !TakesValue(flag) then Next(false, Switched(s, flag))
      else if value.None? then Halt(Thrown(Exception("ArrayIndexOutOfBoundsException", "")))
      else
        match WithValue(env, s, flag, value.value)
        case Success(s') => Next(true, s')
        case Failure(e) => Halt(Failed(e))
  }

  /** The argument after index `i`, if any. */
  function ValueAfter(args: seq<string>, i: nat): Option<string> {
    if i + 1 < |args| then Some(args[i + 1]) else None
  }

  /** A way of reading one argument given the one after it, as `ReadOne` does for an environment. */
  type Reader = (string, Option<string>, Settings) -> ArgStep

  function ReaderOf(env: Env): Reader {
    (wholeOpt: string, value: Option<string>, s: Settings) => ReadOne(env, wholeOpt, value, s)
  }

  /** The argument at `i`, read. */
  function ReadArg(read: Reader, args: seq<string>, i: nat, s: Settings): (r: Step)
    requires i < |args|
    ensures r.Continue? ==> i < r.next <= |args|
  {
    match read(args[i], ValueAfter(args, i), s)
    case Next(usedValue, s') => Continue(if usedValue && i + 1 < |args| then i + 2 else i + 1, s')
    case Halt(outcome) => Stop(outcome)
  }

  /** The arguments from `i` on, read into the builder `s`. */
  function ParseFrom(read: Reader, args: seq<string>, i: nat, s: Settings): Outcome
    requires i <= |args|
    decreases |args| - i
  {
    if i == |args| then Parsed(s)
    else
      match ReadArg(read, args, i, s)
      case Continue(next, s') => ParseFrom(read, args, next, s')
      case Stop(outcome) => outcome
  }

  /** Every file to scan is a regular file. */
  predicate ScansFiles(env: Env, s: Settings) {
    forall f :: f in s.scanFiles ==> env.isFile(f)
  }

  /** Reading one argument adds only regular files to the files to scan, and throws only for a missing value. */
  lemma ReadOneScansFiles(env: Env, wholeOpt: string, value: Option<string>, s: Settings)
    requires ScansFiles(env, s)
    ensures ReadOne(env, wholeOpt, value, s).Next? ==> ScansFiles(env, ReadOne(env, wholeOpt, value, s).settings)
    ensures ReadOne(env, wholeOpt, value, s).Halt? && ReadOne(env, wholeOpt, value, s).outcome.Thrown? ==>
      ReadOne(env, wholeOpt, value, s).outcome.exception.className == "ArrayIndexOutOfBoundsException"
  {
  }

  /** Reading the arguments from `i` on keeps every file to scan a regular file. */
  lemma {:induction false} ParseFromScansFiles(env: Env, args: seq<string>, i: nat, s: Settings)
    requires i <= |args| && ScansFiles(env, s)
    ensures ParseFrom(ReaderOf(env), args, i, s).Parsed? ==> ScansFiles(env, ParseFrom(ReaderOf(env), args, i, s).settings)
    ensures ParseFrom(ReaderOf(env), args, i, s).Thrown? ==>
      ParseFrom(ReaderOf(env), args, i, s).exception.className == "ArrayIndexOutOfBoundsException"
    decreases |args| - i
  {
    if i < |args| {
      assert ReaderOf(env)(args[i], ValueAfter(args, i), s) == ReadOne(env, args[i], ValueAfter(args, i), s);
      ReadOneScansFiles(env, args[i], ValueAfter(args, i), s);
      match ReadArg(ReaderOf(env), args, i, s)
      case Continue(next, s') =>
        ParseFromScansFiles(env, args, next, s');
      case Stop(_) =>
    }
  }

  /**
   * `parseArgs`, up to the builder it builds the options from: no arguments give the new builder, every
   * file it is to scan is a regular file, and the only exception it throws is for an option's missing value.
   */
  function ParseArgs(env: Env, args: seq<string>): (r: Outcome)
    ensures args == [] ==> r == Parsed(NewBuilder)
    ensures r.Parsed? ==> forall f :: f in r.settings.scanFiles ==> env.isFile(f)
    ensures r.Thrown? ==> r.exception.className == "ArrayIndexOutOfBoundsException"
  {
    ParseFromScansFiles(env, args, 0, NewBuilder);
    ParseFrom(ReaderOf(env), args, 0, NewBuilder)
  }

  /** `parseArgs`: the index loop over the arguments, an option with a value consuming the next one. */
  method ParseArgsLoop(env: Env, args: seq<string>) returns (r: Outcome)
    ensures r == ParseArgs(env, args)
  {
    var builder := NewBuilder;
    var i := 0;
    while i < |args|
      invariant 0 <= i <= |args|
      invariant ParseFrom(ReaderOf(env), args, i, builder) == ParseArgs(env, args)
      decreases |args| - i
    {
      var step := ReadArgAt(env, args, i, builder);
      match step
      case Stop(outcome) =>
        return outcome;
      case Continue(next, updated) =>
        i, builder := next, updated;
    }
    r := Parsed(builder);
  }

  /** One pass of `parseArgs`' loop: the argument at `i` read into the builder, with the value after it if it takes one. */
  method ReadArgAt(env: Env, args: seq<string>, i: nat, builder: Settings) returns (step: Step)
    requires i < |args|
    ensures step == ReadArg(ReaderOf(env), args, i, builder)
  {
    var wholeOpt := args[i];
    assert ReaderOf(env)(wholeOpt, ValueAfter(args, i), builder) == ReadOne(env, wholeOpt, ValueAfter(args, i), builder);
    var flipped := FlipOpt(wholeOpt);
    var isNoOpt := flipped.Some?;
    var opt := if isNoOpt then flipped.value else wholeOpt;
    var flag := FlagOf(opt);
    if flag.None? {
      var scanFile := env.resolve(wholeOpt);
      if !env.isFile(scanFile) {
        return Stop(Failed(NotAFile(wholeOpt)));
      }
      step := Continue(i + 1, builder.(scanFiles := builder.scanFiles + [scanFile]));
    } else if isNoOpt {
      step := Continue(i + 1, Negated(builder, flag.value));
    } else if !TakesValue(flag.value) {
      step := Continue(i + 1, Switched(builder, flag.value));
    } else {
      var j := i + 1;
      if j >= |args| {
        return Stop(Thrown(Exception("ArrayIndexOutOfBoundsException", "")));
      }
      var updated := WithValue(env, builder, flag.value, args[j]);
      if updated.Failure? {
        return Stop(Failed(updated.error));
      }
      step := Continue(j + 1, updated.value);
    }
  }

  /** An argument that neither uses nor lacks the value after it reads the same whatever that value is. */
  lemma ReadOneIgnoresUnused(env: Env, wholeOpt: string, value: Option<string>, s: Settings)
    requires !(ReadOne(env, wholeOpt, None, s).Halt? && ReadOne(env, wholeOpt, None, s).outcome.Thrown?)
    ensures ReadOne(env, wholeOpt, value, s) == ReadOne(env, wholeOpt, None, s)
  {
  }

  /** Reading an argument sees only it and the value after it. */
  lemma ReadArgPrefix(env: Env, a: seq<string>, b: seq<string>, i: nat, s: Settings)
    requires i < |a|
    requires !(ReadArg(ReaderOf(env), a, i, s).Stop? && ReadArg(ReaderOf(env), a, i, s).outcome.Thrown?)
    ensures ReadArg(ReaderOf(env), a + b, i, s) == ReadArg(ReaderOf(env), a, i, s)
  {
    var read := ReaderOf(env);
    assert (a + b)[i] == a[i];
    if i + 1 < |a| {
      assert (a + b)[i + 1] == a[i + 1];
      assert ValueAfter(a + b, i) == ValueAfter(a, i);
    } else {
      assert read(a[i], ValueAfter(a, i), s) == ReadOne(env, a[i], None, s);
      assert read(a[i], ValueAfter(a + b, i), s) == ReadOne(env, a[i], ValueAfter(a + b, i), s);
      ReadOneIgnoresUnused(env, a[i], ValueAfter(a + b, i), s);
    }
  }

  /**
   * Arguments read in two runs: when the first ends with a builder, the second continues from it; when it
   * ends with a failure, that failure is the answer.
   */
  lemma {:induction false} ParseAppend(env: Env, a: seq<string>, b: seq<string>, i: nat, s: Settings)
    requires i <= |a|
    ensures ParseFrom(ReaderOf(env), a, i, s).Parsed? ==>
      ParseFrom(ReaderOf(env), a + b, i, s) == ParseFrom(ReaderOf(env), b, 0, ParseFrom(ReaderOf(env), a, i, s).settings)
    ensures ParseFrom(ReaderOf(env), a, i, s).Failed? ==>
      ParseFrom(ReaderOf(env), a + b, i, s) == ParseFrom(ReaderOf(env), a, i, s)
    decreases |a| - i
  {
    var read := ReaderOf(env);
    if i == |a| {
      ParseShift(read, a, b, 0, s);
    } else {
      var step := ReadArg(read, a, i, s);
      if !(step.Stop? && step.outcome.Thrown?) {
        ReadArgPrefix(env, a, b, i, s);
        if step.Continue? {
          ParseAppend(env, a, b, step.next, step.settings);
        }
      }
    }
  }

  /** Reading `b` from `j` on gives the same as reading `a + b` from `|a| + j` on. */
  lemma {:induction false} ParseShift(read: Reader, a: seq<string>, b: seq<string>, j: nat, s: Settings)
    requires j <= |b|
    ensures ParseFrom(read, a + b, |a| + j, s) == ParseFrom(read, b, j, s)
    decreases |b| - j
  {
    if j < |b| {
      var ab := a + b;
      assert ab[|a| + j] == b[j];
      if |a| + j + 1 < |ab| {
        assert ab[|a| + j + 1] == b[j + 1];
      }
      assert ValueAfter(ab, |a| + j) == ValueAfter(b, j);
      var step := ReadArg(read, b, j, s);
      if step.Continue? {
        assert ReadArg(read, ab, |a| + j, s) == Continue(|a| + step.next, step.settings);
        ParseShift(read, a, b, step.next, step.settings);
      } else {
        assert ReadArg(read, ab, |a| + j, s) == step;
      }
    }
  }

  /** Arguments after ones that read into a builder are read on from that builder. */
  lemma ParseThen(env: Env, args: seq<string>, tail: seq<string>)
    requires ParseArgs(env, args).Parsed?
    ensures ParseArgs(env, args + tail) == ParseFrom(ReaderOf(env), tail, 0, ParseArgs(env, args).settings)
  {
    ParseAppend(env, args, tail, 0, NewBuilder);
  }

  /** A single argument, read. */
  lemma ParseOne(read: Reader, arg: string, s: Settings)
    ensures ParseFrom(read, [arg], 0, s) ==
      match read(arg, None, s) case Next(_, s') => Parsed(s') case Halt(o) => o
  {
  }

  /** An option and the argument after it, read, when the option uses it as its value. */
  lemma ParseWithValue(read: Reader, arg: string, value: string, s: Settings)
    requires read(arg, Some(value), s).Halt? || read(arg, Some(value), s).usedValue
    ensures ParseFrom(read, [arg, value], 0, s) ==
      match read(arg, Some(value), s) case Next(_, s') => Parsed(s') case Halt(o) => o
  {
    assert ValueAfter([arg, value], 0) == Some(value);
  }

  /** A positive switch turns its setting on (for `--hooks`: hooks are not disabled), whatever the value after it. */
  lemma ReadSwitch(env: Env, opt: string, value: Option<string>, s: Settings, flag: Flag)
    requires FlipOpt(opt).None? && FlagOf(opt) == Some(flag) && !TakesValue(flag)
    ensures ReadOne(env, opt, value, s) == Next(false, Switched(s, flag))
  {
  }

  /** A negated option clears its setting, whatever the value after it. */
  lemma ReadNegated(env: Env, opt: string, value: Option<string>, s: Settings, flag: Flag)
    requires FlipOpt(opt).Some? && FlagOf(FlipOpt(opt).value) == Some(flag)
    ensures ReadOne(env, opt, value, s) == Next(false, Negated(s, flag))
  {
  }

  /**
   * A later switch overrides whatever the earlier arguments set: its positive spelling turns it on, its
   * negated spellings turn it off, and nothing else changes.
   */
  lemma LaterSwitchOverrides(env: Env, args: seq<string>, opt: string, flag: Flag)
    requires ParseArgs(env, args).Parsed?
    requires FlipOpt(opt).None? && FlagOf(opt) == Some(flag) && !TakesValue(flag)
    ensures ParseArgs(env, args + [opt]) == Parsed(Switched(ParseArgs(env, args).settings, flag))
    ensures JavaString.StartsWith(opt, "--") ==>
      ParseArgs(env, args + ["--no-" + opt[2..]]) == Parsed(Negated(ParseArgs(env, args).settings, flag))
    ensures JavaString.StartsWith(opt, "-") && !JavaString.StartsWith(opt, "--") ==>
      ParseArgs(env, args + ["+" + opt[1..]]) == Parsed(Negated(ParseArgs(env, args).settings, flag))
  {
    var s := ParseArgs(env, args).settings;
    var read := ReaderOf(env);
    ParseThen(env, args, [opt]);
    ParseOne(read, opt, s);
    ReadSwitch(env, opt, None, s, flag);
    if JavaString.StartsWith(opt, "--") {
      var negated := "--no-" + opt[2..];
      FlipOptNegations(opt[2..]);
      assert "--" + opt[2..] == opt;
      ParseThen(env, args, [negated]);
      ParseOne(read, negated, s);
      ReadNegated(env, negated, None, s, flag);
    }
    if JavaString.StartsWith(opt, "-") && !JavaString.StartsWith(opt, "--") {
      var negated := "+" + opt[1..];
      FlipOptNegations(opt[1..]);
      assert "-" + opt[1..] == opt;
      ParseThen(env, args, [negated]);
      ParseOne(read, negated, s);
      ReadNegated(env, negated, None, s, flag);
    }
  }

  /** The spellings of `--store-blobs`. */
  lemma StoreBlobsSpellings()
    ensures FlipOpt("-b") == None && FlagOf("-b") == Some(StoreBlobs)
    ensures FlipOpt("--store-blobs") == None && FlagOf("--store-blobs") == Some(StoreBlobs)
    ensures "+" + "-b"[1..] == "+b" && !JavaString.StartsWith("-b", "--")
    ensures "--no-" + "--store-blobs"[2..] == "--no-store-blobs" && JavaString.StartsWith("--store-blobs", "--")
  {
    NotNegated("-b");
    assert !JavaString.StartsWith("-b", "--") by {
      assert "-b"[..2][1] == 'b';
    }
    assert !JavaString.StartsWith("--store-blobs", "--no-") by {
      assert "--store-blobs"[..5][2] == 's';
    }
    NotNegated("--store-blobs");
  }

  /** `-b` after any arguments stores blobs, `+b` and `--no-store-blobs` do not. */
  lemma StoreBlobsLastWins(env: Env, args: seq<string>)
    requires ParseArgs(env, args).Parsed?
    ensures ParseArgs(env, args + ["-b"]).Parsed? && ParseArgs(env, args + ["-b"]).settings.storeBlobs
    ensures ParseArgs(env, args + ["+b"]).Parsed? && !ParseArgs(env, args + ["+b"]).settings.storeBlobs
    ensures ParseArgs(env, args + ["--no-store-blobs"]).Parsed? &&
      !ParseArgs(env, args + ["--no-store-blobs"]).settings.storeBlobs
  {
    StoreBlobsSpellings();
    LaterSwitchOverrides(env, args, "-b", StoreBlobs);
    LaterSwitchOverrides(env, args, "--store-blobs", StoreBlobs);
  }

  /** An unknown severity makes reading fail with the error `Severity.byName` gave. */
  lemma UnknownSeverityFails(env: Env, args: seq<string>, value: string)
    requires ParseArgs(env, args).Parsed? && env.severityByName(value).Failure?
    ensures ParseArgs(env, args + ["-s", value]) == Failed(env.severityByName(value).error)
  {
    var s := ParseArgs(env, args).settings;
    NotNegated("-s");
    assert FlagOf("-s") == Some(SeverityFail);
    assert ReadOne(env, "-s", Some(value), s) == Halt(Failed(env.severityByName(value).error));
    ParseThen(env, args, ["-s", value]);
    ParseWithValue(ReaderOf(env), "-s", value, s);
  }

  /** An option whose value is missing throws. */
  lemma MissingValueThrows(env: Env, args: seq<string>)
    requires ParseArgs(env, args).Parsed?
    ensures ParseArgs(env, args + ["-s"]).Thrown?
  {
    var s := ParseArgs(env, args).settings;
    NotNegated("-s");
    assert FlagOf("-s") == Some(SeverityFail);
    assert ReadOne(env, "-s", None, s).Halt?;
    ParseThen(env, args, ["-s"]);
    ParseOne(ReaderOf(env), "-s", s);
  }

  /**
   * An argument that is no option is a file to scan: reading fails when it names no file, and otherwise adds
   * it to the scan files.
   */
  lemma ScanFileArgument(env: Env, args: seq<string>, arg: string)
    requires ParseArgs(env, args).Parsed? && FlipOpt(arg).None? && FlagOf(arg).None?
    ensures !env.isFile(env.resolve(arg)) ==> ParseArgs(env, args + [arg]) == Failed(NotAFile(arg))
    ensures env.isFile(env.resolve(arg)) ==>
      ParseArgs(env, args + [arg]).Parsed? &&
      ParseArgs(env, args + [arg]).settings.scanFiles == ParseArgs(env, args).settings.scanFiles + [env.resolve(arg)]
  {
    ParseThen(env, args, [arg]);
    ParseOne(ReaderOf(env), arg, ParseArgs(env, args).settings);
  }

  /** The severities of some violations, in order. */
  function Severities(violations: seq<Violation>): (r: seq<Severity>)
    ensures forall s :: s in r <==> exists v :: v in violations && v.severity == s
  {
    var r := seq(|violations|, j requires 0 <= j < |violations| => violations[j].severity);
    assert forall s :: s in r ==> exists v :: v in violations && v.severity == s by {
      forall s | s in r
        ensures exists v :: v in violations && v.severity == s
      {
        var j :| 0 <= j < |r| && r[j] == s;
        assert violations[j] in violations;
      }
    }
    assert forall v :: v in violations ==> v.severity in r by {
      forall v | v in violations
        ensures v.severity in r
      {
        var j :| 0 <= j < |violations| && violations[j] == v;
        assert r[j] == v.severity;
      }
    }
    r
  }

  /** Every severity in the reports, report by report. */
  function ReportSeverities(reports: seq<CheckReport>): (r: seq<Severity>)
    ensures forall s :: s in r <==> exists i :: 0 <= i < |reports| && s in Severities(reports[i].violations)
  {
    var each := seq(|reports|, i requires 0 <= i < |reports| => Severities(reports[i].violations));
    var r := Seqs.Flatten(each);
    assert forall i, s :: 0 <= i < |reports| && s in Severities(reports[i].violations) ==> s in r by {
      forall i, s | 0 <= i < |reports| && s in Severities(reports[i].violations)
        ensures s in r
      {
        var k :| 0 <= k < |each[i]| && each[i][k] == s;
      }
    }
    r
  }

  /** `reduce(Severity::maxSeverity)`: the most severe of the severities, none when there are none. */
  function MaxSeverity(severities: seq<Severity>): (r: Option<Severity>)
    ensures r.None? <==> |severities| == 0
    ensures r.Some? ==> r.value in severities && forall s :: s in severities ==> s.Rank() <= r.value.Rank()
  {
    if |severities| == 0 then None
    else
      match MaxSeverity(severities[..|severities| - 1])
      case None =>
        assert severities == [severities[0]];
        Some(severities[0])
      case Some(m) =>
        assert severities == severities[..|severities| - 1] + [severities[|severities| - 1]];
        Some(m.Max(severities[|severities| - 1]))
  }

  /**
   * The exit code for the most severe violation: the codes run from 10 down to 12 as the severity falls, and
   * none of them is the code of success, of an error or of an aborted scan.
   */
  function ExitCodeFor(severity: Severity): (r: int)
    ensures r == ExitMinorViolation - severity.Rank()
    ensures r !in {0, ExitGeneralError, ExitAbortedScan}
  {
    match severity
    case Severe => ExitSevereViolation
    case Major => ExitMajorViolation
    case Minor => ExitMinorViolation
  }

  /**
   * `getHighestReportSeverity`: an exit code exactly when some violation meets the severity to fail on, and
   * then the code of the most severe violation.
   */
  function HighestReportSeverity(failOnSeverity: Severity, reports: seq<CheckReport>): (r: Option<int>)
    ensures r.Some? <==> exists s :: s in ReportSeverities(reports) && s.Meets(failOnSeverity)
    ensures r.Some? ==>
      exists m :: m in ReportSeverities(reports) && r.value == ExitCodeFor(m) &&
        forall s :: s in ReportSeverities(reports) ==> s.Rank() <= m.Rank()
  {
    HighestCodeProperties(failOnSeverity, ReportSeverities(reports));
    HighestCode(failOnSeverity, ReportSeverities(reports))
  }

  /** The exit code of the most severe of the severities when it meets the severity to fail on. */
  function HighestCode(failOnSeverity: Severity, severities: seq<Severity>): Option<int> {
    match MaxSeverity(severities)
    case None => None
    case Some(m) => if m.Meets(failOnSeverity) then Some(ExitCodeFor(m)) else None
  }

  lemma HighestCodeProperties(failOnSeverity: Severity, sevs: seq<Severity>)
    ensures HighestCode(failOnSeverity, sevs).Some? <==> exists s :: s in sevs && s.Meets(failOnSeverity)
    ensures HighestCode(failOnSeverity, sevs).Some? ==>
      exists m :: m in sevs && HighestCode(failOnSeverity, sevs).value == ExitCodeFor(m) &&
        forall s :: s in sevs ==> s.Rank() <= m.Rank()
  {
    var m := MaxSeverity(sevs);
    if exists s :: s in sevs && s.Meets(failOnSeverity) {
      var s :| s in sevs && s.Meets(failOnSeverity);
      assert m.Some? && s.Rank() <= m.value.Rank();
    }
  }

  /** The options `perform` acts on, once the builder built them. */
  datatype RunOptions = RunOptions(justHelp: bool, justVersion: bool, failOnSeverity: Severity)

  /**
   * `perform`: the exit code of a run, from the options (or the failure to read them) and the outcome of the
   * scan they describe.
   */
  function PerformExitCode(opts: Result<RunOptions>, scan: Result<seq<CheckReport>>): int {
    match opts
    case Failure(_) => ExitGeneralError
    case Success(o) =>
      if o.justHelp || o.justVersion then 0
      else
        match scan
        case Failure(_) => ExitAbortedScan
        case Success(reports) =>
          match HighestReportSeverity(o.failOnSeverity, reports)
          case Some(code) => code
          case None => 0
  }

  /**
   * A run succeeds with code 0 exactly when it only prints help or the version, or its scan finds nothing
   * severe enough to fail on; bad options give 1, an aborted scan 9, and a failing scan the code of its most
   * severe violation.
   */
  lemma PerformExitCodes(opts: Result<RunOptions>, scan: Result<seq<CheckReport>>)
    ensures PerformExitCode(opts, scan) in {0, 1, 9, 10, 11, 12}
    ensures PerformExitCode(opts, scan) == ExitGeneralError <==> opts.Failure?
    ensures PerformExitCode(opts, scan) == ExitAbortedScan <==>
      opts.Success? && !opts.value.justHelp && !opts.value.justVersion && scan.Failure?
    ensures PerformExitCode(opts, scan) == 0 <==>
      opts.Success? && (opts.value.justHelp || opts.value.justVersion ||
                        (scan.Success? &&
                         forall s :: s in ReportSeverities(scan.value) ==> !s.Meets(opts.value.failOnSeverity)))
  {
    if opts.Success? && scan.Success? {
    }
  }
}
