/**
  The grading bookkeeping of the autojudge (01-Autojudge/autojudge.c): checking the
  command-line options, checking that a directory holds regular files, grading one
  finished run of the submitted program by its wait status and by comparing its output
  with the answer file chunk by chunk, and the millisecond arithmetic of the running
  time.  The child process, its pipes, the timer and the compiler are not modelled: a
  run is given as its wait status, the chunks its output arrived in, the reads of the
  answer file and the two time stamps.
*/
module Autojudge {
  import opened Wrappers
  import opened Decimal

  /** The size of the name buffers of `config_t`. */
  const NAMELEN := 1024
  /** The size of the read buffers. */
  const BUFSIZE := 1024

  // ---------------------------------------------------------------------------
  // Command-line options
  // ---------------------------------------------------------------------------

  /** The option letters `getopt` returns for the option string "i:a:t:"; `Unknown` is its '?'. */
  datatype Flag = InputDir | AnswerDir | TimeLimit | Unknown

  /** One option as `getopt` hands it over: its letter and its argument. */
  datatype Opt = Opt(flag: Flag, arg: string)

  /** The fields of `config_t` that `parse_arg` fills in. */
  datatype Settings = Settings(inputDir: string, outputDir: string, timeLimit: int, target: string)

  /** `strncmp(s, prefix, |prefix|) == 0` for a C string `s`. */
  predicate StartsWith(s: string, prefix: string) {
    |prefix| <= |s| && s[..|prefix|] == prefix
  }

  /** The range of C's `int`. */
  const INT_MIN: int := -0x8000_0000
  const INT_MAX: int := 0x7FFF_FFFF
  /** The range of the 64-bit `long` that `strtol` returns. */
  const LONG_MIN: int := -0x8000_0000_0000_0000
  const LONG_MAX: int := 0x7FFF_FFFF_FFFF_FFFF

  /** `strtol` on a value out of the `long` range: the nearest end of the range. */
  function Saturate(v: int): (w: int)
    ensures LONG_MIN <= w <= LONG_MAX
    ensures LONG_MIN <= v <= LONG_MAX ==> w == v
    ensures v < LONG_MIN ==> w == LONG_MIN
    ensures LONG_MAX < v ==> w == LONG_MAX
  {
    if v < LONG_MIN then LONG_MIN else if LONG_MAX < v then LONG_MAX else v
  }

  /** The conversion of `v` to `int`: the low 32 bits, as a two's-complement value. */
  function Int32(v: int): (w: int)
    ensures INT_MIN <= w <= INT_MAX
    ensures INT_MIN <= v <= INT_MAX ==> w == v
    ensures INT_MAX < v <= INT_MAX + 0x1_0000_0000 ==> w == v - 0x1_0000_0000
  {
    (v - INT_MIN) % 0x1_0000_0000 + INT_MIN
  }

  /** The cast changes a value by a multiple of 2^32. */
  lemma Int32Congruent(v: int)
    ensures (Int32(v) - v) % 0x1_0000_0000 == 0
  {
    var d := v - INT_MIN;
    assert d == (d / 0x1_0000_0000) * 0x1_0000_0000 + d % 0x1_0000_0000;
    assert Int32(v) - v == -(d / 0x1_0000_0000) * 0x1_0000_0000;
  }

  /**
    glibc's `atoi`, `(int) strtol(s, NULL, 10)`: leading white space, an optional sign
    and digits, read as `%d` reads them, saturated to `long` and cut to `int`; 0 when
    there is no number.
  */
  function Atoi(s: string): (n: int)
    ensures INT_MIN <= n <= INT_MAX
  {
    match ScanInt(s).value
    case None => 0
    case Some(v) => Int32(Saturate(v))
  }

  /** `atoi` of the text of a number is that number saturated and cut to `int`. */
  lemma AtoiNumber(x: int)
    ensures Atoi(IntToString(x)) == Int32(Saturate(x))
  {
    assert IntToString(x) + [] == IntToString(x);
    ScanNumber(x, []);
  }

  /** `atoi` reads back the text of every `int`. */
  lemma AtoiText(x: int)
    requires INT_MIN <= x <= INT_MAX
    ensures Atoi(IntToString(x)) == x
  {
    AtoiNumber(x);
  }

  /**
    A time limit from 2^31 to 2^32 - 1 wraps to a negative `int`, so `-t 2147483648`
    gives `INT_MIN`.
  */
  lemma AtoiWraps(x: int)
    requires INT_MAX < x < 0x1_0000_0000
    ensures Atoi(IntToString(x)) == x - 0x1_0000_0000 < 0
  {
    AtoiNumber(x);
  }

  /**
    An option `parse_arg` accepts: a directory name shorter than `NAMELEN` that does not
    start with another option's flag, or a time limit that does not start with a
    directory flag.  Unknown options and missing arguments are refused.
  */
  predicate OptionValid(o: Opt) {
    match o.flag
    case InputDir => |o.arg| < NAMELEN && !StartsWith(o.arg, "-a") && !StartsWith(o.arg, "-t")
    case AnswerDir => |o.arg| < NAMELEN && !StartsWith(o.arg, "-i") && !StartsWith(o.arg, "-t")
    case TimeLimit => !StartsWith(o.arg, "-i") && !StartsWith(o.arg, "-a")
    case Unknown => false
  }

  /** The message `parse_arg` reports for a refused option. */
  function OptionError(o: Opt): string {
    match o.flag
    case InputDir => if |o.arg| >= NAMELEN then "directory name too long" else "check the name of the input directory"
    case AnswerDir => if |o.arg| >= NAMELEN then "directory name too long" else "check the name of the output directory"
    case TimeLimit => "check the time"
    case Unknown => "usage"
  }

  /** The effect of one accepted option on the settings. */
  function Apply(s: Settings, o: Opt): Settings {
    match o.flag
    case InputDir => s.(inputDir := o.arg)
    case AnswerDir => s.(outputDir := o.arg)
    case TimeLimit => s.(timeLimit := Atoi(o.arg))
    case Unknown => s
  }

  /** The argument of the last option with flag `f`, if there is one. */
  function LastArg(opts: seq<Opt>, f: Flag): (a: Option<string>)
    ensures a.Some? <==> exists i :: 0 <= i < |opts| && opts[i].flag == f
  {
    if opts == [] then None
    else if opts[|opts| - 1].flag == f then Some(opts[|opts| - 1].arg)
    else
      assert forall i :: 0 <= i < |opts| - 1 ==> opts[..|opts| - 1][i] == opts[i];
      LastArg(opts[..|opts| - 1], f)
  }

  function OrElse(a: Option<string>, default: string): string {
    if a.Some? then a.value else default
  }

  /** The time limit after the options: `atoi` of the last `-t` argument, if any. */
  function TimeOrElse(a: Option<string>, default: int): int {
    if a.Some? then Atoi(a.value) else default
  }

  /** The `getopt` loop of `parse_arg`: stop at the first refused option. */
  function ParseOptions(opts: seq<Opt>, s: Settings): (r: Result<Settings>)
    ensures r.Ok? <==> forall i :: 0 <= i < |opts| ==> OptionValid(opts[i])
    decreases |opts|
  {
    if opts == [] then Ok(s)
    else if !OptionValid(opts[0]) then Err(OptionError(opts[0]))
    else
      assert forall i :: 1 <= i < |opts| ==> opts[1..][i - 1] == opts[i];
      ParseOptions(opts[1..], Apply(s, opts[0]))
  }

  /** The last option with a given flag decides that setting. */
  lemma {:induction false} ParseOptionsLast(opts: seq<Opt>, s: Settings)
    requires ParseOptions(opts, s).Ok?
    ensures ParseOptions(opts, s).value == Settings(
      OrElse(LastArg(opts, InputDir), s.inputDir),
      OrElse(LastArg(opts, AnswerDir), s.outputDir),
      TimeOrElse(LastArg(opts, TimeLimit), s.timeLimit),
      s.target)
    decreases |opts|
  {
    if opts != [] {
      var o, rest := opts[0], opts[1..];
      var t := Apply(s, o);
      assert t.target == s.target;
      assert ParseOptions(opts, s) == ParseOptions(rest, t) by {
        assert OptionValid(o);
      }
      assert forall i :: 0 <= i < |rest| ==> OptionValid(rest[i]) by {
        assert forall i :: 0 <= i < |rest| ==> rest[i] == opts[i + 1];
      }
      ParseOptionsLast(rest, t);
      assert [o] + rest == opts;
      LastArgStep(o, rest, s);
    }
  }

  /** Applying `o` first and taking the last options of `rest` agrees with the last options of `[o] + rest`. */
  lemma LastArgStep(o: Opt, rest: seq<Opt>, s: Settings)
    ensures var t := Apply(s, o);
      && OrElse(LastArg([o] + rest, InputDir), s.inputDir) == OrElse(LastArg(rest, InputDir), t.inputDir)
      && OrElse(LastArg([o] + rest, AnswerDir), s.outputDir) == OrElse(LastArg(rest, AnswerDir), t.outputDir)
      && TimeOrElse(LastArg([o] + rest, TimeLimit), s.timeLimit) == TimeOrElse(LastArg(rest, TimeLimit), t.timeLimit)
  {
    LastArgCons(o, rest, InputDir);
    LastArgCons(o, rest, AnswerDir);
    LastArgCons(o, rest, TimeLimit);
  }

  /** The last option of `[o] + rest` with flag `f` is in `rest` unless `rest` has none. */
  lemma {:induction false} LastArgCons(o: Opt, rest: seq<Opt>, f: Flag)
    ensures LastArg([o] + rest, f) == if LastArg(rest, f).Some? then LastArg(rest, f)
                                      else if o.flag == f then Some(o.arg) else None
    decreases |rest|
  {
    var all := [o] + rest;
    if rest != [] {
      assert all[|all| - 1] == rest[|rest| - 1];
      assert all[..|all| - 1] == [o] + rest[..|rest| - 1];
      LastArgCons(o, rest[..|rest| - 1], f);
    }
  }

  /** `memcpy` of `NAMELEN` bytes and a terminator at `NAMELEN - 1`: at most 1023 characters. */
  function Truncate(s: string): (t: string)
    ensures |t| < NAMELEN && |t| <= |s|
    ensures t == s[..|t|]
    ensures t == [] <==> s == []
  {
    if |s| < NAMELEN then s else s[..NAMELEN - 1]
  }

  /**
    `parse_arg` over the options in the order `getopt` returns them and the operands left
    after them (`argv[optind..]`), starting from the settings `init`.
  */
  function ParseArgs(opts: seq<Opt>, operands: seq<string>, init: Settings): (r: Result<Settings>)
  {
    match ParseOptions(opts, init)
    case Err(msg) => Err(msg)
    case Ok(s) =>
      if |s.inputDir| == 0 || |s.outputDir| == 0 || s.timeLimit <= -1 then Err("missing required arguments")
      else if operands == [] then Err("usage")
      else
        var target := Truncate(operands[0]);
        if |target| == 0 then Err("missing target source file name")
        else if |target| > NAMELEN then Err("target name too long")
        else Ok(s.(target := target))
  }

  /**
    `parse_arg` succeeds exactly when every option is accepted, the last `-i` and `-a`
    (or the initial settings) give non-empty directories, the time limit is not negative
    and there is a non-empty target operand; the target is the first operand cut to
    1023 characters, so the check for a target longer than `NAMELEN` never fires.
  */
  lemma ParseArgsIff(opts: seq<Opt>, operands: seq<string>, init: Settings)
    ensures var r := ParseArgs(opts, operands, init);
      var inputDir := OrElse(LastArg(opts, InputDir), init.inputDir);
      var outputDir := OrElse(LastArg(opts, AnswerDir), init.outputDir);
      var timeLimit := TimeOrElse(LastArg(opts, TimeLimit), init.timeLimit);
      && (r.Ok? <==>
           && (forall i :: 0 <= i < |opts| ==> OptionValid(opts[i]))
           && inputDir != [] && outputDir != [] && timeLimit > -1
           && operands != [] && operands[0] != [])
      && (r.Ok? ==> r.value == Settings(inputDir, outputDir, timeLimit, Truncate(operands[0])))
  {
    if ParseOptions(opts, init).Ok? {
      ParseOptionsLast(opts, init);
    }
  }

  /** `-t` with a number from 2^31 to 2^32 - 1 is refused as a missing argument: it wraps to a negative limit. */
  lemma ParseArgsWrappedTime(x: int, operands: seq<string>, init: Settings)
    requires INT_MAX < x < 0x1_0000_0000
    ensures ParseArgs([Opt(TimeLimit, IntToString(x))], operands, init) == Err("missing required arguments")
  {
    var o := Opt(TimeLimit, IntToString(x));
    AtoiWraps(x);
    assert OptionValid(o);
    assert [o][1..] == [];
    assert ParseOptions([o], init) == Ok(init.(timeLimit := Atoi(o.arg)));
  }

  /** The configuration `parse_arg` fills in; a C global, so it starts zeroed. */
  class Config {
    var inputDir: string
    var outputDir: string
    var timeLimit: int
    var targetSrc: string

    constructor ()
      ensures Current() == Settings("", "", 0, "")
    {
      inputDir, outputDir, timeLimit, targetSrc := "", "", 0, "";
    }

    function Current(): Settings
      reads this
    {
      Settings(inputDir, outputDir, timeLimit, targetSrc)
    }

    /** `parse_arg`: on success the settings are those `ParseArgs` gives. */
    method ParseArg(opts: seq<Opt>, operands: seq<string>) returns (ok: bool)
      modifies this
      ensures ok == ParseArgs(opts, operands, old(Current())).Ok?
      ensures ok ==> Current() == ParseArgs(opts, operands, old(Current())).value
    {
      ghost var init := Current();
      var i := 0;
      while i < |opts|
        invariant 0 <= i <= |opts|
        invariant ParseOptions(opts, init) == ParseOptions(opts[i..], Current())
      {
        var o := opts[i];
        assert opts[i..][0] == o && opts[i..][1..] == opts[i + 1..];
        match o.flag {
          case InputDir =>
            if |o.arg| >= NAMELEN {
              return false;
            }
            inputDir := o.arg;
            if StartsWith(o.arg, "-a") || StartsWith(o.arg, "-t") {
              return false;
            }
          case AnswerDir =>
            if |o.arg| >= NAMELEN {
              return false;
            }
            outputDir := o.arg;
            if StartsWith(o.arg, "-i") || StartsWith(o.arg, "-t") {
              return false;
            }
          case TimeLimit =>
            if StartsWith(o.arg, "-i") || StartsWith(o.arg, "-a") {
              return false;
            }
            timeLimit := Atoi(o.arg);
          case Unknown =>
            return false;
        }
        i := i + 1;
      }
      assert opts[i..] == [];
      assert ParseOptions(opts, init) == Ok(Current());
      if |inputDir| == 0 || |outputDir| == 0 || timeLimit <= -1 {
        return false;
      }
      if |operands| == 0 {
        return false;
      }
      targetSrc := Truncate(operands[0]);
      if |targetSrc| == 0 {
        return false;
      } else if |targetSrc| > NAMELEN {
        return false;
      }
      return true;
    }
  }

  // ---------------------------------------------------------------------------
  // Directories
  // ---------------------------------------------------------------------------

  /** A directory entry as `readdir` returns it: its name and whether it is a regular file. */
  datatype Entry = Entry(name: string, regular: bool)

  /** The number of regular files among `entries`. */
  function RegularCount(entries: seq<Entry>): (n: nat)
    ensures n <= |entries|
    ensures n == 0 <==> forall i :: 0 <= i < |entries| ==> !entries[i].regular
  {
    if entries == [] then 0
    else
      var init := entries[..|entries| - 1];
      assert forall i :: 0 <= i < |init| ==> init[i] == entries[i];
      RegularCount(init) + if entries[|entries| - 1].regular then 1 else 0
  }

  /** `count_files`: -1 when the directory cannot be opened, else its regular files. */
  method CountFiles(dir: Option<seq<Entry>>) returns (count: int)
    ensures dir.None? ==> count == -1
    ensures dir.Some? ==> count == RegularCount(dir.value)
  {
    if dir.None? {
      return -1;
    }
    var entries := dir.value;
    count := 0;
    var i := 0;
    while i < |entries|
      invariant 0 <= i <= |entries|
      invariant count == RegularCount(entries[..i])
    {
      assert entries[..i + 1][..i] == entries[..i];
      if entries[i].regular {
        count := count + 1;
      }
      i := i + 1;
    }
    assert entries[..i] == entries;
  }

  /** `check_directory`: the directory opens and holds at least one regular file. */
  method CheckDirectory(dir: Option<seq<Entry>>) returns (ok: bool)
    ensures ok <==> dir.Some? && exists i :: 0 <= i < |dir.value| && dir.value[i].regular
  {
    var count := CountFiles(dir);
    ok := count > 0;
  }

  // ---------------------------------------------------------------------------
  // Running time
  // ---------------------------------------------------------------------------

  /** A `struct timeval`. */
  datatype TimeVal = TimeVal(sec: int, usec: int)

  /** A time stamp as `gettimeofday` gives it: the microseconds are below a million. */
  predicate IsTimeStamp(t: TimeVal) {
    0 <= t.usec < 1000000
  }

  function Micros(t: TimeVal): int {
    t.sec * 1000000 + t.usec
  }

  /** C's `/` for a positive divisor: the quotient is rounded toward zero. */
  function TruncDiv(a: int, b: int): (q: int)
    requires b > 0
    ensures a >= 0 ==> 0 <= a - q * b < b
    ensures a < 0 ==> -b < a - q * b <= 0
  {
    if a >= 0 then a / b else -((-a) / b)
  }

  /** The value `calculate_exec_time` computes from the two time stamps. */
  function ElapsedMs(start: TimeVal, end: TimeVal): int {
    (end.sec - start.sec) * 1000 + TruncDiv(end.usec - start.usec, 1000)
  }

  /**
    For real time stamps the result is within a millisecond of the elapsed time, and it
    is never negative when the end is not before the start.
  */
  lemma ElapsedMsBounds(start: TimeVal, end: TimeVal)
    requires IsTimeStamp(start) && IsTimeStamp(end)
    ensures var d := Micros(end) - Micros(start);
      ElapsedMs(start, end) * 1000 - 1000 < d < ElapsedMs(start, end) * 1000 + 1000
    ensures Micros(end) >= Micros(start) ==> ElapsedMs(start, end) >= 0
  {
    var q := TruncDiv(end.usec - start.usec, 1000);
    var s := end.sec - start.sec;
    assert Micros(end) - Micros(start) == s * 1000000 + (end.usec - start.usec);
    assert ElapsedMs(start, end) * 1000 == s * 1000000 + q * 1000;
  }

  // ---------------------------------------------------------------------------
  // Comparing the output with the answer
  // ---------------------------------------------------------------------------

  newtype Byte = x: int | 0 <= x < 256

  /** The bytes one `read` returned. */
  type Chunk = seq<Byte>

  /** One `read` of the answer file: the bytes it returned (none at the end) or an error. */
  datatype AnswerRead = Data(bytes: Chunk) | ReadFailed

  /** The program's output as the reads of the pipe returned it, each 1 to `BUFSIZE` bytes. */
  predicate OutputStream(output: seq<Chunk>) {
    forall i :: 0 <= i < |output| ==> 0 < |output[i]| <= BUFSIZE
  }

  /** The reads of the answer file, each at most `BUFSIZE` bytes. */
  predicate AnswerStream(answer: seq<AnswerRead>) {
    forall i :: 0 <= i < |answer| ==> answer[i].Data? ==> |answer[i].bytes| <= BUFSIZE
  }

  /** The `i`-th read of the answer file; past its end a read returns no bytes. */
  function ReadAt(answer: seq<AnswerRead>, i: nat): (a: AnswerRead)
    requires AnswerStream(answer)
    ensures a.Data? ==> |a.bytes| <= BUFSIZE
  {
    if i < |answer| then answer[i] else Data([])
  }

  /** A zeroed buffer of `BUFSIZE` bytes after reading `c` into it. */
  function Padded(c: Chunk): (b: seq<Byte>)
    requires |c| <= BUFSIZE
    ensures |b| == BUFSIZE
  {
    c + seq(BUFSIZE - |c|, _ => 0)
  }

  /** `memcmp(read_buf, file_buf, fread_chk) == 0`: the buffers agree over the answer's bytes. */
  predicate ChunkMatches(out: Chunk, ans: Chunk)
    requires |out| <= BUFSIZE && |ans| <= BUFSIZE
  {
    Padded(out)[..|ans|] == ans
  }

  /**
    A chunk matches when it starts with the answer's bytes, or when it is shorter and the
    answer's bytes past it are zero: trailing zero bytes of the answer are not noticed.
  */
  lemma ChunkMatchesIff(out: Chunk, ans: Chunk)
    requires |out| <= BUFSIZE && |ans| <= BUFSIZE
    ensures ChunkMatches(out, ans) <==>
      || (|ans| <= |out| && out[..|ans|] == ans)
      || (|out| < |ans| && ans[..|out|] == out && forall k :: |out| <= k < |ans| ==> ans[k] == 0)
  {
    var p := Padded(out);
    assert forall k :: 0 <= k < |out| ==> p[k] == out[k];
    assert forall k :: |out| <= k < BUFSIZE ==> p[k] == 0;
    if |ans| <= |out| {
      assert p[..|ans|] == out[..|ans|];
    } else if ans[..|out|] == out && forall k :: |out| <= k < |ans| ==> ans[k] == 0 {
      assert p[..|ans|] == ans;
    }
  }

  /** What the comparison concludes. */
  datatype Verdict = Correct | Wrong | Unreadable

  /** The comparison from the `i`-th chunk of the output on. */
  function CompareFrom(output: seq<Chunk>, answer: seq<AnswerRead>, i: nat): Verdict
    requires OutputStream(output) && AnswerStream(answer) && i <= |output|
    decreases |output| - i
  {
    if i == |output| then Correct
    else match ReadAt(answer, i)
      case ReadFailed => Unreadable
      case Data(bytes) => if ChunkMatches(output[i], bytes) then CompareFrom(output, answer, i + 1) else Wrong
  }

  /**
    `read_and_compare_results` once the answer file is open: the `i`-th chunk of the
    output is compared with the `i`-th read of the answer, over the bytes that read
    returned, until the output ends.
  */
  function Compare(output: seq<Chunk>, answer: seq<AnswerRead>): Verdict
    requires OutputStream(output) && AnswerStream(answer)
  {
    CompareFrom(output, answer, 0)
  }

  /** Chunk `i` of the output is read while the answer can be read and agrees with it. */
  predicate Agrees(output: seq<Chunk>, answer: seq<AnswerRead>, i: nat)
    requires OutputStream(output) && AnswerStream(answer) && i < |output|
  {
    ReadAt(answer, i).Data? && ChunkMatches(output[i], ReadAt(answer, i).bytes)
  }

  lemma {:induction false} CompareFromCorrectIff(output: seq<Chunk>, answer: seq<AnswerRead>, i: nat)
    requires OutputStream(output) && AnswerStream(answer) && i <= |output|
    ensures CompareFrom(output, answer, i) == Correct <==> forall j :: i <= j < |output| ==> Agrees(output, answer, j)
    decreases |output| - i
  {
    if i < |output| {
      assert CompareFrom(output, answer, i) == Correct <==>
        Agrees(output, answer, i) && CompareFrom(output, answer, i + 1) == Correct;
      CompareFromCorrectIff(output, answer, i + 1);
    }
  }

  lemma {:induction false} CompareFromWrongIff(output: seq<Chunk>, answer: seq<AnswerRead>, i: nat)
    requires OutputStream(output) && AnswerStream(answer) && i <= |output|
    ensures CompareFrom(output, answer, i) == Wrong <==>
      exists k :: i <= k < |output| && ReadAt(answer, k).Data? && !Agrees(output, answer, k)
        && forall j :: i <= j < k ==> Agrees(output, answer, j)
    decreases |output| - i
  {
    if i < |output| {
      assert CompareFrom(output, answer, i) == Wrong <==>
        || (ReadAt(answer, i).Data? && !Agrees(output, answer, i))
        || (Agrees(output, answer, i) && CompareFrom(output, answer, i + 1) == Wrong);
      CompareFromWrongIff(output, answer, i + 1);
      if CompareFrom(output, answer, i) == Wrong && Agrees(output, answer, i) {
        var k :| i + 1 <= k < |output| && ReadAt(answer, k).Data? && !Agrees(output, answer, k)
          && forall j :: i + 1 <= j < k ==> Agrees(output, answer, j);
        assert forall j :: i <= j < k ==> Agrees(output, answer, j);
      }
      if CompareFrom(output, answer, i) != Wrong {
        forall k | i <= k < |output| && ReadAt(answer, k).Data? && !Agrees(output, answer, k)
          ensures exists j :: i <= j < k && !Agrees(output, answer, j)
        {
          assert k != i;
          if Agrees(output, answer, i) {
            var j :| i + 1 <= j < k && !Agrees(output, answer, j);
          } else {
            assert !Agrees(output, answer, i);
          }
        }
      }
    }
  }

  /** The output is judged correct exactly when every chunk of it agrees with the answer. */
  lemma CompareCorrectIff(output: seq<Chunk>, answer: seq<AnswerRead>)
    requires OutputStream(output) && AnswerStream(answer)
    ensures Compare(output, answer) == Correct <==> forall j :: 0 <= j < |output| ==> Agrees(output, answer, j)
  {
    CompareFromCorrectIff(output, answer, 0);
  }

  /**
    The output is judged wrong exactly when some chunk differs from an answer read that
    succeeded and every chunk before it agreed.
  */
  lemma CompareWrongIff(output: seq<Chunk>, answer: seq<AnswerRead>)
    requires OutputStream(output) && AnswerStream(answer)
    ensures Compare(output, answer) == Wrong <==>
      exists k :: 0 <= k < |output| && ReadAt(answer, k).Data? && !Agrees(output, answer, k)
        && forall j :: 0 <= j < k ==> Agrees(output, answer, j)
  {
    CompareFromWrongIff(output, answer, 0);
  }

  /**
    Once the answer file is exhausted its reads return no bytes, which every chunk
    matches: output that agrees with the whole answer is correct whatever follows it.
  */
  lemma ExtraOutputIsCorrect(output: seq<Chunk>, extra: seq<Chunk>, answer: seq<AnswerRead>)
    requires OutputStream(output) && OutputStream(extra) && AnswerStream(answer)
    requires |answer| <= |output| && Compare(output, answer) == Correct
    ensures OutputStream(output + extra)
    ensures Compare(output + extra, answer) == Correct
  {
    var all := output + extra;
    CompareCorrectIff(output, answer);
    forall j | 0 <= j < |all| ensures Agrees(all, answer, j) {
      if j < |output| {
        assert Agrees(output, answer, j);
      } else {
        assert ReadAt(answer, j) == Data([]);
      }
    }
    CompareCorrectIff(all, answer);
  }

  /**
    Output whose chunks are the first reads of the answer is correct, however much of the
    answer it leaves out; a program that prints nothing is judged correct.
  */
  lemma AnswerPrefixIsCorrect(output: seq<Chunk>, answer: seq<AnswerRead>)
    requires OutputStream(output) && AnswerStream(answer)
    requires |output| <= |answer| && forall j :: 0 <= j < |output| ==> answer[j] == Data(output[j])
    ensures Compare(output, answer) == Correct
  {
    forall j | 0 <= j < |output| ensures Agrees(output, answer, j) {
      assert output[j][..|output[j]|] == output[j];
      ChunkMatchesIff(output[j], output[j]);
    }
    CompareCorrectIff(output, answer);
  }

  /** The result of comparing, with `None` for an answer file that cannot be opened. */
  function Judgement(output: seq<Chunk>, answer: Option<seq<AnswerRead>>): Verdict
    requires OutputStream(output) && (answer.Some? ==> AnswerStream(answer.value))
  {
    if answer.None? then Unreadable else Compare(output, answer.value)
  }

  // ---------------------------------------------------------------------------
  // Grading a run
  // ---------------------------------------------------------------------------

  /** The wait status of the finished program. */
  datatype WaitStatus = Exited(code: int) | Signaled(signal: int)

  /**
    One run of the program on one input file: how it ended, its output, the reads of the
    answer file with the same name (`None` when it cannot be opened), and the time stamps
    taken when it started and after the comparison.
  */
  datatype Run = Run(status: WaitStatus, output: seq<Chunk>, answer: Option<seq<AnswerRead>>, start: TimeVal, end: TimeVal)

  predicate WellFormedRun(run: Run) {
    OutputStream(run.output) && (run.answer.Some? ==> AnswerStream(run.answer.value))
  }

  /** How a run is graded: a runtime error, or the verdict of the comparison. */
  datatype Outcome = RuntimeError | Compared(verdict: Verdict)

  /** A run is compared only when it exited with code 0; every other end is a runtime error. */
  function Classify(run: Run): (o: Outcome)
    requires WellFormedRun(run)
    ensures o.RuntimeError? <==> run.status != Exited(0)
  {
    if run.status.Signaled? || run.status.code != 0 then RuntimeError
    else Compared(Judgement(run.output, run.answer))
  }

  /** The running time is charged when the comparison fails, not when it succeeds. */
  predicate Charged(run: Run)
    requires WellFormedRun(run)
  {
    Classify(run).Compared? && Classify(run).verdict != Correct
  }

  /** Grading stops with an error when the charged time comes out negative. */
  predicate TimeError(run: Run)
    requires WellFormedRun(run)
  {
    Charged(run) && ElapsedMs(run.start, run.end) < 0
  }

  /** The counters of `result_t`. */
  datatype Counters = Counters(timeouts: int, compileErrors: int, runtimeErrors: int, wrong: int, correct: int, timeAcc: int)

  /** The counters after grading one run. */
  function After(t: Counters, run: Run): Counters
    requires WellFormedRun(run)
  {
    match Classify(run)
    case RuntimeError => t.(runtimeErrors := t.runtimeErrors + 1)
    case Compared(v) =>
      var u := if v == Correct then t.(correct := t.correct + 1)
               else if v == Wrong then t.(wrong := t.wrong + 1)
               else t;
      if Charged(run) then u.(timeAcc := u.timeAcc + ElapsedMs(run.start, run.end)) else u
  }

  /**
    Grading a run adds one to at most one of the runtime-error, wrong and correct
    counters, to none only when the answer file could not be used, never touches the
    time-out and compile-error counters, and adds the running time only when the
    comparison failed.
  */
  lemma AfterCounts(t: Counters, run: Run)
    requires WellFormedRun(run)
    ensures var u := After(t, run);
      && u.timeouts == t.timeouts && u.compileErrors == t.compileErrors
      && t.runtimeErrors <= u.runtimeErrors && t.wrong <= u.wrong && t.correct <= u.correct
      && (u.runtimeErrors - t.runtimeErrors) + (u.wrong - t.wrong) + (u.correct - t.correct)
         == (if Classify(run) == Compared(Unreadable) then 0 else 1)
      && (u.runtimeErrors == t.runtimeErrors + 1 <==> run.status != Exited(0))
      && (u.correct == t.correct + 1 <==> Classify(run) == Compared(Correct))
      && (u.timeAcc != t.timeAcc ==> Charged(run))
  {
  }

  /** The counters after the first `n` entries of a directory have been graded. */
  function AfterEntries(t: Counters, entries: seq<Entry>, runs: seq<Run>, n: nat): Counters
    requires |runs| == |entries| && n <= |entries|
    requires forall i :: 0 <= i < |runs| ==> WellFormedRun(runs[i])
  {
    if n == 0 then t
    else
      var u := AfterEntries(t, entries, runs, n - 1);
      if entries[n - 1].regular then After(u, runs[n - 1]) else u
  }

  /**
    Over a directory the time-out and compile-error counters stay put and the three
    grading counters together grow by at most the number of regular files.
  */
  lemma {:induction false} AfterEntriesBounds(t: Counters, entries: seq<Entry>, runs: seq<Run>, n: nat)
    requires |runs| == |entries| && n <= |entries|
    requires forall i :: 0 <= i < |runs| ==> WellFormedRun(runs[i])
    ensures var u := AfterEntries(t, entries, runs, n);
      && u.timeouts == t.timeouts && u.compileErrors == t.compileErrors
      && t.runtimeErrors <= u.runtimeErrors && t.wrong <= u.wrong && t.correct <= u.correct
      && (u.runtimeErrors - t.runtimeErrors) + (u.wrong - t.wrong) + (u.correct - t.correct)
         <= RegularCount(entries[..n])
  {
    if n > 0 {
      AfterEntriesBounds(t, entries, runs, n - 1);
      assert entries[..n][..n - 1] == entries[..n - 1];
      if entries[n - 1].regular {
        AfterCounts(AfterEntries(t, entries, runs, n - 1), runs[n - 1]);
      }
    }
  }

  /** The global `result` of the autojudge. */
  class Results {
    var timeouts: int
    var compileErrors: int
    var runtimeErrors: int
    var wrong: int
    var correct: int
    var timeAcc: int

    constructor ()
      ensures Current() == Counters(0, 0, 0, 0, 0, 0)
    {
      timeouts, compileErrors, runtimeErrors, wrong, correct, timeAcc := 0, 0, 0, 0, 0, 0;
    }

    function Current(): Counters
      reads this
    {
      Counters(timeouts, compileErrors, runtimeErrors, wrong, correct, timeAcc)
    }

    /** `calculate_exec_time`: adds the elapsed milliseconds to `timeAcc` and nothing else. */
    method CalculateExecTime(start: TimeVal, end: TimeVal) returns (elapsed: int)
      modifies this
      ensures elapsed == ElapsedMs(start, end)
      ensures Current() == old(Current()).(timeAcc := old(timeAcc) + elapsed)
    {
      var seconds := end.sec - start.sec;
      var microseconds := end.usec - start.usec;
      elapsed := seconds * 1000 + TruncDiv(microseconds, 1000);
      timeAcc := timeAcc + elapsed;
    }

    /**
      `read_and_compare_results`: a missing answer file or a failed read of it fails
      with no counter changed; the first chunk that differs adds one to `wrong` and
      fails; reaching the end of the output adds one to `correct` and succeeds.
    */
    method ReadAndCompareResults(output: seq<Chunk>, answer: Option<seq<AnswerRead>>) returns (failed: bool)
      requires OutputStream(output) && (answer.Some? ==> AnswerStream(answer.value))
      modifies this
      ensures failed <==> Judgement(output, answer) != Correct
      ensures Judgement(output, answer) == Correct ==> Current() == old(Current()).(correct := old(correct) + 1)
      ensures Judgement(output, answer) == Wrong ==> Current() == old(Current()).(wrong := old(wrong) + 1)
      ensures Judgement(output, answer) == Unreadable ==> Current() == old(Current())
    {
      if answer.None? {
        return true;
      }
      var answerReads := answer.value;
      var i := 0;
      while i < |output|
        invariant 0 <= i <= |output|
        invariant CompareFrom(output, answerReads, i) == Compare(output, answerReads)
        invariant Current() == old(Current())
      {
        var read := ReadAt(answerReads, i);
        if read.ReadFailed? {
          return true;
        }
        if !ChunkMatches(output[i], read.bytes) {
          wrong := wrong + 1;
          return true;
        }
        i := i + 1;
      }
      correct := correct + 1;
      return false;
    }

    /**
      The grading of one run in `run_execution_child`: a non-zero exit code or a signal
      is a runtime error and the output is not compared; exit code 0 leads to the
      comparison, and when it fails the running time is charged.  `ok` is false when
      that time comes out negative, which ends the grading with an error.
    */
    method Grade(run: Run) returns (ok: bool)
      requires WellFormedRun(run)
      modifies this
      ensures ok <==> !TimeError(run)
      ensures Current() == After(old(Current()), run)
    {
      match run.status {
        case Exited(code) =>
          if code != 0 {
            runtimeErrors := runtimeErrors + 1;
          } else {
            var failed := ReadAndCompareResults(run.output, run.answer);
            if failed {
              var elapsed := CalculateExecTime(run.start, run.end);
              if elapsed < 0 {
                return false;
              }
            }
          }
        case Signaled(_) =>
          runtimeErrors := runtimeErrors + 1;
      }
      return true;
    }

    /**
      The loop of `run_execution_child` over the input directory: every regular file is
      graded in turn, other entries are skipped; it fails when the directory cannot be
      opened or a charged time comes out negative.
    */
    method RunExecution(dir: Option<seq<Entry>>, runs: seq<Run>) returns (ok: bool)
      requires dir.Some? ==> |runs| == |dir.value|
      requires forall i :: 0 <= i < |runs| ==> WellFormedRun(runs[i])
      modifies this
      ensures ok <==> dir.Some? && forall i :: 0 <= i < |runs| && dir.value[i].regular ==> !TimeError(runs[i])
      ensures ok ==> Current() == AfterEntries(old(Current()), dir.value, runs, |runs|)
      ensures dir.None? ==> Current() == old(Current())
      ensures dir.Some? && !ok ==>
        exists k :: (0 <= k < |runs| && dir.value[k].regular && TimeError(runs[k])
          && (forall j :: 0 <= j < k && dir.value[j].regular ==> !TimeError(runs[j]))
          && Current() == AfterEntries(old(Current()), dir.value, runs, k + 1))
    {
      if dir.None? {
        return false;
      }
      var entries := dir.value;
      var i := 0;
      while i < |entries|
        invariant 0 <= i <= |entries|
        invariant forall j :: 0 <= j < i && entries[j].regular ==> !TimeError(runs[j])
        invariant Current() == AfterEntries(old(Current()), entries, runs, i)
      {
        if entries[i].regular {
          ok := Grade(runs[i]);
          if !ok {
            assert Current() == AfterEntries(old(Current()), entries, runs, i + 1);
            return false;
          }
        }
        i := i + 1;
      }
      return true;
    }
  }
}
