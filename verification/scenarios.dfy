/** Worked token lists for the classifier, each derived from the reference
    description (`Classifier.ClassifyDescribed`) rather than by running the loop. */
module Scenarios {
  import opened Wrappers
  import opened Classifier

  /** The text before the first `sep` of `a + [sep] + b` is `a`. */
  lemma BeforeSepAt(a: string, b: string, sep: char)
    requires sep !in a
    ensures BeforeSep(a + [sep] + b, sep) == a
  {
    var s := a + [sep] + b;
    var r := BeforeSep(s, sep);
    assert s[|a|] == sep;
    assert forall i :: 0 <= i < |a| ==> s[i] == a[i];
  }

  /** Without `sep`, the text before the first `sep` is all of it. */
  lemma BeforeSepWhole(s: string, sep: char)
    requires sep !in s
    ensures BeforeSep(s, sep) == s
  {
    var r := BeforeSep(s, sep);
    assert |r| == |s|;
  }

  /** `key=tail` assigns a value and has key `key` when `key` holds no `=`. */
  lemma AssignmentKey(key: string, tail: string)
    requires IsLongFlag(key) && '=' !in key
    ensures var t := key + "=" + tail;
      AssignsValue(t) && FlagKey(t) == key && t[|key| + 1..] == tail
  {
    var t := key + "=" + tail;
    assert t == key + ['='] + tail;
    assert t[..2] == key[..2];
    BeforeSepAt(key, tail, '=');
  }

  /** An assigning flag `key=value` or `key=value=rest` with no `=` in `key` and `value`. */
  lemma AssignmentFields(key: string, value: string, rest: string)
    requires IsLongFlag(key) && '=' !in key && '=' !in value
    requires rest == [] || rest[0] == '='
    ensures var t := key + "=" + value + rest;
      AssignsValue(t) && FlagKey(t) == key && AssignedText(t) == value
  {
    var t := key + "=" + value + rest;
    assert t == key + "=" + (value + rest);
    AssignmentKey(key, value + rest);
    if rest == [] {
      assert value + rest == value;
      BeforeSepWhole(value, '=');
    } else {
      assert value + rest == value + ['='] + rest[1..];
      BeforeSepAt(value, rest[1..], '=');
    }
  }

  /** `--a=b=c` sets key `--a` to `b`: everything after the second `=` is lost. */
  lemma AssignedFlagFields()
    ensures IsFlag("--a=b=c") && AssignsValue("--a=b=c")
    ensures FlagKey("--a=b=c") == "--a" && AssignedText("--a=b=c") == "b"
  {
    assert "--a"[..2] == "--";
    AssignmentFields("--a", "b", "=c");
    assert "--a" + "=" + "b" + "=c" == "--a=b=c";
  }

  /** A single-dash token is never split at `=`: `-s=x` is a valueless key `-s=x`. */
  lemma SingleDashAssignment()
    ensures IsFlag("-s=x") && !AssignsValue("-s=x") && FlagKey("-s=x") == "-s=x"
  {
    assert "-s=x"[..2] == "-s";
  }

  /** Whatever came before, `--a=b=c` leaves `b` on `--a` and nothing to attach to. */
  lemma SecondAssignmentLost(ts: seq<string>)
    ensures Lookup(Classify(ts + ["--a=b=c"]).command.args, "--a") == Some(Str("b"))
    ensures Classify(ts + ["--a=b=c"]).lastAddedArg == None
  {
    AssignedFlagFields();
    assert (ts + ["--a=b=c"])[..|ts|] == ts;
    StepOnFlag(Classify(ts), "--a=b=c");
  }

  /** Whatever came before, `-s=x` sets the key `-s=x` to `null` and collects what follows. */
  lemma SingleDashCollects(ts: seq<string>)
    ensures Lookup(Classify(ts + ["-s=x"]).command.args, "-s=x") == Some(Null)
    ensures Classify(ts + ["-s=x"]).lastAddedArg == Some("-s=x")
  {
    SingleDashAssignment();
    ValuelessFlagResets(ts, "-s=x");
  }

  // ---------------------------------------------------------------------
  // The token list `build`, `-s`, `./src`, `--out=dist`, `--verbose`
  // ---------------------------------------------------------------------

  /** A command, a single-dash flag with one value, an assigning long flag
      and a valueless long flag, all with distinct keys. */
  predicate BuildShaped(ts: seq<string>, cmd: string, s: string, src: string, out: string, verbose: string) {
    && |ts| == 5 && ts[0] == cmd && ts[1] == s && ts[2] == src && ts[3] == out && ts[4] == verbose
    && !IsFlag(cmd) && !IsFlag(src)
    && IsFlag(s) && FlagKey(s) == s
    && AssignsValue(out) && IsFlag(verbose) && !AssignsValue(verbose)
    && s != FlagKey(out) && s != FlagKey(verbose) && FlagKey(out) != FlagKey(verbose)
  }

  lemma BuildKeys(ts: seq<string>, cmd: string, s: string, src: string, out: string, verbose: string)
    requires BuildShaped(ts, cmd, s, src, out, verbose)
    ensures LastKeyIndex(ts, s) == Some(1)
    ensures LastKeyIndex(ts, FlagKey(out)) == Some(3)
    ensures LastKeyIndex(ts, FlagKey(verbose)) == Some(4)
    ensures forall k :: LastKeyIndex(ts, k).Some? ==> k == s || k == FlagKey(out) || k == FlagKey(verbose)
  {
    forall k | LastKeyIndex(ts, k).Some? ensures k == s || k == FlagKey(out) || k == FlagKey(verbose) {
      var i := LastKeyIndex(ts, k).value;
      assert i == 1 || i == 3 || i == 4;
    }
  }

  lemma BuildValues(ts: seq<string>, cmd: string, s: string, src: string, out: string, verbose: string)
    requires BuildShaped(ts, cmd, s, src, out, verbose)
    ensures LeadingPositionals(ts) == [cmd]
    ensures FlagValue(ts, 1) == Str(src)
    ensures FlagValue(ts, 3) == Str(AssignedText(out))
    ensures FlagValue(ts, 4) == Null
  {
    LeadingUnique(ts, [cmd]);
    assert ts[2..][0] == src && ts[2..][1] == out;
    LeadingUnique(ts[2..], [src]);
    assert ts[5..] == [];
  }

  lemma BuildArgs(ts: seq<string>, cmd: string, s: string, src: string, out: string, verbose: string,
                  args: map<string, Value>)
    requires BuildShaped(ts, cmd, s, src, out, verbose)
    requires ArgsDescribed(ts, args)
    ensures args == map[s := Str(src), FlagKey(out) := Str(AssignedText(out)), FlagKey(verbose) := Null]
  {
    BuildKeys(ts, cmd, s, src, out, verbose);
    BuildValues(ts, cmd, s, src, out, verbose);
    var m := map[s := Str(src), FlagKey(out) := Str(AssignedText(out)), FlagKey(verbose) := Null];
    forall k | k in args ensures k in m {
    }
    assert args[s] == m[s];
    assert args[FlagKey(out)] == m[FlagKey(out)];
    assert args[FlagKey(verbose)] == m[FlagKey(verbose)];
  }

  lemma BuildShape(ts: seq<string>, cmd: string, s: string, src: string, out: string, verbose: string,
                   outKey: string, outValue: string, verboseKey: string)
    requires BuildShaped(ts, cmd, s, src, out, verbose)
    requires FlagKey(out) == outKey && AssignedText(out) == outValue && FlagKey(verbose) == verboseKey
    ensures Classify(ts).command == Command([cmd], map[s := Str(src), outKey := Str(outValue), verboseKey := Null])
  {
    ClassifyDescribed(ts);
    BuildValues(ts, cmd, s, src, out, verbose);
    BuildArgs(ts, cmd, s, src, out, verbose, Classify(ts).command.args);
  }

  lemma OutFlag()
    ensures IsFlag("--out=dist") && AssignsValue("--out=dist")
    ensures FlagKey("--out=dist") == "--out" && AssignedText("--out=dist") == "dist"
  {
    assert "--out"[..2] == "--";
    AssignmentFields("--out", "dist", "");
    assert "--out" + "=" + "dist" + "" == "--out=dist";
  }

  lemma VerboseFlag()
    ensures IsFlag("--verbose") && !AssignsValue("--verbose") && FlagKey("--verbose") == "--verbose"
  {
    BeforeSepWhole("--verbose", '=');
  }

  lemma BuildFlags()
    ensures IsFlag("-s") && FlagKey("-s") == "-s"
    ensures "-s" != "--out" && "-s" != "--verbose" && "--out" != "--verbose"
    ensures !IsFlag("build") && !IsFlag("./src")
  {
    assert "-s"[..2] == "-s";
    assert "-s"[1] != "--out"[1] && "--out"[2] != "--verbose"[2];
  }

  lemma BuildTokens(ts: seq<string>)
    requires ts == ["build", "-s", "./src", "--out=dist", "--verbose"]
    ensures BuildShaped(ts, "build", "-s", "./src", "--out=dist", "--verbose")
  {
    OutFlag();
    VerboseFlag();
    BuildFlags();
  }

  /** The token list `build`, `-s`, `./src`, `--out=dist`, `--verbose` gives one
      command and three keys. */
  lemma BuildExample(ts: seq<string>)
    requires ts == ["build", "-s", "./src", "--out=dist", "--verbose"]
    ensures Classify(ts).command ==
      Command(["build"], map["-s" := Str("./src"), "--out" := Str("dist"), "--verbose" := Null])
  {
    BuildTokens(ts);
    OutFlag();
    VerboseFlag();
    BuildShape(ts, "build", "-s", "./src", "--out=dist", "--verbose", "--out", "dist", "--verbose");
  }

  // ---------------------------------------------------------------------
  // The token list `run`, `task1`, `task2`, `-e`, `a`, `b`, `c`
  // ---------------------------------------------------------------------

  /** Three commands, one flag and three values after it. */
  predicate TaskShaped(ts: seq<string>, flag: string) {
    && |ts| == 7 && ts[3] == flag && IsFlag(flag) && FlagKey(flag) == flag
    && !IsFlag(ts[0]) && !IsFlag(ts[1]) && !IsFlag(ts[2])
    && !IsFlag(ts[4]) && !IsFlag(ts[5]) && !IsFlag(ts[6])
  }

  lemma TaskArgs(ts: seq<string>, flag: string, args: map<string, Value>)
    requires TaskShaped(ts, flag)
    requires ArgsDescribed(ts, args)
    ensures args == map[flag := Many(ts[4..])]
  {
    LeadingWhole(ts[4..]);
    assert LastKeyIndex(ts, flag) == Some(3);
    forall k | k in args ensures k == flag {
      var i := LastKeyIndex(ts, k).value;
      assert i == 3;
    }
    assert args[flag] == Many(ts[4..]);
  }

  lemma TaskShape(ts: seq<string>, flag: string)
    requires TaskShaped(ts, flag)
    ensures Classify(ts).command == Command(ts[..3], map[flag := Many(ts[4..])])
  {
    ClassifyDescribed(ts);
    LeadingUnique(ts, ts[..3]);
    TaskArgs(ts, flag, Classify(ts).command.args);
  }

  /** In the token list `run`, `task1`, `task2`, `-e`, `a`, `b`, `c`, the three
      trailing tokens accumulate onto `-e` as a list. */
  lemma TaskExample(ts: seq<string>)
    requires ts == ["run", "task1", "task2", "-e", "a", "b", "c"]
    ensures Classify(ts).command == Command(["run", "task1", "task2"], map["-e" := Many(["a", "b", "c"])])
  {
    assert "-e"[..2] == "-e";
    assert TaskShaped(ts, "-e");
    TaskShape(ts, "-e");
    assert ts[..3] == ["run", "task1", "task2"] && ts[4..] == ["a", "b", "c"];
  }
}
