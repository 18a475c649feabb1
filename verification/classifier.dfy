/**
 * The classifier `toCommand` of index.js:113-166: it walks the tokens once,
 * collecting the positional tokens before the first flag-like token into
 * `commands` and the flags with their values into `args`.
 */
module Classifier {
  import opened Wrappers
  import Tokenizer

  /** A flag's value: `null` (no value yet), one string, or a list of strings. */
  datatype Value = Null | Str(s: string) | Many(items: seq<string>)

  /** The object `{commands, args}` built by `toCommand`. */
  datatype Command = Command(commands: seq<string>, args: map<string, Value>)

  /** What the constructor may be given: nothing (`null` or omitted), a
      command line, or an array of tokens. */
  datatype Input = NoInput | Text(text: string) | TokenList(tokens: seq<string>)

  /** `args[k]` in JavaScript: `undefined` for a missing key. */
  function Lookup(args: map<string, Value>, k: string): Option<Value> {
    if k in args then Some(args[k]) else None
  }

  // ---------------------------------------------------------------------
  // String.prototype.split with a one-character separator.
  // ---------------------------------------------------------------------

  /** The parts joined back with `sep` in between. */
  function Join(parts: seq<string>, sep: char): string
    requires |parts| >= 1
    decreases |parts|
  {
    if |parts| == 1 then parts[0] else parts[0] + [sep] + Join(parts[1..], sep)
  }

  /** `s.split(sep)`: the pieces between the separators, in order. */
  function SplitOn(s: string, sep: char): (parts: seq<string>)
    ensures |parts| >= 1
    ensures Join(parts, sep) == s
    ensures forall i :: 0 <= i < |parts| ==> sep !in parts[i]
    ensures |parts| > 1 <==> sep in s
    decreases |s|
  {
    if s == [] then [""]
    else
      var rest := SplitOn(s[1..], sep);
      if s[0] == sep then [""] + rest
      else [[s[0]] + rest[0]] + rest[1..]
  }

  /** The longest prefix of `s` without `sep`. */
  function BeforeSep(s: string, sep: char): (r: string)
    ensures r <= s
    ensures sep !in r
    ensures |r| < |s| ==> s[|r|] == sep
    ensures sep in s <==> |r| < |s|
    decreases |s|
  {
    if s == [] || s[0] == sep then "" else [s[0]] + BeforeSep(s[1..], sep)
  }

  /** The first piece of `split` is the text before the first separator, the
      second the text between the first and the second. */
  lemma {:induction false} SplitFields(s: string, sep: char)
    ensures SplitOn(s, sep)[0] == BeforeSep(s, sep)
    ensures sep in s ==> SplitOn(s, sep)[1] == BeforeSep(s[|BeforeSep(s, sep)| + 1..], sep)
    decreases |s|
  {
    if s != [] {
      SplitFields(s[1..], sep);
      if s[0] != sep {
        assert sep in s ==> sep in s[1..] by {
          if sep in s {
            var k :| 0 <= k < |s| && s[k] == sep;
            assert s[1..][k - 1] == sep;
          }
        }
        if sep in s {
          assert s[|BeforeSep(s, sep)| + 1..] == s[1..][|BeforeSep(s[1..], sep)| + 1..];
        }
      }
    }
  }

  // ---------------------------------------------------------------------
  // The token kinds of index.js:128 and index.js:141.
  // ---------------------------------------------------------------------

  /** A token that `item.substring(0, 2) === '--'` accepts. */
  predicate IsLongFlag(t: string) { |t| >= 2 && t[..2] == "--" }

  /** A flag-like token: `item[0] === '-'` (which every long flag also satisfies). */
  predicate IsFlag(t: string) { |t| > 0 && t[0] == '-' }

  /** A long flag with an `=`, which assigns its value on the spot. */
  predicate AssignsValue(t: string) { IsLongFlag(t) && '=' in t }

  /** The key a flag-like token sets: a long flag cut at its first `=`, a
      single-dash token as it is. */
  function FlagKey(t: string): string {
    if IsLongFlag(t) then BeforeSep(t, '=') else t
  }

  /** The text between the first and the second `=` of an assigning flag. */
  function AssignedText(t: string): string
    requires AssignsValue(t)
  {
    BeforeSep(t[|BeforeSep(t, '=')| + 1..], '=')
  }

  // ---------------------------------------------------------------------
  // The loop of index.js:122-163, one token at a time.
  // ---------------------------------------------------------------------

  /** The state of the loop: the command built so far, `isAtCommand` and `lastAddedArg`. */
  datatype LoopState = LoopState(command: Command, isAtCommand: bool, lastAddedArg: Option<string>)

  const Initial: LoopState := LoopState(Command([], map[]), true, None)

  /** The value of `key` after `item` is attached to it (index.js:154-160). */
  function Attached(args: map<string, Value>, key: string, item: string): Value {
    if key !in args then Str(item)
    else match args[key]
      case Null => Str(item)
      case Str(s) => Many([s, item])
      case Many(xs) => Many(xs + [item])
  }

  /** One iteration of the loop body of index.js:126-162. */
  function Step(st: LoopState, item: string): LoopState {
    var args := st.command.args;
    if IsLongFlag(item) then
      var splitWord := SplitOn(item, '=');
      if |splitWord| > 1 then
        LoopState(st.command.(args := args[splitWord[0] := Str(splitWord[1])]), false, None)
      else
        LoopState(st.command.(args := args[splitWord[0] := Null]), false, Some(splitWord[0]))
    else if |item| > 0 && item[0] == '-' then
      LoopState(st.command.(args := args[item := Null]), false, Some(item))
    else if st.isAtCommand then
      st.(command := st.command.(commands := st.command.commands + [item]))
    else if st.lastAddedArg.Some? then
      var key := st.lastAddedArg.value;
      st.(command := st.command.(args := args[key := Attached(args, key, item)]))
    else
      st
  }

  /** The loop state after all of `ts`. */
  function Classify(ts: seq<string>): LoopState
    decreases |ts|
  {
    if ts == [] then Initial else Step(Classify(ts[..|ts| - 1]), ts[|ts| - 1])
  }

  /** The tokens `toCommand` walks: the array as given, or the tokenized text. */
  function TokensOf(input: Input): seq<string> {
    match input
    case NoInput => []
    case Text(text) => Tokenizer.Tokens(text)
    case TokenList(ts) => ts
  }

  /** The result of `toCommand(value)` (index.js:113-166). */
  function CommandOf(input: Input): Command {
    match input
    case NoInput => Command([], map[])
    case Text(text) => Classify(Tokenizer.Tokens(text)).command
    case TokenList(ts) => Classify(ts).command
  }

  // ---------------------------------------------------------------------
  // The reference description of the result.
  // ---------------------------------------------------------------------

  /** The longest prefix of `ts` that holds no flag-like token. */
  function LeadingPositionals(ts: seq<string>): (r: seq<string>)
    ensures r <= ts
    ensures forall i :: 0 <= i < |r| ==> !IsFlag(r[i])
    ensures |r| < |ts| ==> IsFlag(ts[|r|])
    decreases |ts|
  {
    if ts == [] || IsFlag(ts[0]) then [] else [ts[0]] + LeadingPositionals(ts[1..])
  }

  predicate HasFlag(ts: seq<string>) {
    exists i :: 0 <= i < |ts| && IsFlag(ts[i])
  }

  /** The value a flag takes from its trailing tokens: none, one, or the list of all. */
  function Gathered(vals: seq<string>): Value {
    if |vals| == 0 then Null else if |vals| == 1 then Str(vals[0]) else Many(vals)
  }

  /** The value that the flag-like token at position `i` leaves on its key,
      provided no later token sets the same key. */
  function FlagValue(ts: seq<string>, i: nat): Value
    requires i < |ts|
  {
    if AssignsValue(ts[i]) then Str(AssignedText(ts[i]))
    else Gathered(LeadingPositionals(ts[i + 1..]))
  }

  /** The position of the last flag-like token that sets key `k`. */
  function LastKeyIndex(ts: seq<string>, k: string): (r: Option<nat>)
    ensures r.Some? ==> r.value < |ts| && IsFlag(ts[r.value]) && FlagKey(ts[r.value]) == k
    ensures r.Some? ==> forall j :: r.value < j < |ts| && IsFlag(ts[j]) ==> FlagKey(ts[j]) != k
    ensures r.None? ==> forall j :: 0 <= j < |ts| && IsFlag(ts[j]) ==> FlagKey(ts[j]) != k
    decreases |ts|
  {
    if ts == [] then None
    else if IsFlag(ts[|ts| - 1]) && FlagKey(ts[|ts| - 1]) == k then Some(|ts| - 1)
    else
      var r := LastKeyIndex(ts[..|ts| - 1], k);
      assert forall j :: 0 <= j < |ts| - 1 ==> ts[..|ts| - 1][j] == ts[j];
      r
  }

  /** The position of the last flag-like token. */
  function LastFlag(ts: seq<string>): (r: Option<nat>)
    ensures r.Some? ==> r.value < |ts| && IsFlag(ts[r.value])
    ensures r.Some? ==> forall j :: r.value < j < |ts| ==> !IsFlag(ts[j])
    ensures r.None? ==> forall j :: 0 <= j < |ts| ==> !IsFlag(ts[j])
    decreases |ts|
  {
    if ts == [] then None
    else if IsFlag(ts[|ts| - 1]) then Some(|ts| - 1)
    else
      var r := LastFlag(ts[..|ts| - 1]);
      assert forall j :: 0 <= j < |ts| - 1 ==> ts[..|ts| - 1][j] == ts[j];
      r
  }

  /** The flag that trailing tokens attach to: the last flag-like token, unless it assigned its value. */
  function ActiveFlag(ts: seq<string>): Option<string> {
    match LastFlag(ts)
    case None => None
    case Some(j) => if AssignsValue(ts[j]) then None else Some(FlagKey(ts[j]))
  }

  /** `args` holds exactly the keys set by flag-like tokens of `ts`, each with
      the value its last such token leaves. */
  ghost predicate ArgsDescribed(ts: seq<string>, args: map<string, Value>) {
    && (forall k :: k in args <==> LastKeyIndex(ts, k).Some?)
    && (forall k :: k in args ==> args[k] == FlagValue(ts, LastKeyIndex(ts, k).value))
  }

  /** `ArgsDescribed` for the one key `k`. */
  ghost predicate KeyDescribed(ts: seq<string>, args: map<string, Value>, k: string) {
    && (k in args <==> LastKeyIndex(ts, k).Some?)
    && (k in args ==> args[k] == FlagValue(ts, LastKeyIndex(ts, k).value))
  }

  /** The loop state `st` is the one the reference description gives for `ts`. */
  ghost predicate Describes(ts: seq<string>, st: LoopState) {
    && st.command.commands == LeadingPositionals(ts)
    && st.isAtCommand == LastFlag(ts).None?
    && st.lastAddedArg == ActiveFlag(ts)
    && ArgsDescribed(ts, st.command.args)
  }

  // ---------------------------------------------------------------------
  // Lemmas.
  // ---------------------------------------------------------------------

  /** Any flag-free prefix followed by a flag (or by nothing) is the longest one. */
  lemma LeadingUnique(ts: seq<string>, r: seq<string>)
    requires r <= ts
    requires forall i :: 0 <= i < |r| ==> !IsFlag(r[i])
    requires |r| < |ts| ==> IsFlag(ts[|r|])
    ensures LeadingPositionals(ts) == r
  {
    var l := LeadingPositionals(ts);
  }

  /** Once a flag-like token has been seen, later tokens do not extend the prefix. */
  lemma LeadingFrozen(ts: seq<string>, more: seq<string>)
    requires HasFlag(ts)
    ensures LeadingPositionals(ts + more) == LeadingPositionals(ts)
  {
    var l := LeadingPositionals(ts);
    LeadingUnique(ts + more, l);
  }

  /** Before any flag-like token, the prefix is the whole sequence. */
  lemma LeadingWhole(ts: seq<string>)
    requires !HasFlag(ts)
    ensures LeadingPositionals(ts) == ts
  {
    LeadingUnique(ts, ts);
  }

  /** Appending a token to a flag-free sequence. */
  lemma LeadingSnocWhole(ts: seq<string>, t: string)
    requires !HasFlag(ts)
    ensures LeadingPositionals(ts + [t]) == if IsFlag(t) then ts else ts + [t]
  {
    if IsFlag(t) {
      LeadingUnique(ts + [t], ts);
    } else {
      LeadingUnique(ts + [t], ts + [t]);
    }
  }

  /** Appending a flag-like token never extends the prefix. */
  lemma LeadingThenFlag(ts: seq<string>, t: string)
    requires IsFlag(t)
    ensures LeadingPositionals(ts + [t]) == LeadingPositionals(ts)
  {
    if HasFlag(ts) {
      LeadingFrozen(ts, [t]);
    } else {
      LeadingWhole(ts);
      LeadingSnocWhole(ts, t);
    }
  }

  lemma LastKeyIndexSnoc(ts: seq<string>, t: string, k: string)
    ensures LastKeyIndex(ts + [t], k) ==
      if IsFlag(t) && FlagKey(t) == k then Some(|ts|) else LastKeyIndex(ts, k)
  {
    assert (ts + [t])[..|ts|] == ts;
  }

  lemma ClassifySnoc(ts: seq<string>, i: nat)
    requires i < |ts|
    ensures Classify(ts[..i + 1]) == Step(Classify(ts[..i]), ts[i])
  {
    assert ts[..i + 1][..i] == ts[..i];
  }

  lemma LastFlagSnoc(ts: seq<string>, t: string)
    ensures LastFlag(ts + [t]) == if IsFlag(t) then Some(|ts|) else LastFlag(ts)
  {
    assert (ts + [t])[..|ts|] == ts;
  }

  /** The value left by an earlier flag is not changed by a later token
      when a flag-like token lies in between or the token is itself one. */
  lemma FlagValueSnoc(ts: seq<string>, t: string, i: nat)
    requires i < |ts|
    requires IsFlag(t) || HasFlag(ts[i + 1..]) || AssignsValue(ts[i])
    ensures FlagValue(ts + [t], i) == FlagValue(ts, i)
  {
    assert (ts + [t])[i] == ts[i];
    assert (ts + [t])[i + 1..] == ts[i + 1..] + [t];
    if !AssignsValue(ts[i]) {
      if IsFlag(t) {
        LeadingThenFlag(ts[i + 1..], t);
      } else {
        LeadingFrozen(ts[i + 1..], [t]);
      }
    }
  }

  /** What `split('=')` gives on a long flag, in terms of its key and assigned text. */
  lemma LongFlagSplit(t: string)
    requires IsLongFlag(t)
    ensures SplitOn(t, '=')[0] == FlagKey(t)
    ensures |SplitOn(t, '=')| > 1 <==> AssignsValue(t)
    ensures AssignsValue(t) ==> SplitOn(t, '=')[1] == AssignedText(t)
  {
    SplitFields(t, '=');
  }

  /** The effect of a flag-like token on the loop state. */
  lemma StepOnFlag(st: LoopState, t: string)
    requires IsFlag(t)
    ensures Step(st, t) == LoopState(
      st.command.(args := st.command.args[FlagKey(t) := if AssignsValue(t) then Str(AssignedText(t)) else Null]),
      false,
      if AssignsValue(t) then None else Some(FlagKey(t)))
  {
    if IsLongFlag(t) {
      LongFlagSplit(t);
    }
  }

  /** A flag token: the key it sets now holds the value it gives. */
  lemma {:induction false} StepFlag(ts: seq<string>, t: string, st: LoopState)
    requires Describes(ts, st)
    requires IsFlag(t)
    ensures Describes(ts + [t], Step(st, t))
  {
    var ts' := ts + [t];
    var st' := Step(st, t);
    StepOnFlag(st, t);
    LeadingThenFlag(ts, t);
    LastFlagSnoc(ts, t);
    assert ts'[|ts|] == t;
    assert ActiveFlag(ts') == if AssignsValue(t) then None else Some(FlagKey(t));
    assert FlagValue(ts', |ts|) == if AssignsValue(t) then Str(AssignedText(t)) else Null by {
      assert ts'[|ts| + 1..] == [];
    }
    forall k
      ensures k in st'.command.args <==> LastKeyIndex(ts', k).Some?
      ensures k in st'.command.args ==> st'.command.args[k] == FlagValue(ts', LastKeyIndex(ts', k).value)
    {
      LastKeyIndexSnoc(ts, t, k);
      if k != FlagKey(t) && k in st.command.args {
        FlagValueSnoc(ts, t, LastKeyIndex(ts, k).value);
      }
    }
  }

  /** A positional token before any flag extends `commands`. */
  lemma StepCommand(ts: seq<string>, t: string, st: LoopState)
    requires Describes(ts, st)
    requires !IsFlag(t) && LastFlag(ts).None?
    ensures Describes(ts + [t], Step(st, t))
  {
    var ts' := ts + [t];
    assert !HasFlag(ts);
    LeadingWhole(ts);
    LeadingSnocWhole(ts, t);
    LastFlagSnoc(ts, t);
    forall k ensures LastKeyIndex(ts', k) == LastKeyIndex(ts, k) {
      LastKeyIndexSnoc(ts, t, k);
    }
  }

  /** The last flag-like token is the last one to set its own key. */
  lemma LastFlagOwnsKey(ts: seq<string>, j: nat)
    requires LastFlag(ts) == Some(j)
    ensures LastKeyIndex(ts, FlagKey(ts[j])) == Some(j)
  {
    var r := LastKeyIndex(ts, FlagKey(ts[j]));
  }

  /** Attaching a token to a gathered value gathers one more token. */
  lemma AttachedGathers(args: map<string, Value>, key: string, xs: seq<string>, t: string)
    requires key in args && args[key] == Gathered(xs)
    ensures Attached(args, key, t) == Gathered(xs + [t])
  {
    if |xs| == 1 {
      assert xs == [xs[0]];
    }
  }

  /** The shape of `Step` on a trailing token. */
  lemma TrailingStep(st: LoopState, t: string)
    requires !IsFlag(t) && !st.isAtCommand
    ensures st.lastAddedArg.Some? ==> Step(st, t) == st.(command := st.command.(args :=
      st.command.args[st.lastAddedArg.value := Attached(st.command.args, st.lastAddedArg.value, t)]))
    ensures st.lastAddedArg.None? ==> Step(st, t) == st
  {
  }

  /** A positional token after the first flag-like token: with an active
      flag, a `null` (or absent) value becomes the token, a string becomes the
      list of that string and the token, and a list gets the token appended;
      no other key, nor `commands`, `isAtCommand` or `lastAddedArg`, changes.
      Without an active flag the token is dropped. */
  lemma StepOnTrailing(st: LoopState, t: string)
    requires !IsFlag(t) && !st.isAtCommand
    ensures st.lastAddedArg.None? ==> Step(st, t) == st
    ensures Step(st, t).command.commands == st.command.commands
    ensures Step(st, t).isAtCommand == st.isAtCommand && Step(st, t).lastAddedArg == st.lastAddedArg
    ensures st.lastAddedArg.Some? ==>
      var key, args, args' := st.lastAddedArg.value, st.command.args, Step(st, t).command.args;
      && args'.Keys == args.Keys + {key}
      && (forall k :: k in args && k != key ==> args'[k] == args[k])
      && (Lookup(args, key) == None || Lookup(args, key) == Some(Null) ==> args'[key] == Str(t))
      && (key in args && args[key].Str? ==> args'[key] == Many([args[key].s, t]))
      && (key in args && args[key].Many? ==> args'[key] == Many(args[key].items + [t]))
  {
    TrailingStep(st, t);
  }

  /** The arguments after a trailing token joins the value of the last, valueless, flag. */
  lemma {:induction false} AttachArgsAt(ts: seq<string>, t: string, args: map<string, Value>, j: nat, k: string)
    requires KeyDescribed(ts, args, k)
    requires !IsFlag(t) && LastFlag(ts) == Some(j) && !AssignsValue(ts[j])
    ensures KeyDescribed(ts + [t], args[FlagKey(ts[j]) := Gathered(ts[j + 1..] + [t])], k)
  {
    var ts' := ts + [t];
    var key := FlagKey(ts[j]);
    LastKeyIndexSnoc(ts, t, k);
    if k == key {
      LastFlagOwnsKey(ts, j);
      var xs := ts[j + 1..];
      assert !HasFlag(xs + [t]) by {
        forall i | 0 <= i < |xs + [t]| ensures !IsFlag((xs + [t])[i]) {
          if i < |xs| { assert (xs + [t])[i] == ts[j + 1 + i]; }
        }
      }
      LeadingWhole(xs + [t]);
      assert ts'[j] == ts[j];
      assert ts'[j + 1..] == xs + [t];
    } else if k in args {
      var i := LastKeyIndex(ts, k).value;
      assert i < j;
      assert ts[i + 1..][j - i - 1] == ts[j];
      FlagValueSnoc(ts, t, i);
    }
  }

  lemma AttachArgs(ts: seq<string>, t: string, args: map<string, Value>, j: nat)
    requires ArgsDescribed(ts, args)
    requires !IsFlag(t) && LastFlag(ts) == Some(j) && !AssignsValue(ts[j])
    ensures ArgsDescribed(ts + [t], args[FlagKey(ts[j]) := Gathered(ts[j + 1..] + [t])])
  {
    var args' := args[FlagKey(ts[j]) := Gathered(ts[j + 1..] + [t])];
    forall k
      ensures k in args' <==> LastKeyIndex(ts + [t], k).Some?
      ensures k in args' ==> args'[k] == FlagValue(ts + [t], LastKeyIndex(ts + [t], k).value)
    {
      assert KeyDescribed(ts, args, k);
      AttachArgsAt(ts, t, args, j, k);
    }
  }

  /** A trailing token after a valueless flag joins that flag's value. */
  lemma {:induction false} StepAttach(ts: seq<string>, t: string, st: LoopState, j: nat)
    requires Describes(ts, st)
    requires !IsFlag(t) && LastFlag(ts) == Some(j) && !AssignsValue(ts[j])
    ensures Describes(ts + [t], Step(st, t))
  {
    var key := FlagKey(ts[j]);
    LeadingFrozen(ts, [t]);
    LastFlagSnoc(ts, t);
    assert (ts + [t])[j] == ts[j];
    LastFlagOwnsKey(ts, j);
    var xs := ts[j + 1..];
    assert !HasFlag(xs);
    LeadingWhole(xs);
    AttachedGathers(st.command.args, key, xs, t);
    TrailingStep(st, t);
    AttachArgs(ts, t, st.command.args, j);
  }

  /** The arguments are unchanged by a token dropped after an assigning flag. */
  lemma {:induction false} DropArgsAt(ts: seq<string>, t: string, args: map<string, Value>, j: nat, k: string)
    requires KeyDescribed(ts, args, k)
    requires !IsFlag(t) && LastFlag(ts) == Some(j) && AssignsValue(ts[j])
    ensures KeyDescribed(ts + [t], args, k)
  {
    LastKeyIndexSnoc(ts, t, k);
    if k in args {
      var i := LastKeyIndex(ts, k).value;
      if i < j {
        assert ts[i + 1..][j - i - 1] == ts[j];
      }
      FlagValueSnoc(ts, t, i);
    }
  }

  /** A trailing token after a flag that assigned its value is dropped. */
  lemma {:induction false} StepDrop(ts: seq<string>, t: string, st: LoopState, j: nat)
    requires Describes(ts, st)
    requires !IsFlag(t) && LastFlag(ts) == Some(j) && AssignsValue(ts[j])
    ensures Describes(ts + [t], Step(st, t))
  {
    LeadingFrozen(ts, [t]);
    LastFlagSnoc(ts, t);
    assert (ts + [t])[j] == ts[j];
    TrailingStep(st, t);
    forall k
      ensures k in st.command.args <==> LastKeyIndex(ts + [t], k).Some?
      ensures k in st.command.args ==> st.command.args[k] == FlagValue(ts + [t], LastKeyIndex(ts + [t], k).value)
    {
      assert KeyDescribed(ts, st.command.args, k);
      DropArgsAt(ts, t, st.command.args, j, k);
    }
  }

  lemma StepDescribes(ts: seq<string>, t: string, st: LoopState)
    requires Describes(ts, st)
    ensures Describes(ts + [t], Step(st, t))
  {
    if IsFlag(t) {
      StepFlag(ts, t, st);
    } else if LastFlag(ts).None? {
      StepCommand(ts, t, st);
    } else if AssignsValue(ts[LastFlag(ts).value]) {
      StepDrop(ts, t, st, LastFlag(ts).value);
    } else {
      StepAttach(ts, t, st, LastFlag(ts).value);
    }
  }

  /** The loop state after every prefix is the one the reference description gives. */
  lemma {:induction false} ClassifyDescribed(ts: seq<string>)
    ensures Describes(ts, Classify(ts))
    decreases |ts|
  {
    if ts != [] {
      var p := ts[..|ts| - 1];
      var t := ts[|ts| - 1];
      ClassifyDescribed(p);
      var st := Classify(p);
      StepDescribes(p, t, st);
      assert p + [t] == ts;
    }
  }

  // ---------------------------------------------------------------------
  // What `toCommand` returns.
  // ---------------------------------------------------------------------

  /** The keys of all flag-like tokens of `ts`. */
  function FlagKeys(ts: seq<string>): set<string> {
    set i | 0 <= i < |ts| && IsFlag(ts[i]) :: FlagKey(ts[i])
  }

  /** `commands` is the longest prefix of the tokens without a flag-like
      token; the keys of `args` are those of the flag-like tokens; and each
      key holds the value its last flag-like token leaves: the assigned text
      for `--k=v`, otherwise the trailing positional tokens gathered. */
  lemma CommandOfCharacterized(input: Input)
    ensures CommandOf(input) == Classify(TokensOf(input)).command
    ensures CommandOf(input).commands == LeadingPositionals(TokensOf(input))
    ensures forall k :: k in CommandOf(input).args <==> LastKeyIndex(TokensOf(input), k).Some?
    ensures forall k :: k in CommandOf(input).args ==>
      CommandOf(input).args[k] == FlagValue(TokensOf(input), LastKeyIndex(TokensOf(input), k).value)
  {
    ClassifyDescribed(TokensOf(input));
  }

  /** A key of a flag-like token starts with the dash (a long flag's with two). */
  lemma FlagKeyShape(t: string)
    requires IsFlag(t)
    ensures IsFlag(FlagKey(t))
    ensures IsLongFlag(t) ==> IsLongFlag(FlagKey(t))
  {
    if IsLongFlag(t) {
      var k := BeforeSep(t, '=');
      assert k[..2] == t[..2];
    }
  }

  /** The key set of `args` is exactly the set of keys of the flag-like tokens, and every key starts with `-`. */
  lemma {:induction false} KeysAreFlagKeys(ts: seq<string>)
    ensures Classify(ts).command.args.Keys == FlagKeys(ts)
    ensures forall k :: k in Classify(ts).command.args ==> IsFlag(k)
  {
    ClassifyDescribed(ts);
    var args := Classify(ts).command.args;
    forall k | k in args ensures k in FlagKeys(ts) && IsFlag(k) {
      var i := LastKeyIndex(ts, k).value;
      FlagKeyShape(ts[i]);
    }
    forall k | k in FlagKeys(ts) ensures k in args {
      var i :| 0 <= i < |ts| && IsFlag(ts[i]) && FlagKey(ts[i]) == k;
    }
  }

  /** Every list value holds at least two tokens. */
  lemma {:induction false} ListsHoldTwo(ts: seq<string>)
    ensures forall k :: k in Classify(ts).command.args && Classify(ts).command.args[k].Many? ==>
      |Classify(ts).command.args[k].items| >= 2
  {
    ClassifyDescribed(ts);
  }

  /** No command is flag-like, and once a flag-like token has been seen
      `commands` never grows. */
  lemma {:induction false} CommandsFrozen(ts: seq<string>, more: seq<string>)
    requires HasFlag(ts)
    ensures Classify(ts + more).command.commands == Classify(ts).command.commands
    ensures forall i :: 0 <= i < |Classify(ts).command.commands| ==> !IsFlag(Classify(ts).command.commands[i])
  {
    ClassifyDescribed(ts);
    ClassifyDescribed(ts + more);
    LeadingFrozen(ts, more);
  }

  /** A valueless flag sets its key to `null`, whatever it held before, and
      becomes the flag that trailing tokens attach to. */
  lemma {:induction false} ValuelessFlagResets(ts: seq<string>, t: string)
    requires IsFlag(t) && !AssignsValue(t)
    ensures Lookup(Classify(ts + [t]).command.args, FlagKey(t)) == Some(Null)
    ensures Classify(ts + [t]).lastAddedArg == Some(FlagKey(t))
  {
    assert (ts + [t])[..|ts|] == ts;
    StepOnFlag(Classify(ts), t);
  }

  /** A positional token never clears the flag it attaches to. */
  lemma {:induction false} TrailingKeepsActive(ts: seq<string>, t: string)
    requires !IsFlag(t)
    ensures Classify(ts + [t]).lastAddedArg == Classify(ts).lastAddedArg
    ensures Classify(ts + [t]).isAtCommand == Classify(ts).isAtCommand
  {
    ClassifyDescribed(ts);
    ClassifyDescribed(ts + [t]);
    LastFlagSnoc(ts, t);
    assert (ts + [t])[..|ts|] == ts;
  }

  /** After `--k=v`, positional tokens are dropped until the next flag-like token. */
  lemma {:induction false} DroppedAfterAssignment(ts: seq<string>, more: seq<string>)
    requires |ts| > 0 && AssignsValue(ts[|ts| - 1])
    requires forall i :: 0 <= i < |more| ==> !IsFlag(more[i])
    ensures Classify(ts + more) == Classify(ts)
    decreases |more|
  {
    if more != [] {
      var m := more[..|more| - 1];
      var t := more[|more| - 1];
      DroppedAfterAssignment(ts, m);
      assert ts + more == (ts + m) + [t];
      assert ((ts + m) + [t])[..|ts + m|] == ts + m;
      ClassifyDescribed(ts);
      assert ts[|ts| - 1][..2][0] == ts[|ts| - 1][0];
      TrailingStep(Classify(ts), t);
    } else {
      assert ts + more == ts;
    }
  }

  /** Tokenizing first and passing the array gives the same command as passing the text. */
  lemma TokensThenCommand(text: string)
    ensures CommandOf(TokenList(Tokenizer.Tokens(text))) == CommandOf(Text(text))
  {
  }

  // ---------------------------------------------------------------------
  // The loop itself.
  // ---------------------------------------------------------------------

  /** One pass of the loop body of index.js:126-162 over `item`. */
  method ClassifyItem(command0: Command, isAtCommand0: bool, lastAddedArg0: Option<string>, item: string)
    returns (command: Command, isAtCommand: bool, lastAddedArg: Option<string>)
    ensures LoopState(command, isAtCommand, lastAddedArg) == Step(LoopState(command0, isAtCommand0, lastAddedArg0), item)
  {
    command, isAtCommand, lastAddedArg := command0, isAtCommand0, lastAddedArg0;
    if |item| >= 2 && item[..2] == "--" {
      isAtCommand := false;
      lastAddedArg := None;
      var splitWord := SplitOn(item, '=');
      if |splitWord| > 1 {
        command := command.(args := command.args[splitWord[0] := Str(splitWord[1])]);
      } else {
        command := command.(args := command.args[splitWord[0] := Null]);
        lastAddedArg := Some(splitWord[0]);
      }
    } else if |item| > 0 && item[0] == '-' {
      isAtCommand := false;
      command := command.(args := command.args[item := Null]);
      lastAddedArg := Some(item);
    } else if isAtCommand {
      command := command.(commands := command.commands + [item]);
    } else if lastAddedArg.Some? {
      var key := lastAddedArg.value;
      if key !in command.args || command.args[key] == Null {
        command := command.(args := command.args[key := Str(item)]);
        return;
      } else if !command.args[key].Many? {
        command := command.(args := command.args[key := Many([command.args[key].s])]);
      }
      ghost var gathered := command.args[key].items + [item];
      assert Many(gathered) == Attached(command0.args, key, item);
      command := command.(args := command.args[key := Many(command.args[key].items + [item])]);
      assert command.args == command0.args[key := Many(gathered)];
    }
  }

  /** `toCommand` (index.js:113-166). */
  method ToCommand(value: Input) returns (command: Command)
    ensures command == CommandOf(value)
    ensures value.NoInput? ==> command == Command([], map[])
    ensures command.commands == LeadingPositionals(TokensOf(value))
    ensures forall k :: k in command.args <==> LastKeyIndex(TokensOf(value), k).Some?
    ensures forall k :: k in command.args ==>
      command.args[k] == FlagValue(TokensOf(value), LastKeyIndex(TokensOf(value), k).value)
  {
    command := Command([], map[]);
    if value.NoInput? {
      CommandOfCharacterized(value);
      return;
    }
    var splitResult: seq<string>;
    if value.TokenList? {
      splitResult := value.tokens;
    } else {
      splitResult := Tokenizer.SplitText(value.text);
    }
    var isAtCommand := true;
    var lastAddedArg: Option<string> := None;
    for i := 0 to |splitResult|
      invariant LoopState(command, isAtCommand, lastAddedArg) == Classify(splitResult[..i])
    {
      ClassifySnoc(splitResult, i);
      command, isAtCommand, lastAddedArg := ClassifyItem(command, isAtCommand, lastAddedArg, splitResult[i]);
    }
    assert splitResult[..|splitResult|] == splitResult;
    CommandOfCharacterized(value);
  }
}
