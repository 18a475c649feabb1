/**
 * The object that index.js:1-175 exports: it builds its `command` once, in
 * the constructor, and answers lookups on it.
 */
module Parser {
  import opened Wrappers
  import opened Classifier

  /** A parsed command line: `commands` holds no flag-like token and every key of `args` starts with `-`. */
  ghost predicate WellFormed(command: Command) {
    && (forall i :: 0 <= i < |command.commands| ==> !IsFlag(command.commands[i]))
    && (forall k :: k in command.args ==> IsFlag(k))
  }

  lemma {:induction false} CommandOfWellFormed(value: Input)
    ensures WellFormed(CommandOf(value))
  {
    CommandOfCharacterized(value);
    KeysAreFlagKeys(TokensOf(value));
  }

  class ArgMap {
    /** The parsed command, `this.command` of index.js:174. */
    var command: Command
    /** The value the object was constructed from. */
    ghost const source: Input

    ghost predicate Valid()
      reads this
    {
      command == CommandOf(source) && WellFormed(command)
    }

    /** The constructor of index.js:1 and index.js:174. */
    constructor (value: Input)
      ensures source == value
      ensures command == CommandOf(value)
      ensures Valid()
    {
      source := value;
      var c := ToCommand(value);
      command := c;
      CommandOfWellFormed(value);
    }

    /** `getArg(n1, ..., nk)` (index.js:7-19): with one name, the lookup of
        that name; with several, the value of the first name that is present
        (a `null` value counts as present); with none, the lookup of the key
        `"undefined"`, which is never present. */
    method GetArg(names: seq<string>) returns (r: Option<Value>)
      requires Valid()
      ensures |names| == 0 ==> r == None
      ensures |names| >= 1 ==> (r.None? <==> forall i :: 0 <= i < |names| ==> names[i] !in command.args)
      ensures |names| >= 1 && r.Some? ==>
        exists i :: 0 <= i < |names| && names[i] in command.args && r.value == command.args[names[i]] &&
          forall j :: 0 <= j < i ==> names[j] !in command.args
      decreases |names|
    {
      if |names| > 1 {
        for i := 0 to |names|
          invariant forall j :: 0 <= j < i ==> names[j] !in command.args
        {
          var argContent := GetArg([names[i]]);
          assert [names[i]][0] == names[i];
          if argContent != None {
            assert names[i] in command.args && argContent.value == command.args[names[i]];
            return argContent;
          }
        }
        return None;
      } else if |names| == 1 {
        return Lookup(command.args, names[0]);
      } else {
        assert !IsFlag("undefined");
        return Lookup(command.args, "undefined");
      }
    }

    /** `getArgs(n1, ..., nk)` (index.js:26-38): with no names, every
        argument; otherwise a map with exactly the given names as keys, each
        bound to its lookup, which may be `undefined`. */
    method GetArgs(names: seq<string>) returns (r: map<string, Option<Value>>)
      requires Valid()
      ensures |names| == 0 ==> r.Keys == command.args.Keys
      ensures |names| > 0 ==> r.Keys == set i | 0 <= i < |names| :: names[i]
      ensures forall k :: k in r ==> r[k] == Lookup(command.args, k)
    {
      if |names| == 0 {
        return map k | k in command.args :: Some(command.args[k]);
      }
      r := map[];
      for i := 0 to |names|
        invariant r.Keys == set j | 0 <= j < i :: names[j]
        invariant forall k :: k in r ==> r[k] == Lookup(command.args, k)
      {
        var argContent := Lookup(command.args, names[i]);
        r := r[names[i] := argContent];
      }
    }

    /** `getCommands()` (index.js:43-45): the positional tokens before the first flag-like token. */
    method GetCommands() returns (r: seq<string>)
      requires Valid()
      ensures r == command.commands
      ensures r == LeadingPositionals(TokensOf(source))
      ensures forall i :: 0 <= i < |r| ==> !IsFlag(r[i])
    {
      CommandOfCharacterized(source);
      return command.commands;
    }
  }
}
