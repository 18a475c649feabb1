# Command-line argument parser, modelled in Dafny

The library models one object, exported by `index.js`. It is built from a
command line, given either as one string or as an array of tokens. It
splits the string into tokens, sorts the tokens into positional
*commands* and flag *arguments*, and then answers lookups on the result.

The model has five parts:

- `wrappers.dfy` (module `Wrappers`) holds `Option`. It stands for
  JavaScript's `undefined` and `null` markers.
- `tokenizer.dfy` (module `Tokenizer`) holds `splitText`. `SplitText` is a
  method with the source's loop. It is proved equal to `Tokens`, a fold of
  one `Step` per character. The fold is then characterized against an
  independent reference semantics. That semantics gives every character a
  role: literal, delimiter, opening quote, closing quote, or escape.
- `classifier.dfy` (module `Classifier`) holds `toCommand`. `ToCommand` is a
  method with the source's loop, and `ClassifyItem` is that loop's body. It
  is proved equal to `CommandOf`, a fold of `Step` over the tokens. The fold
  is then characterized by a description that does not use the loop:
  - `commands` is the longest prefix of the tokens that holds no flag-like
    token;
  - a key is present exactly when some flag-like token sets it;
  - each key holds the value left by the last token that sets it.
- `parser.dfy` (module `Parser`) holds the exported object. It is the class
  `ArgMap`, with its constructor, `getArg`, `getArgs` and `getCommands`.
- `scenarios.dfy` (module `Scenarios`) works through concrete token lists,
  already split, and single flag tokens. Their results are derived from that
  description.

The JavaScript value forms become datatypes:

- An argument value (`null`, a string, or an array of strings) is the
  datatype `Value = Null | Str | Many`.
- The three accepted inputs (`null`/missing, a string, an array) are the
  datatype `Input = NoInput | Text | TokenList`.

### Behaviour of the code that a reader might not expect

The model follows `index.js` as written, including these places:

- **A space right after a closing quote yields an empty token.** A reader
  might expect `a "b c" d` to split into `a`, `b c`, `d`, but the code
  yields `a`, `b c`, `""`, `d`: the closing quote pushes `b c`, and the
  next space pushes the empty accumulator (index.js:62-74).
  `Tokenizer.QuotedRegionThenSpace` proves this result.
- **Only the second `=`-field survives.** `--a=b=c` sets `--a` to `b`,
  and `=c` is lost (index.js:133-135).
- **Single-dash tokens are never split at `=`.** `-s=x` sets the key
  `-s=x` to `null` (index.js:141-146).
- **Escaped quotes outside quotes.** A backslash is dropped everywhere,
  and the character after it keeps its meaning, except that a same-kind
  closing quote right after a backslash does not close. So `say \"hi\"`
  gives `say`, `hi"`: the first `"` opens a region, and the second one,
  escaped, is kept literally (index.js:70-93).

## Model

| member | source | states |
|---|---|---|
| Tokenizer.SplitText | index.js:52-106 | The loop returns exactly `Tokens(text)`. That list is `Pushed(text)`, which the per-character roles alone determine, followed by `Pending(text)` when that is non-empty. No token contains a backslash. The tokens joined together equal the text with delimiters, opening and closing quote marks and backslashes removed. Other quote characters are kept. There is one token per unquoted space and per closing quote, plus one more if the final accumulator is non-empty. |
| Tokenizer.ScanTracksQuote | index.js:56-98 | After any prefix, the scanner's quote state and previous character match the reference semantics. `lastChar` is a backslash exactly when the prefix ends in one. |
| Tokenizer.ScanAgrees | index.js:58-99 | After any prefix, the scanner agrees with the per-character roles: the pushed tokens count the boundaries, their text plus the accumulator is the kept text, and nothing holds a backslash. |
| Tokenizer.TokensCharacterized | index.js:52-106 | The final token list has no backslash, concatenates to the kept text, and has length boundaries + (1 if the accumulator is non-empty). |
| Tokenizer.ScanPush | index.js:61-98 | A character pushes the accumulator exactly when it is an unquoted space or a closing quote. Otherwise the pushed tokens are unchanged. |
| Tokenizer.ScanPushed | index.js:58-99 | After any prefix, the pushed tokens are `Pushed`: at each unquoted space or closing quote, the literal characters read since the previous such character. |
| Tokenizer.TokensByRole | index.js:48-106 | The text is cut where the roles say. The result is `Pushed(text)`, then `Pending(text)` if it is non-empty. |
| Tokenizer.PushedGrows | index.js:58-99 | A pushed token never changes. Reading more text only appends tokens. |
| Tokenizer.InsideQuoteKeeps | index.js:62-90 | Inside a quoted region, these characters join the current token and leave the region open: a space, the other quote kind, and a same-kind quote after a backslash. |
| Tokenizer.OpenQuoteContinues | index.js:75-76 | Outside quotes, a quote character opens a region. It neither pushes nor extends the current token. |
| Tokenizer.StepInside | index.js:61-98 | A step inside a quote that does not close it pushes nothing. It appends the character, or nothing for a backslash, and keeps the region open. |
| Tokenizer.UnclosedRegion | index.js:58-99 | Across a quoted region that nothing closes, no token is pushed and the region stays open. |
| Tokenizer.UnclosedText | index.js:58-99 | Across such a region, the accumulator grows by the region's text without backslashes. |
| Tokenizer.StepAgrees | index.js:61-98 | One iteration of the `switch` keeps the accumulator, the pushed tokens and their text in agreement with the per-character roles. |
| Tokenizer.UnterminatedQuote | index.js:58-103 | An unterminated quote sends the rest of the text, without backslashes, into one final token. |
| Tokenizer.QuotedRegionThenSpace | index.js:62-74 | `a "b c" d` splits into `a`, `b c`, `""`, `d`. |
| Tokenizer.EscapedQuotesOutside | index.js:70-93 | `say \"hi\"` splits into `say`, `hi"`. |
| Tokenizer.DoubledSpace | index.js:62-68 | `a  b` splits into `a`, `""`, `b`. |
| Tokenizer.TrailingSpace | index.js:101-103 | `a ` splits into `a` alone. An empty final accumulator is not pushed. |
| Classifier.SplitOn | index.js:133 | `split('=')` gives at least one field. Joining the fields with `=` rebuilds the string, and no field holds `=`. There are several fields exactly when the string contains `=`. |
| Classifier.BeforeSep | index.js:133 | The text before the first `=` is a prefix with no `=`. It is shorter than the string exactly when the string has an `=`, and that `=` follows it. |
| Classifier.SplitFields | index.js:133-135 | Field 0 of `split('=')` is the text before the first `=`. Field 1 is the text between the first and the second `=`. |
| Classifier.LongFlagSplit | index.js:128-139 | For a `--` token: the key is field 0, there is a second field exactly when the token has an `=`, and that field is the assigned text. |
| Classifier.LeadingPositionals | index.js:122-150 | The result is a prefix of the tokens and holds no flag-like token. If it is shorter than the tokens, a flag-like token comes next. |
| Classifier.LeadingUnique | index.js:122-150 | Any prefix with those three properties is `LeadingPositionals`. |
| Classifier.LastKeyIndex | index.js:135-146 | The index returned sets key `k`, and no later flag-like token sets `k`. `None` means no flag-like token sets `k`. |
| Classifier.LastFlag | index.js:128-146 | The index returned is flag-like, and nothing after it is. `None` means no token is flag-like. |
| Classifier.StepOnFlag | index.js:128-146 | A flag-like token sets its key to the assigned text or to `null`, and clears `isAtCommand`. It becomes the active flag unless it assigned its value. |
| Classifier.StepOnTrailing | index.js:148-162 | A positional token after the first flag-like token. With no active flag, the state is unchanged. With an active flag, the key set gains only that key. A `null` or absent value becomes the token, a string becomes the list of it and the token, and a list gets the token appended. Every other key, `commands`, `isAtCommand` and `lastAddedArg` are unchanged. |
| Classifier.StepDescribes | index.js:126-162 | One loop step keeps the loop state equal to what the description gives for the longer token list. |
| Classifier.ClassifyDescribed | index.js:113-166 | After any token list, the loop state is the described one. |
| Classifier.ClassifyItem | index.js:126-162 | The loop body, which uses `continue`, computes exactly one `Step`. |
| Classifier.ToCommand | index.js:113-166 | Several facts hold. The result is `CommandOf(value)`. `commands` is the longest flag-free prefix of the tokens. A key is present exactly when a flag-like token sets it. Each value is the one left by the last such token: the assigned text for `--k=v`, otherwise the positional tokens after it, gathered. `null` input gives the empty command. |
| Classifier.CommandOfCharacterized | index.js:113-166 | The same characterization, stated for the specification function. |
| Classifier.FlagKeyShape | index.js:133-145 | A flag's key starts with `-`, and a long flag's key starts with `--`. |
| Classifier.KeysAreFlagKeys | index.js:128-146 | The key set of `args` is exactly the set of keys of the flag-like tokens. Every key starts with `-`. |
| Classifier.ListsHoldTwo | index.js:154-160 | A list value always holds at least two tokens. |
| Classifier.CommandsFrozen | index.js:128-150 | Once a flag-like token has been seen, later tokens never add to `commands`. No command is flag-like. |
| Classifier.ValuelessFlagResets | index.js:137-146 | A flag without `=` resets its key to `null`, whatever the key held, and becomes the active flag. |
| Classifier.TrailingKeepsActive | index.js:148-162 | A positional token changes neither the active flag nor `isAtCommand`. |
| Classifier.DroppedAfterAssignment | index.js:128-162 | After `--k=v`, positional tokens change nothing until the next flag-like token. They are dropped. |
| Classifier.TokensThenCommand | index.js:120 | Parsing a text gives the same command as parsing its tokenized array. |
| Scenarios.AssignedFlagFields | index.js:133-135 | `--a=b=c` has key `--a` and value `b`. |
| Scenarios.SingleDashAssignment | index.js:141-146 | `-s=x` is a single-dash flag whose key is all of `-s=x`. |
| Scenarios.SecondAssignmentLost | index.js:128-135 | Whatever came before, `--a=b=c` leaves `b` on `--a` and no active flag. |
| Scenarios.SingleDashCollects | index.js:141-146 | Whatever came before, `-s=x` sets `-s=x` to `null` and becomes the active flag. |
| Scenarios.BuildShape | index.js:122-163 | A command, a single-dash flag with one value, `--k=v`, and a valueless long flag give one command and those three keys. |
| Scenarios.BuildExample | index.js:122-163 | The token list `["build", "-s", "./src", "--out=dist", "--verbose"]` gives commands `build` and args `-s: ./src`, `--out: dist`, `--verbose: null`. |
| Scenarios.TaskShape | index.js:122-163 | Three commands, a flag, and three more tokens give the list of those three tokens on the flag. |
| Scenarios.TaskExample | index.js:122-163 | The token list `["run", "task1", "task2", "-e", "a", "b", "c"]` gives commands `run`, `task1`, `task2` and args `-e: [a, b, c]`. |
| Parser.CommandOfWellFormed | index.js:113-166 | Every parsed command is well formed: no command is flag-like, and every key starts with `-`. |
| Parser.ArgMap.constructor | index.js:174 | The object's `command` is the parse of its input (`null` for a missing one), and is well formed. |
| Parser.ArgMap.GetArg | index.js:7-19 | With one name, returns that key's lookup. With several, returns `undefined` exactly when none is present, and otherwise the value of the first present name (a `null` value counts as present). With none, returns `undefined`. |
| Parser.ArgMap.GetArgs | index.js:26-38 | With no names, returns every argument. Otherwise the keys are exactly the given names, each bound to its lookup, which is `undefined` when absent. |
| Parser.ArgMap.GetCommands | index.js:43-45 | Returns `command.commands`. This is the longest flag-free prefix of the input's tokens. |

## Left out

- `toString` (index.js:169-171) is left out, because it only serializes
  `this.command` with `JSON.stringify`.
- JavaScript's variadic `arguments` become an explicit sequence of names.
  The `Input` datatype replaces runtime type dispatch (`value == null`,
  `Array.isArray`). No values other than a string, an array or `null`
  exist in the model.
- `splitText` and `toCommand` are module-level methods, not members of the
  object. They read no object state.
- `ArgMap.GetArgs`: with no names, the source returns the live
  `this.command.args` object itself. The model returns a map of the same
  keys, each value wrapped in `Some`. Aliasing, that is a caller changing
  the object through the returned map or array, is not modelled. The same
  goes for `getCommands`.
- `ArgMap.GetArg` and `ArgMap.GetArgs`: lookups on a plain JavaScript
  object (index.js:16 and index.js:34) also find prototype keys such as
  `constructor`. The model knows only the keys the parse set.
- `ArgMap.GetArg`: with zero names, the source looks up the key
  `"undefined"`. The model does the same, and since that key is not
  flag-like it is never present.
- JavaScript strings are sequences of UTF-16 code units. Here they are
  sequences of Dafny `char`s, with no surrogate handling.
- `ClassifyItem` holds the body of the loop at index.js:124-163. It is a
  separate method, and the `continue` at index.js:156 is its early return.
