/**
 * The tokenizer `splitText` of index.js:52-106: one left-to-right scan that
 * splits a command line on unquoted spaces, keeps quoted spaces, drops
 * backslashes and lets a backslash stop the next same-kind quote from
 * closing a quoted region.
 */
module Tokenizer {
  import opened Wrappers

  /** The variable `isInWithinQuotes`: no open quote, or the quote that opened the region. */
  datatype QuoteState = Outside | Inside(q: char)

  /** The state of the scan: the tokens pushed so far (`arr`), the
      accumulator (`currText`), the previous raw character (`lastChar`,
      initially absent) and the quote state. */
  datatype Scanner = Scanner(arr: seq<string>, currText: string, lastChar: Option<char>, quote: QuoteState)

  const Start: Scanner := Scanner([], "", None, Outside)

  predicate IsQuote(c: char) { c == '"' || c == '\'' }

  /** One iteration of the `switch` of index.js:61-98. */
  function Step(s: Scanner, c: char): Scanner {
    var s' :=
      if c == ' ' then
        if s.quote.Inside? then s.(currText := s.currText + [c])
        else s.(arr := s.arr + [s.currText], currText := "")
      else if IsQuote(c) then
        if s.lastChar != Some('\\') && s.quote == Inside(c) then
          s.(quote := Outside, arr := s.arr + [s.currText], currText := "")
        else if s.quote.Outside? then
          s.(quote := Inside(c))
        else
          s.(currText := s.currText + [c])
      else if c == '\\' then
        s
      else
        s.(currText := s.currText + [c]);
    s'.(lastChar := Some(c))
  }

  /** The scanner after the loop has consumed all of `text`. */
  function Scan(text: string): Scanner
    decreases |text|
  {
    if text == [] then Start else Step(Scan(text[..|text| - 1]), text[|text| - 1])
  }

  /** The result of `splitText`: the pushed tokens, plus the accumulator
      when it is not empty (index.js:101-103). */
  function Tokens(text: string): seq<string> {
    var s := Scan(text);
    if |s.currText| > 0 then s.arr + [s.currText] else s.arr
  }

  /** The concatenation of a sequence of tokens. */
  function Concat(ts: seq<string>): string
    decreases |ts|
  {
    if ts == [] then "" else Concat(ts[..|ts| - 1]) + ts[|ts| - 1]
  }

  lemma ConcatAppend(ts: seq<string>, t: string)
    ensures Concat(ts + [t]) == Concat(ts) + t
  {
    assert (ts + [t])[..|ts|] == ts;
  }

  // ---------------------------------------------------------------------
  // A reference semantics: what happens to each character of the text,
  // stated per position, independently of the token accumulator.
  // ---------------------------------------------------------------------

  /** The part a character plays in the scan. */
  datatype Role =
    | Literal    // copied into the current token
    | Delimiter  // an unquoted space: ends the current token
    | Open       // an opening quote: dropped, the current token goes on
    | Close      // a closing quote: dropped, ends the current token
    | Escape     // a backslash: dropped

  /** The role of `c`, seen in quote state `quote`, right after a backslash or not. */
  function CharRole(quote: QuoteState, afterBackslash: bool, c: char): Role {
    if c == '\\' then Escape
    else if c == ' ' then (if quote.Outside? then Delimiter else Literal)
    else if IsQuote(c) then
      if quote.Outside? then Open
      else if quote.q == c && !afterBackslash then Close
      else Literal
    else Literal
  }

  predicate EndsWithBackslash(p: string) { |p| > 0 && p[|p| - 1] == '\\' }

  /** The quote state once `text` has been read. */
  function QuoteAfter(text: string): QuoteState
    decreases |text|
  {
    if text == [] then Outside
    else
      var p := text[..|text| - 1];
      var c := text[|text| - 1];
      match CharRole(QuoteAfter(p), EndsWithBackslash(p), c)
      case Open => Inside(c)
      case Close => Outside
      case _ => QuoteAfter(p)
  }

  /** The role of the character at position `i` of `text`. */
  function RoleAt(text: string, i: nat): Role
    requires i < |text|
  {
    CharRole(QuoteAfter(text[..i]), EndsWithBackslash(text[..i]), text[i])
  }

  predicate EndsToken(r: Role) { r == Delimiter || r == Close }

  /** The literal characters of `text`, in order. */
  function Kept(text: string): string
    decreases |text|
  {
    if text == [] then ""
    else Kept(text[..|text| - 1]) + (if RoleAt(text, |text| - 1) == Literal then [text[|text| - 1]] else "")
  }

  /** The number of characters of `text` that end a token. */
  function Boundaries(text: string): nat
    decreases |text|
  {
    if text == [] then 0
    else Boundaries(text[..|text| - 1]) + (if EndsToken(RoleAt(text, |text| - 1)) then 1 else 0)
  }

  /** The literal characters read since the last character that ended a token. */
  function Pending(text: string): string
    decreases |text|
  {
    if text == [] then ""
    else
      var r := RoleAt(text, |text| - 1);
      if EndsToken(r) then ""
      else if r == Literal then Pending(text[..|text| - 1]) + [text[|text| - 1]]
      else Pending(text[..|text| - 1])
  }

  /** `s` without its backslashes. */
  function StripBackslashes(s: string): (r: string)
    decreases |s|
  {
    if s == [] then ""
    else StripBackslashes(s[..|s| - 1]) + (if s[|s| - 1] == '\\' then "" else [s[|s| - 1]])
  }

  predicate NoBackslash(t: string) { '\\' !in t }

  function LastChar(text: string): Option<char> {
    if text == [] then None else Some(text[|text| - 1])
  }

  /** The scanner tracks the quote state and the previous character of the reference semantics. */
  lemma {:induction false} ScanTracksQuote(text: string)
    ensures Scan(text).quote == QuoteAfter(text)
    ensures Scan(text).lastChar == LastChar(text)
    ensures Scan(text).lastChar == Some('\\') <==> EndsWithBackslash(text)
    decreases |text|
  {
    if text != [] {
      var p := text[..|text| - 1];
      ScanTracksQuote(p);
    }
  }

  /** The reference functions on a text extended by one character. */
  lemma ReferenceSnoc(p: string, c: char)
    ensures RoleAt(p + [c], |p|) == CharRole(QuoteAfter(p), EndsWithBackslash(p), c)
    ensures var r := CharRole(QuoteAfter(p), EndsWithBackslash(p), c);
      && Kept(p + [c]) == Kept(p) + (if r == Literal then [c] else "")
      && Boundaries(p + [c]) == Boundaries(p) + (if EndsToken(r) then 1 else 0)
      && Pending(p + [c]) ==
           (if EndsToken(r) then "" else if r == Literal then Pending(p) + [c] else Pending(p))
  {
    assert (p + [c])[..|p|] == p;
  }

  /** The token-related facts that tie a scanner state to the text read so far. */
  ghost predicate Agrees(s: Scanner, text: string) {
    && s.currText == Pending(text)
    && |s.arr| == Boundaries(text)
    && Concat(s.arr) + Pending(text) == Kept(text)
    && NoBackslash(Pending(text))
    && (forall t :: t in s.arr ==> NoBackslash(t))
  }

  /** What one `Step` does to the tokens, by the role of the character. */
  lemma StepByRole(s: Scanner, c: char, afterBackslash: bool)
    requires s.lastChar == Some('\\') <==> afterBackslash
    ensures var r := CharRole(s.quote, afterBackslash, c);
      && (EndsToken(r) ==> Step(s, c).arr == s.arr + [s.currText] && Step(s, c).currText == "")
      && (r == Literal ==> Step(s, c).arr == s.arr && Step(s, c).currText == s.currText + [c] && c != '\\')
      && (r == Open || r == Escape ==> Step(s, c).arr == s.arr && Step(s, c).currText == s.currText)
  {
  }

  /** One `Step` keeps the scanner in agreement with the reference semantics. */
  lemma StepAgrees(s: Scanner, p: string, c: char)
    requires Agrees(s, p)
    requires s.quote == QuoteAfter(p)
    requires s.lastChar == Some('\\') <==> EndsWithBackslash(p)
    ensures Agrees(Step(s, c), p + [c])
  {
    ReferenceSnoc(p, c);
    StepByRole(s, c, EndsWithBackslash(p));
    if EndsToken(CharRole(QuoteAfter(p), EndsWithBackslash(p), c)) {
      ConcatAppend(s.arr, s.currText);
    }
  }

  /** The scanner agrees with the reference semantics on every prefix. */
  lemma {:induction false} ScanAgrees(text: string)
    ensures Scan(text).quote == QuoteAfter(text)
    ensures Scan(text).lastChar == LastChar(text)
    ensures Scan(text).currText == Pending(text)
    ensures |Scan(text).arr| == Boundaries(text)
    ensures Concat(Scan(text).arr) + Pending(text) == Kept(text)
    ensures NoBackslash(Pending(text))
    ensures forall t :: t in Scan(text).arr ==> NoBackslash(t)
    decreases |text|
  {
    ScanTracksQuote(text);
    if text != [] {
      var p := text[..|text| - 1];
      var c := text[|text| - 1];
      ScanAgrees(p);
      ScanTracksQuote(p);
      StepAgrees(Scan(p), p, c);
      assert text == p + [c];
      ScanSnoc(p, c);
    }
  }

  /** `splitText` never emits a backslash, loses only delimiters, opening
      and closing quote marks and backslashes, and emits one token per unquoted space and per
      closing quote, plus one for a non-empty final accumulator. */
  lemma TokensCharacterized(text: string)
    ensures forall t :: t in Tokens(text) ==> NoBackslash(t)
    ensures Concat(Tokens(text)) == Kept(text)
    ensures |Tokens(text)| == Boundaries(text) + (if Pending(text) == "" then 0 else 1)
  {
    ScanAgrees(text);
    var s := Scan(text);
    if |s.currText| > 0 {
      ConcatAppend(s.arr, s.currText);
    }
  }

  /** The tokens the reference semantics pushes: each character that ends a
      token pushes the literal characters read since the previous one. */
  function Pushed(text: string): seq<string>
    decreases |text|
  {
    if text == [] then []
    else
      var p := text[..|text| - 1];
      Pushed(p) + (if EndsToken(RoleAt(text, |text| - 1)) then [Pending(p)] else [])
  }

  /** One character pushes the accumulator exactly when it ends a token. */
  lemma ScanPush(p: string, c: char)
    ensures Scan(p + [c]).arr ==
      Scan(p).arr + (if EndsToken(RoleAt(p + [c], |p|)) then [Pending(p)] else [])
  {
    ScanAgrees(p);
    ScanSnoc(p, c);
    ReferenceSnoc(p, c);
    StepByRole(Scan(p), c, EndsWithBackslash(p));
  }

  /** The pushed tokens are the ones the roles cut out of the text. */
  lemma {:induction false} ScanPushed(text: string)
    ensures Scan(text).arr == Pushed(text)
    decreases |text|
  {
    if text != [] {
      var p := text[..|text| - 1];
      ScanPushed(p);
      ScanPush(p, text[|text| - 1]);
      assert text == p + [text[|text| - 1]];
    }
  }

  /** `splitText` cuts the text where the roles say: the pushed tokens, then
      the final accumulator when it is not empty. */
  lemma TokensByRole(text: string)
    ensures Tokens(text) == Pushed(text) + (if Pending(text) == "" then [] else [Pending(text)])
  {
    ScanPushed(text);
    ScanAgrees(text);
  }

  /** A token, once pushed, never changes: reading more text only appends tokens. */
  lemma {:induction false} PushedGrows(text: string, i: nat)
    requires i <= |text|
    ensures Pushed(text[..i]) <= Pushed(text)
    decreases |text| - i
  {
    if i < |text| {
      PushedGrows(text, i + 1);
      assert text[..i + 1][..i] == text[..i];
      assert Pushed(text[..i]) <= Pushed(text[..i + 1]);
    } else {
      assert text[..i] == text;
    }
  }

  /** Inside a quoted region a space, the other quote kind, and a same-kind
      quote right after a backslash join the current token. */
  lemma InsideQuoteKeeps(text: string, c: char)
    requires QuoteAfter(text).Inside?
    requires c == ' ' || (IsQuote(c) && (c != QuoteAfter(text).q || EndsWithBackslash(text)))
    ensures Scan(text + [c]).arr == Scan(text).arr
    ensures Scan(text + [c]).currText == Scan(text).currText + [c]
    ensures QuoteAfter(text + [c]) == QuoteAfter(text)
  {
    ScanAgrees(text);
    assert (text + [c])[..|text|] == text;
    assert Scan(text).lastChar == Some('\\') <==> EndsWithBackslash(text);
  }

  /** Opening a quote neither ends nor extends the current token. */
  lemma OpenQuoteContinues(text: string, c: char)
    requires QuoteAfter(text).Outside? && IsQuote(c)
    ensures Scan(text + [c]).arr == Scan(text).arr
    ensures Scan(text + [c]).currText == Scan(text).currText
    ensures QuoteAfter(text + [c]) == Inside(c)
  {
    ScanAgrees(text);
    assert (text + [c])[..|text|] == text;
  }

  /** One step inside a quoted region that the character does not close. */
  lemma StepInside(s: Scanner, c: char)
    requires s.quote.Inside?
    requires !(IsQuote(c) && c == s.quote.q && s.lastChar != Some('\\'))
    ensures Step(s, c).arr == s.arr
    ensures Step(s, c).currText == s.currText + (if c == '\\' then "" else [c])
    ensures Step(s, c).quote == s.quote
  {
  }

  lemma ScanSnoc(text: string, c: char)
    ensures Scan(text + [c]) == Step(Scan(text), c)
  {
    assert (text + [c])[..|text|] == text;
  }

  lemma QuoteAfterSnoc(text: string, c: char)
    ensures QuoteAfter(text + [c]) ==
      match CharRole(QuoteAfter(text), EndsWithBackslash(text), c)
      case Open => Inside(c)
      case Close => Outside
      case _ => QuoteAfter(text)
  {
    assert (text + [c])[..|text|] == text;
  }

  lemma StripSnoc(s: string, c: char)
    ensures StripBackslashes(s + [c]) == StripBackslashes(s) + (if c == '\\' then "" else [c])
  {
    assert (s + [c])[..|s|] == s;
  }

  /** One character inside a quoted region that it does not close. */
  lemma UnclosedStep(p: string, c: char)
    requires QuoteAfter(p).Inside?
    requires CharRole(QuoteAfter(p), EndsWithBackslash(p), c) != Close
    ensures QuoteAfter(p + [c]) == QuoteAfter(p)
    ensures Scan(p + [c]).arr == Scan(p).arr
    ensures Scan(p + [c]).currText == Scan(p).currText + (if c == '\\' then "" else [c])
  {
    ScanTracksQuote(p);
    QuoteAfterSnoc(p, c);
    StepInside(Scan(p), c);
    ScanSnoc(p, c);
  }

  /** Within a quoted region that no later character closes, the scan
      pushes no token and the region stays open. */
  lemma {:induction false} UnclosedRegion(text: string, i: nat, j: nat)
    requires i <= j <= |text|
    requires QuoteAfter(text[..i]).Inside?
    requires forall k :: i <= k < |text| ==> RoleAt(text, k) != Close
    ensures QuoteAfter(text[..j]) == QuoteAfter(text[..i])
    ensures Scan(text[..j]).arr == Scan(text[..i]).arr
    decreases j
  {
    if j > i {
      UnclosedRegion(text, i, j - 1);
      UnclosedStepAt(text, j - 1);
    }
  }

  /** Within such a region the scan only appends the non-backslash
      characters to the accumulator. */
  lemma {:induction false} UnclosedText(text: string, i: nat, j: nat)
    requires i <= j <= |text|
    requires QuoteAfter(text[..i]).Inside?
    requires forall k :: i <= k < |text| ==> RoleAt(text, k) != Close
    ensures Scan(text[..j]).currText == Scan(text[..i]).currText + StripBackslashes(text[i..j])
    decreases j
  {
    if j > i {
      UnclosedText(text, i, j - 1);
      UnclosedRegion(text, i, j - 1);
      UnclosedStepAt(text, j - 1);
      StripSliceSnoc(text, i, j);
      AppendChain(Scan(text[..i]).currText, StripBackslashes(text[i..j - 1]),
                  if text[j - 1] == '\\' then "" else [text[j - 1]]);
    }
  }

  lemma AppendChain(a: string, b: string, x: string)
    ensures (a + b) + x == a + (b + x)
  {
  }

  /** `UnclosedStep` for the character at position `j` of `text`. */
  lemma UnclosedStepAt(text: string, j: nat)
    requires j < |text|
    requires QuoteAfter(text[..j]).Inside?
    requires RoleAt(text, j) != Close
    ensures QuoteAfter(text[..j + 1]) == QuoteAfter(text[..j])
    ensures Scan(text[..j + 1]).arr == Scan(text[..j]).arr
    ensures Scan(text[..j + 1]).currText == Scan(text[..j]).currText + (if text[j] == '\\' then "" else [text[j]])
  {
    assert text[..j + 1] == text[..j] + [text[j]];
    UnclosedStep(text[..j], text[j]);
  }

  lemma StripSliceSnoc(text: string, i: nat, j: nat)
    requires i < j <= |text|
    ensures StripBackslashes(text[i..j]) ==
      StripBackslashes(text[i..j - 1]) + (if text[j - 1] == '\\' then "" else [text[j - 1]])
  {
    assert text[i..j] == text[i..j - 1] + [text[j - 1]];
    StripSnoc(text[i..j - 1], text[j - 1]);
  }

  /** An unterminated quote sends the rest of the text into the last token. */
  lemma UnterminatedQuote(text: string, i: nat)
    requires i <= |text|
    requires QuoteAfter(text[..i]).Inside?
    requires forall k :: i <= k < |text| ==> RoleAt(text, k) != Close
    ensures var rest := Scan(text[..i]).currText + StripBackslashes(text[i..]);
            Tokens(text) == Scan(text[..i]).arr + (if rest == "" then [] else [rest])
  {
    UnclosedRegion(text, i, |text|);
    UnclosedText(text, i, |text|);
    assert text[..|text|] == text;
  }

  /** The scan of index.js:52-106, with its loop. */
  method SplitText(text: string) returns (arr: seq<string>)
    ensures arr == Tokens(text)
    ensures forall t :: t in arr ==> NoBackslash(t)
    ensures Concat(arr) == Kept(text)
    ensures |arr| == Boundaries(text) + (if Pending(text) == "" then 0 else 1)
    ensures arr == Pushed(text) + (if Pending(text) == "" then [] else [Pending(text)])
  {
    arr := [];
    var currText: string := "";
    var lastChar: Option<char> := None;
    var isInWithinQuotes: QuoteState := Outside;
    for i := 0 to |text|
      invariant Scanner(arr, currText, lastChar, isInWithinQuotes) == Scan(text[..i])
    {
      var currChar := text[i];
      assert text[..i + 1][..i] == text[..i];
      if currChar == ' ' {
        if isInWithinQuotes != Outside {
          currText := currText + [currChar];
        } else {
          arr := arr + [currText];
          currText := "";
        }
      } else if currChar == '"' || currChar == '\'' {
        if lastChar != Some('\\') && isInWithinQuotes == Inside(currChar) {
          isInWithinQuotes := Outside;
          arr := arr + [currText];
          currText := "";
        } else if isInWithinQuotes == Outside {
          isInWithinQuotes := Inside(currChar);
        } else {
          currText := currText + [currChar];
        }
      } else if currChar == '\\' {
      } else {
        currText := currText + [currChar];
      }
      lastChar := Some(currChar);
    }
    assert text[..|text|] == text;
    if |currText| > 0 {
      arr := arr + [currText];
    }
    TokensCharacterized(text);
    TokensByRole(text);
  }

  // Scenarios.

  /** A word and a space push that word. */
  lemma OneWordThenSpace()
    ensures Scan("a ") == Scanner(["a"], "", Some(' '), Outside)
  {
    ScanSnoc("", 'a');
    assert "" + ['a'] == "a";
    assert Scan("a") == Scanner([], "a", Some('a'), Outside);
    ScanSnoc("a", ' ');
    assert "a" + [' '] == "a ";
    assert Scan("a ") == Scanner(["a"], "", Some(' '), Outside);
  }

  /** The first token, then an opened quote. */
  lemma QuotedRegionOpens()
    ensures Scan("a \"b") == Scanner(["a"], "b", Some('b'), Inside('"'))
  {
    OneWordThenSpace();
    ScanSnoc("a ", '"');
    assert "a " + ['"'] == "a \"";
    assert Scan("a \"") == Scanner(["a"], "", Some('"'), Inside('"'));
    ScanSnoc("a \"", 'b');
    assert "a \"" + ['b'] == "a \"b";
    assert Scan("a \"b") == Scanner(["a"], "b", Some('b'), Inside('"'));
  }

  /** The closing quote pushes a token and the space after it pushes an empty one. */
  lemma QuotedRegionThenSpace()
    ensures Tokens("a \"b c\" d") == ["a", "b c", "", "d"]
  {
    QuotedRegionOpens();
    ScanSnoc("a \"b", ' ');
    assert "a \"b" + [' '] == "a \"b ";
    assert Scan("a \"b ") == Scanner(["a"], "b ", Some(' '), Inside('"'));
    ScanSnoc("a \"b ", 'c');
    assert "a \"b " + ['c'] == "a \"b c";
    assert Scan("a \"b c") == Scanner(["a"], "b c", Some('c'), Inside('"'));
    ScanSnoc("a \"b c", '"');
    assert "a \"b c" + ['"'] == "a \"b c\"";
    assert Scan("a \"b c\"") == Scanner(["a", "b c"], "", Some('"'), Outside);
    ScanSnoc("a \"b c\"", ' ');
    assert "a \"b c\"" + [' '] == "a \"b c\" ";
    assert Scan("a \"b c\" ") == Scanner(["a", "b c", ""], "", Some(' '), Outside);
    ScanSnoc("a \"b c\" ", 'd');
    assert "a \"b c\" " + ['d'] == "a \"b c\" d";
    assert Scan("a \"b c\" d") == Scanner(["a", "b c", ""], "d", Some('d'), Outside);
  }

  /** The first token, then a quote that a backslash does not keep from opening. */
  lemma EscapedQuoteOpens()
    ensures Scan("say \\\"") == Scanner(["say"], "", Some('"'), Inside('"'))
  {
    ScanSnoc("", 's');
    assert "" + ['s'] == "s";
    assert Scan("s") == Scanner([], "s", Some('s'), Outside);
    ScanSnoc("s", 'a');
    assert "s" + ['a'] == "sa";
    assert Scan("sa") == Scanner([], "sa", Some('a'), Outside);
    ScanSnoc("sa", 'y');
    assert "sa" + ['y'] == "say";
    assert Scan("say") == Scanner([], "say", Some('y'), Outside);
    ScanSnoc("say", ' ');
    assert "say" + [' '] == "say ";
    assert Scan("say ") == Scanner(["say"], "", Some(' '), Outside);
    ScanSnoc("say ", '\\');
    assert "say " + ['\\'] == "say \\";
    assert Scan("say \\") == Scanner(["say"], "", Some('\\'), Outside);
    ScanSnoc("say \\", '"');
    assert "say \\" + ['"'] == "say \\\"";
    assert Scan("say \\\"") == Scanner(["say"], "", Some('"'), Inside('"'));
  }

  /** Outside quotes a backslash does not stop a quote from opening; inside,
      it stops the closing one. */
  lemma EscapedQuotesOutside()
    ensures Tokens("say \\\"hi\\\"") == ["say", "hi\""]
  {
    EscapedQuoteOpens();
    ScanSnoc("say \\\"", 'h');
    assert "say \\\"" + ['h'] == "say \\\"h";
    assert Scan("say \\\"h") == Scanner(["say"], "h", Some('h'), Inside('"'));
    ScanSnoc("say \\\"h", 'i');
    assert "say \\\"h" + ['i'] == "say \\\"hi";
    assert Scan("say \\\"hi") == Scanner(["say"], "hi", Some('i'), Inside('"'));
    ScanSnoc("say \\\"hi", '\\');
    assert "say \\\"hi" + ['\\'] == "say \\\"hi\\";
    assert Scan("say \\\"hi\\") == Scanner(["say"], "hi", Some('\\'), Inside('"'));
    ScanSnoc("say \\\"hi\\", '"');
    assert "say \\\"hi\\" + ['"'] == "say \\\"hi\\\"";
    assert Scan("say \\\"hi\\\"") == Scanner(["say"], "hi\"", Some('"'), Inside('"'));
  }

  /** Consecutive spaces give an empty token in the middle. */
  lemma DoubledSpace()
    ensures Tokens("a  b") == ["a", "", "b"]
  {
    OneWordThenSpace();
    ScanSnoc("a ", ' ');
    assert "a " + [' '] == "a  ";
    assert Scan("a  ") == Scanner(["a", ""], "", Some(' '), Outside);
    ScanSnoc("a  ", 'b');
    assert "a  " + ['b'] == "a  b";
    assert Scan("a  b") == Scanner(["a", ""], "b", Some('b'), Outside);
  }

  /** A trailing empty accumulator is not pushed. */
  lemma TrailingSpace()
    ensures Tokens("a ") == ["a"]
  {
    OneWordThenSpace();
  }
}
