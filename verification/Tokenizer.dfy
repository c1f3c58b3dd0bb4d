/** The command line tokenizer: words separated by white space, double quotes, and backslash escapes
    inside quotes. */
module Tokenizer {
  import opened Types

  /** The loop's variables. */
  datatype Scan = Scan(tokens: seq<string>, current: string, inQuotes: bool, escaping: bool, tokenStarted: bool)

  const START := Scan([], "", false, false, false)

  const VERTICAL_TAB: char := 11 as char
  const FORM_FEED: char := 12 as char

  /** std::isspace in the C locale. */
  predicate IsSpace(c: char) {
    c == ' ' || c == '\t' || c == '\n' || c == '\r' || c == VERTICAL_TAB || c == FORM_FEED
  }

  /** The character that an escape stands for. */
  function Unescape(c: char): Option<char> {
    match c
    case 'n' => Some('\n')
    case 't' => Some('\t')
    case '"' => Some('"')
    case '\\' => Some('\\')
    case _ => None
  }

  function EndToken(st: Scan): Scan {
    if st.tokenStarted then st.(tokens := st.tokens + [st.current], current := "", tokenStarted := false) else st
  }

  /** One character; None for an unsupported escape. */
  function Step(st: Scan, c: char): Option<Scan> {
    if st.escaping then
      match Unescape(c)
      case None => None
      case Some(x) => Some(st.(current := st.current + [x], escaping := false, tokenStarted := true))
    else if st.inQuotes && c == '\\' then Some(st.(escaping := true))
    else if c == '"' then Some(st.(inQuotes := !st.inQuotes, tokenStarted := true))
    else if !st.inQuotes && IsSpace(c) then Some(EndToken(st))
    else Some(st.(current := st.current + [c], tokenStarted := true))
  }

  function Run(st: Scan, input: string): Option<Scan>
    decreases input
  {
    if input == "" then Some(st)
    else
      match Step(st, input[0])
      case None => None
      case Some(st') => Run(st', input[1..])
  }

  function Finish(st: Scan): Result<seq<string>> {
    if st.escaping || st.inQuotes then Err(InvalidArgument) else Ok(EndToken(st).tokens)
  }

  function Tokenize(input: string): Result<seq<string>> {
    match Run(START, input)
    case None => Err(InvalidArgument)
    case Some(st) => Finish(st)
  }

  /** The loop as the source runs it. */
  method TokenizeLoop(input: string) returns (r: Result<seq<string>>)
    ensures r == Tokenize(input)
  {
    var tokens: seq<string> := [];
    var current := "";
    var inQuotes, escaping, tokenStarted := false, false, false;
    for i := 0 to |input|
      invariant Run(START, input) == Run(Scan(tokens, current, inQuotes, escaping, tokenStarted), input[i..])
    {
      var character := input[i];
      assert input[i..][0] == character && input[i..][1..] == input[i + 1..];
      if escaping {
        match character {
          case 'n' => current := current + ['\n'];
          case 't' => current := current + ['\t'];
          case '"' => current := current + [character];
          case '\\' => current := current + [character];
          case _ => return Err(InvalidArgument);
        }
        escaping := false;
        tokenStarted := true;
        continue;
      }
      if inQuotes && character == '\\' {
        escaping := true;
        continue;
      }
      if character == '"' {
        inQuotes := !inQuotes;
        tokenStarted := true;
        continue;
      }
      if !inQuotes && IsSpace(character) {
        if tokenStarted {
          tokens := tokens + [current];
          current := "";
          tokenStarted := false;
        }
        continue;
      }
      current := current + [character];
      tokenStarted := true;
    }
    if escaping {
      return Err(InvalidArgument);
    }
    if inQuotes {
      return Err(InvalidArgument);
    }
    if tokenStarted {
      tokens := tokens + [current];
    }
    return Ok(tokens);
  }

  // Running over parts

  lemma {:induction false} RunConcat(st: Scan, a: string, b: string)
    ensures Run(st, a + b) == match Run(st, a) case None => None case Some(mid) => Run(mid, b)
    decreases a
  {
    hide Step;
    if a == "" {
      assert a + b == b;
    } else {
      assert (a + b)[1..] == a[1..] + b;
      var next := Step(st, a[0]);
      if next.Some? {
        RunConcat(next.value, a[1..], b);
      }
    }
  }

  /** Tokens already finished are carried along untouched. */
  function Prepend(before: seq<string>, st: Scan): Scan {
    st.(tokens := before + st.tokens)
  }

  lemma StepPrepend(before: seq<string>, st: Scan, c: char)
    ensures Step(Prepend(before, st), c) ==
            match Step(st, c)
            case None => None
            case Some(s) => Some(Prepend(before, s))
  {
    assert before + (st.tokens + [st.current]) == (before + st.tokens) + [st.current];
  }

  lemma {:induction false} RunPrepend(before: seq<string>, st: Scan, input: string)
    ensures Run(Prepend(before, st), input) ==
            match Run(st, input)
            case None => None
            case Some(s) => Some(Prepend(before, s))
    decreases input
  {
    hide Step, Prepend;
    if input != "" {
      StepPrepend(before, st, input[0]);
      var next := Step(st, input[0]);
      if next.Some? {
        RunPrepend(before, next.value, input[1..]);
      }
    }
  }

  /** A scan keeps `current` empty while no token has started. */
  lemma {:induction false} RunTidy(st: Scan, input: string)
    requires !st.tokenStarted && !st.inQuotes && !st.escaping ==> st.current == ""
    ensures var r := Run(st, input);
            r.Some? && !r.value.tokenStarted && !r.value.inQuotes && !r.value.escaping ==> r.value.current == ""
    decreases input
  {
    if input != "" {
      var next := Step(st, input[0]);
      if next.Some? {
        RunTidy(next.value, input[1..]);
      }
    }
  }

  /** Tokenizing composes: after a text that tokenizes, white space and any further text give the
      tokens of both, and fail exactly if the further text alone fails. */
  lemma TokenizeComposes(a: string, space: char, b: string)
    requires Tokenize(a).Ok? && IsSpace(space)
    ensures Tokenize(a + [space] + b) ==
            match Tokenize(b) case Err(e) => Err(e) case Ok(bs) => Ok(Tokenize(a).value + bs)
  {
    hide Step;
    var st := Run(START, a).value;
    var before := Tokenize(a).value;
    RunTidy(START, a);
    RunConcat(START, a, [space] + b);
    assert a + [space] + b == a + ([space] + b);
    RunConcat(st, [space], b);
    SpaceEndsToken(st, space);
    assert EndToken(st) == Prepend(before, START) by {
      assert before + [] == before;
    }
    RunPrepend(before, START, b);
    var end := Run(START, b);
    if end.Some? {
      assert before + (end.value.tokens + [end.value.current]) == (before + end.value.tokens) + [end.value.current];
    }
  }

  lemma SpaceEndsToken(st: Scan, space: char)
    requires !st.inQuotes && !st.escaping && IsSpace(space)
    ensures Run(st, [space]) == Some(EndToken(st))
  {
    assert [space][1..] == "";
  }

  // Printing

  function EscapeChar(c: char): string {
    if c == '\n' then ['\\', 'n']
    else if c == '\t' then ['\\', 't']
    else if c == '"' || c == '\\' then ['\\', c]
    else [c]
  }

  function Escape(t: string): string {
    if t == "" then "" else EscapeChar(t[0]) + Escape(t[1..])
  }

  function Quote(t: string): string {
    ['"'] + Escape(t) + ['"']
  }

  /** A token that may also be written without quotes; a backslash is an ordinary character there. */
  predicate IsWord(t: string) {
    t != "" && forall i :: 0 <= i < |t| ==> t[i] != '"' && !IsSpace(t[i])
  }

  /** A token as it is to be written: quoted, or bare where that is possible. */
  datatype Printed = Printed(token: string, bare: bool)

  predicate Printable(p: Printed) {
    p.bare ==> IsWord(p.token)
  }

  function PrintToken(p: Printed): string {
    if p.bare then p.token else Quote(p.token)
  }

  function Print(ps: seq<Printed>): string {
    if ps == [] then ""
    else if |ps| == 1 then PrintToken(ps[0])
    else PrintToken(ps[0]) + [' '] + Print(ps[1..])
  }

  function Tokens(ps: seq<Printed>): (ts: seq<string>)
    ensures |ts| == |ps|
  {
    if ps == [] then [] else [ps[0].token] + Tokens(ps[1..])
  }

  lemma EscapedChar(st: Scan, c: char)
    requires st.inQuotes && !st.escaping
    ensures Run(st, EscapeChar(c)) == Some(st.(current := st.current + [c], tokenStarted := true))
  {
    var e := EscapeChar(c);
    var after := st.(current := st.current + [c], tokenStarted := true);
    if |e| == 2 {
      var mid := st.(escaping := true);
      assert Step(st, e[0]) == Some(mid);
      assert e[1..][1..] == "" && e[1..][0] == e[1];
      assert Step(mid, e[1]) == Some(after);
      assert Run(mid, e[1..]) == Some(after);
    } else {
      assert Step(st, e[0]) == Some(after);
      assert e[1..] == "";
    }
  }

  lemma {:induction false} EscapedText(st: Scan, t: string)
    requires st.inQuotes && !st.escaping && st.tokenStarted
    ensures Run(st, Escape(t)) == Some(st.(current := st.current + t))
    decreases t
  {
    hide Step, EscapeChar;
    if t == "" {
      assert st.current + t == st.current;
    } else {
      var mid := st.(current := st.current + [t[0]]);
      EscapedChar(st, t[0]);
      RunConcat(st, EscapeChar(t[0]), Escape(t[1..]));
      EscapedText(mid, t[1..]);
      assert st.current + t == mid.current + t[1..];
    }
  }

  lemma QuotedToken(t: string)
    ensures Run(START, Quote(t)) == Some(START.(current := t, tokenStarted := true))
  {
    hide Escape;
    var inside := START.(inQuotes := true, tokenStarted := true);
    assert ['"'][1..] == "";
    assert Run(START, ['"']) == Some(inside);
    RunConcat(START, ['"'] + Escape(t), ['"']);
    RunConcat(START, ['"'], Escape(t));
    EscapedText(inside, t);
    assert "" + t == t;
  }

  lemma {:induction false} BareText(st: Scan, t: string)
    requires !st.inQuotes && !st.escaping
    requires forall i :: 0 <= i < |t| ==> t[i] != '"' && !IsSpace(t[i])
    ensures Run(st, t) == Some(st.(current := st.current + t, tokenStarted := st.tokenStarted || t != ""))
    decreases t
  {
    if t == "" {
      assert st.current + t == st.current;
    } else {
      var mid := st.(current := st.current + [t[0]], tokenStarted := true);
      BareText(mid, t[1..]);
      assert st.current + t == mid.current + t[1..];
    }
  }

  lemma OneToken(p: Printed)
    requires Printable(p)
    ensures Tokenize(PrintToken(p)) == Ok([p.token])
  {
    hide Quote, Step, Run;
    assert [] + [p.token] == [p.token];
    if p.bare {
      BareText(START, p.token);
      assert "" + p.token == p.token;
    } else {
      QuotedToken(p.token);
    }
  }

  /** The tokenizer inverts the printer: for every list of tokens, empty ones and ones full of quotes,
      backslashes and white space included, and whichever of them are quoted, tokenizing the printed
      text gives the list back. */
  lemma {:induction false} TokenizePrinted(ps: seq<Printed>)
    requires forall i :: 0 <= i < |ps| ==> Printable(ps[i])
    ensures Tokenize(Print(ps)) == Ok(Tokens(ps))
  {
    hide Tokenize, Printable, PrintToken;
    if ps == [] {
      EmptyText();
    } else {
      OneToken(ps[0]);
      assert Tokens(ps) == [ps[0].token] + Tokens(ps[1..]);
      if |ps| == 1 {
        assert Tokens(ps[1..]) == [] && Tokens(ps) == [ps[0].token];
        assert Print(ps) == PrintToken(ps[0]);
      } else {
        TokenizePrinted(ps[1..]);
        TokenizeComposes(PrintToken(ps[0]), ' ', Print(ps[1..]));
      }
    }
  }

  lemma EmptyText()
    ensures Tokenize("") == Ok([])
  {}

  // Single characters

  /** Space, tab, line feed, vertical tab, form feed and carriage return end a token outside quotes. */
  predicate WhiteSpaceCode(code: int) {
    code == 32 || 9 <= code <= 13
  }

  lemma WhiteSpaceSeparates(a: string, space: char, b: string)
    requires Tokenize(a).Ok? && WhiteSpaceCode(space as int)
    ensures Tokenize(a + [space] + b) ==
            match Tokenize(b) case Err(e) => Err(e) case Ok(bs) => Ok(Tokenize(a).value + bs)
  {
    assert IsSpace(space);
    TokenizeComposes(a, space, b);
  }

  /** And no other character but the quote does: any other text is one token, backslashes included. */
  lemma OneWord(w: string)
    requires w != "" && forall i :: 0 <= i < |w| ==> w[i] as int != 34 && !WhiteSpaceCode(w[i] as int)
    ensures Tokenize(w) == Ok([w])
  {
    assert IsWord(w);
    OneToken(Printed(w, true));
  }

  lemma InsideQuote(t: string)
    ensures Run(START, ['"'] + Escape(t)) == Some(Scan([], t, true, false, true))
  {
    hide Escape;
    assert ['"'][1..] == "";
    assert Run(START, ['"']) == Some(START.(inQuotes := true, tokenStarted := true));
    RunConcat(START, ['"'], Escape(t));
    EscapedText(START.(inQuotes := true, tokenStarted := true), t);
    assert "" + t == t;
  }

  /** What a backslash and the character after it stand for inside quotes: n, t, the quote and the
      backslash are supported; with any other character the whole line is refused. */
  lemma EscapeOutcome(t: string, c: char, rest: string)
    ensures Tokenize(['"'] + Escape(t) + ['\\', c] + ['"']) ==
            if c == 'n' then Ok([t + [10 as char]])
            else if c == 't' then Ok([t + [9 as char]])
            else if c as int == 34 || c as int == 92 then Ok([t + [c]])
            else Err(InvalidArgument)
    ensures c != 'n' && c != 't' && c as int != 34 && c as int != 92 ==>
              Tokenize(['"'] + Escape(t) + ['\\', c] + rest) == Err(InvalidArgument)
  {
    AfterEscape(t, c, ['"']);
    AfterEscape(t, c, rest);
    if Unescape(c).Some? {
      ClosingQuote(t + [Unescape(c).value]);
    }
  }

  lemma ClosingQuote(t: string)
    ensures Run(Scan([], t, true, false, true), ['"']) == Some(Scan([], t, false, false, true))
    ensures Finish(Scan([], t, false, false, true)) == Ok([t])
  {
    assert ['"'][1..] == "";
    assert [] + [t] == [t];
  }

  lemma AfterEscape(t: string, c: char, rest: string)
    ensures Run(START, ['"'] + Escape(t) + ['\\', c] + rest) ==
            match Unescape(c)
            case None => None
            case Some(x) => Run(Scan([], t + [x], true, false, true), rest)
  {
    hide Escape;
    var st := Scan([], t, true, false, true);
    InsideQuote(t);
    RunConcat(START, ['"'] + Escape(t) + ['\\', c], rest);
    RunConcat(START, ['"'] + Escape(t), ['\\', c]);
    assert ['\\', c][1..] == [c] && [c][1..] == "";
    assert Step(st, '\\') == Some(st.(escaping := true));
    assert Run(st, ['\\', c]) == Run(st.(escaping := true), [c]);
  }

  /** A line that ends inside quotes, or after a backslash there, is refused. */
  lemma UnfinishedQuote(t: string)
    ensures Tokenize(['"'] + Escape(t)) == Err(InvalidArgument)
    ensures Tokenize(['"'] + Escape(t) + ['\\']) == Err(InvalidArgument)
  {
    hide Escape;
    InsideQuote(t);
    RunConcat(START, ['"'] + Escape(t), ['\\']);
    assert ['\\'][1..] == "";
  }
}
