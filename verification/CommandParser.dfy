/** From tokens to commands. */
module CommandParser {
  import opened Types
  import opened Tokenizer

  datatype CommandType = TypeSet | TypeGet | TypeDelete | TypeExists | TypeKeys | TypeStats | TypeCompact
      | TypeHelp | TypeExit

  datatype Command = Command(kind: CommandType, key: string, value: string, ttlMs: Option<int>)

  function Upper(c: char): char {
    if 'a' <= c <= 'z' then (c as int - 32) as char else c
  }

  function Uppercase(s: string): (u: string)
    ensures |u| == |s|
  {
    seq(|s|, i requires 0 <= i < |s| => Upper(s[i]))
  }

  predicate IsDigit(c: char) {
    '0' <= c <= '9'
  }

  predicate AllDigits(s: string) {
    forall i :: 0 <= i < |s| ==> IsDigit(s[i])
  }

  function DigitsValue(s: string): nat
    requires AllDigits(s)
  {
    if s == "" then 0
    else
      assert IsDigit(s[|s| - 1]);
      10 * DigitsValue(s[..|s| - 1]) + (s[|s| - 1] as int - '0' as int)
  }

  /** std::from_chars for a signed 64-bit integer that must use the whole text: an optional minus,
      at least one digit, no plus, no white space, and a value in range. */
  function FromChars(text: string): Option<int> {
    var negative := text != "" && text[0] == '-';
    var digits := if negative then text[1..] else text;
    if digits == "" || !AllDigits(digits) then None
    else
      var n: int := DigitsValue(digits);
      var value: int := if negative then -n else n;
      if -INT64_MAX - 1 <= value <= INT64_MAX then Some(value) else None
  }

  /** A positive whole number of seconds, in milliseconds. */
  function ParseTtl(text: string): Result<int> {
    match FromChars(text)
    case None => Err(InvalidArgument)
    case Some(seconds) =>
      if seconds <= 0 then Err(InvalidArgument)
      else if seconds > INT64_MAX / 1000 then Err(InvalidArgument)
      else Ok(seconds * 1000)
  }

  function Simple(kind: CommandType): Command {
    Command(kind, "", "", None)
  }

  function WithKey(tokens: seq<string>, kind: CommandType): Result<Command> {
    if |tokens| != 2 then Err(InvalidArgument) else Ok(Command(kind, tokens[1], "", None))
  }

  function Alone(tokens: seq<string>, kind: CommandType): Result<Command> {
    if |tokens| != 1 then Err(InvalidArgument) else Ok(Simple(kind))
  }

  function ParseSet(tokens: seq<string>): Result<Command> {
    if |tokens| != 3 && |tokens| != 5 then Err(InvalidArgument)
    else if |tokens| == 3 then Ok(Command(TypeSet, tokens[1], tokens[2], None))
    else if Uppercase(tokens[3]) != "TTL" then Err(InvalidArgument)
    else
      match ParseTtl(tokens[4])
      case Err(e) => Err(e)
      case Ok(ttlMs) => Ok(Command(TypeSet, tokens[1], tokens[2], Some(ttlMs)))
  }

  function ParseTokens(tokens: seq<string>): Result<Command> {
    if tokens == [] then Err(InvalidArgument)
    else
      var name := Uppercase(tokens[0]);
      if name == "SET" then ParseSet(tokens)
      else if name == "GET" then WithKey(tokens, TypeGet)
      else if name == "DEL" || name == "DELETE" then WithKey(tokens, TypeDelete)
      else if name == "EXISTS" then WithKey(tokens, TypeExists)
      else if name == "KEYS" then
        if |tokens| > 2 then Err(InvalidArgument)
        else Ok(Command(TypeKeys, if |tokens| == 2 then tokens[1] else "", "", None))
      else if name == "STATS" then Alone(tokens, TypeStats)
      else if name == "COMPACT" then Alone(tokens, TypeCompact)
      else if name == "HELP" then Alone(tokens, TypeHelp)
      else if name == "EXIT" || name == "QUIT" then Alone(tokens, TypeExit)
      else Err(InvalidArgument)
  }

  function Parse(input: string): Result<Command> {
    match Tokenize(input)
    case Err(e) => Err(e)
    case Ok(tokens) => ParseTokens(tokens)
  }

  // Printing commands

  function Decimal(n: nat): (s: string)
    ensures s != "" && AllDigits(s)
  {
    var digit := ('0' as int + n % 10) as char;
    if n < 10 then [digit] else Decimal(n / 10) + [digit]
  }

  lemma {:induction false} DecimalValue(n: nat)
    ensures DigitsValue(Decimal(n)) == n
  {
    var s := Decimal(n);
    if n < 10 {
      assert s[..|s| - 1] == "";
    } else {
      DecimalValue(n / 10);
      assert s[..|s| - 1] == Decimal(n / 10);
    }
  }

  lemma TtlOfDecimal(seconds: nat)
    requires 0 < seconds <= INT64_MAX / 1000
    ensures ParseTtl(Decimal(seconds)) == Ok(seconds * 1000)
  {
    DecimalValue(seconds);
    assert IsDigit(Decimal(seconds)[0]);
  }

  /** What a parsed command can look like: a TTL is a positive whole number of seconds that fits in
      64 bits as milliseconds, and unused fields are empty. */
  predicate Canonical(c: Command) {
    match c.kind
    case TypeSet =>
      c.ttlMs.Some? ==> 0 < c.ttlMs.value && c.ttlMs.value % 1000 == 0 && c.ttlMs.value / 1000 <= INT64_MAX / 1000
    case TypeGet => c.value == "" && c.ttlMs == None
    case TypeDelete => c.value == "" && c.ttlMs == None
    case TypeExists => c.value == "" && c.ttlMs == None
    case TypeKeys => c.value == "" && c.ttlMs == None
    case _ => c == Simple(c.kind)
  }

  function Name(kind: CommandType): string {
    match kind
    case TypeSet => "SET"
    case TypeGet => "GET"
    case TypeDelete => "DEL"
    case TypeExists => "EXISTS"
    case TypeKeys => "KEYS"
    case TypeStats => "STATS"
    case TypeCompact => "COMPACT"
    case TypeHelp => "HELP"
    case TypeExit => "EXIT"
  }

  /** The tokens of a command: its name bare, its arguments quoted. */
  function CommandTokens(c: Command): seq<Printed>
    requires Canonical(c)
  {
    [Printed(Name(c.kind), true)]
    + (match c.kind
       case TypeSet =>
         [Printed(c.key, false), Printed(c.value, false)]
         + (if c.ttlMs.Some? then [Printed("TTL", true), Printed(Decimal(c.ttlMs.value / 1000), true)] else [])
       case TypeGet => [Printed(c.key, false)]
       case TypeDelete => [Printed(c.key, false)]
       case TypeExists => [Printed(c.key, false)]
       case TypeKeys => [Printed(c.key, false)]
       case _ => [])
  }

  function PrintCommand(c: Command): string
    requires Canonical(c)
  {
    Print(CommandTokens(c))
  }

  lemma NamesAreUpper(kind: CommandType)
    ensures Uppercase(Name(kind)) == Name(kind) && IsWord(Name(kind))
    ensures Uppercase("TTL") == "TTL" && IsWord("TTL")
  {}

  lemma DecimalIsWord(n: nat)
    ensures IsWord(Decimal(n))
  {
    var s := Decimal(n);
    forall i | 0 <= i < |s|
      ensures s[i] != '"' && !IsSpace(s[i])
    {
      assert IsDigit(s[i]);
    }
  }

  lemma {:induction false} TokenAt(ps: seq<Printed>, i: nat)
    requires i < |ps|
    ensures Tokens(ps)[i] == ps[i].token
  {
    if i > 0 {
      TokenAt(ps[1..], i - 1);
    }
  }

  lemma PrintedTokens(c: Command)
    requires Canonical(c)
    ensures var ts := Tokens(CommandTokens(c));
            && |ts| == |CommandTokens(c)|
            && ts[0] == Name(c.kind)
            && (|ts| > 1 ==> ts[1] == c.key)
            && (|ts| > 2 ==> ts[2] == c.value)
            && (|ts| > 3 ==> |ts| == 5 && ts[3] == "TTL" && c.ttlMs.Some? && ts[4] == Decimal(c.ttlMs.value / 1000))
  {
    var ps := CommandTokens(c);
    forall i | 0 <= i < |ps|
      ensures Tokens(ps)[i] == ps[i].token
    {
      TokenAt(ps, i);
    }
  }

  lemma CommandPrintable(c: Command)
    requires Canonical(c)
    ensures forall i :: 0 <= i < |CommandTokens(c)| ==> Printable(CommandTokens(c)[i])
  {
    hide IsWord;
    NamesAreUpper(c.kind);
    if c.kind.TypeSet? && c.ttlMs.Some? {
      DecimalIsWord(c.ttlMs.value / 1000);
    }
  }

  lemma ParsePrintedTokens(c: Command)
    requires Canonical(c)
    ensures ParseTokens(Tokens(CommandTokens(c))) == Ok(c)
  {
    hide Tokens, Uppercase, ParseTtl;
    PrintedTokens(c);
    NamesAreUpper(c.kind);
    if c.kind.TypeSet? && c.ttlMs.Some? {
      TtlOfDecimal(c.ttlMs.value / 1000);
    }
  }

  /** Printing and parsing a command gives the command back. */
  lemma ParsePrinted(c: Command)
    requires Canonical(c)
    ensures Parse(PrintCommand(c)) == Ok(c)
  {
    hide *;
    CommandPrintable(c);
    TokenizePrinted(CommandTokens(c));
    ParsePrintedTokens(c);
    ParseOfTokens(PrintCommand(c), Tokens(CommandTokens(c)));
    PrintCommandIs(c);
  }

  lemma ParseOfTokens(input: string, tokens: seq<string>)
    ensures Tokenize(input) == Ok(tokens) ==> Parse(input) == ParseTokens(tokens)
  {}

  lemma PrintCommandIs(c: Command)
    requires Canonical(c)
    ensures PrintCommand(c) == Print(CommandTokens(c))
  {}

  lemma TtlIsCanonical(text: string)
    ensures ParseTtl(text).Ok? ==>
              var ms := ParseTtl(text).value;
              0 < ms && ms % 1000 == 0 && ms / 1000 <= INT64_MAX / 1000 && ms <= INT64_MAX
  {
    hide FromChars;
  }

  /** The parser accepts exactly the canonical commands: a command is the result of parsing some
      text if and only if it is canonical. */
  lemma AcceptedIffCanonical(c: Command)
    ensures Canonical(c) <==> exists input :: Parse(input) == Ok(c)
  {
    if Canonical(c) {
      ParsePrinted(c);
    }
    forall input | Parse(input) == Ok(c)
      ensures Canonical(c)
    {
      var tokens := Tokenize(input).value;
      ParsedIsCanonical(tokens, c);
    }
  }

  lemma ParsedIsCanonical(tokens: seq<string>, c: Command)
    requires ParseTokens(tokens) == Ok(c)
    ensures Canonical(c)
  {
    hide Uppercase, ParseTtl;
    if |tokens| == 5 {
      TtlIsCanonical(tokens[4]);
    }
  }

  // Upper and lower case

  /** The same letter but for its case, or the same character. */
  predicate SameLetter(c: char, d: char) {
    || c == d
    || ('a' <= c <= 'z' && d as int + 32 == c as int)
    || ('A' <= c <= 'Z' && c as int + 32 == d as int)
  }

  predicate SameUpToCase(a: string, b: string) {
    |a| == |b| && forall i :: 0 <= i < |a| ==> SameLetter(a[i], b[i])
  }

  lemma UpperAgrees(c: char, d: char)
    ensures Upper(c) == Upper(d) <==> SameLetter(c, d)
  {}

  lemma UppercaseAgrees(a: string, b: string)
    ensures Uppercase(a) == Uppercase(b) <==> SameUpToCase(a, b)
  {
    hide Upper, SameLetter;
    forall i | 0 <= i < |a| && i < |b|
      ensures Upper(a[i]) == Upper(b[i]) <==> SameLetter(a[i], b[i])
    {
      UpperAgrees(a[i], b[i]);
    }
    if Uppercase(a) == Uppercase(b) {
      forall i | 0 <= i < |a|
        ensures SameLetter(a[i], b[i])
      {
        assert Uppercase(a)[i] == Uppercase(b)[i];
      }
    }
  }

  /** The case of the command name and of the word TTL does not matter. */
  lemma CaseIgnored(tokens: seq<string>, word: string)
    ensures tokens != [] && SameUpToCase(tokens[0], word) ==> ParseTokens(tokens[0 := word]) == ParseTokens(tokens)
    ensures |tokens| == 5 && SameUpToCase(tokens[3], word) ==> ParseTokens(tokens[3 := word]) == ParseTokens(tokens)
  {
    hide Uppercase, ParseTtl, SameUpToCase;
    if tokens != [] {
      UppercaseAgrees(tokens[0], word);
    }
    if |tokens| == 5 {
      UppercaseAgrees(tokens[3], word);
    }
  }

  // Which token lists are commands

  /** The words for a command, DELETE and QUIT included. */
  predicate Names(kind: CommandType, word: string) {
    match kind
    case TypeSet => SameUpToCase(word, "SET")
    case TypeGet => SameUpToCase(word, "GET")
    case TypeDelete => SameUpToCase(word, "DEL") || SameUpToCase(word, "DELETE")
    case TypeExists => SameUpToCase(word, "EXISTS")
    case TypeKeys => SameUpToCase(word, "KEYS")
    case TypeStats => SameUpToCase(word, "STATS")
    case TypeCompact => SameUpToCase(word, "COMPACT")
    case TypeHelp => SameUpToCase(word, "HELP")
    case TypeExit => SameUpToCase(word, "EXIT") || SameUpToCase(word, "QUIT")
  }

  /** How many tokens a command takes, its name included. */
  predicate CountFits(kind: CommandType, n: nat) {
    match kind
    case TypeSet => n == 3 || n == 5
    case TypeGet => n == 2
    case TypeDelete => n == 2
    case TypeExists => n == 2
    case TypeKeys => n == 1 || n == 2
    case _ => n == 1
  }

  function Zeros(n: nat): (s: string)
    ensures |s| == n
  {
    seq(n, _ => '0')
  }

  /** The text is the decimal numeral of a number of seconds, perhaps with leading zeros, and that
      number is positive and fits in 64 bits as milliseconds. */
  ghost predicate Seconds(text: string, n: nat) {
    0 < n <= 9223372036854775 && exists z: nat :: text == Zeros(z) + Decimal(n)
  }

  lemma {:induction false} ZerosValue(z: nat)
    ensures DigitsValue(Zeros(z)) == 0
  {
    if z > 0 {
      assert Zeros(z)[..z - 1] == Zeros(z - 1);
      ZerosValue(z - 1);
    }
  }

  lemma {:induction false} LeadingZeros(z: nat, n: nat)
    requires n > 0
    ensures AllDigits(Zeros(z) + Decimal(n))
    ensures DigitsValue(Zeros(z) + Decimal(n)) == n
  {
    var s, d := Zeros(z) + Decimal(n), Decimal(n);
    assert s[..|s| - 1] == Zeros(z) + d[..|d| - 1];
    if n < 10 {
      assert s[..|s| - 1] == Zeros(z);
      ZerosValue(z);
    } else {
      assert d[..|d| - 1] == Decimal(n / 10);
      LeadingZeros(z, n / 10);
    }
  }

  /** Every string of digits is a run of zeros and the numeral of its value. */
  lemma {:induction false} DigitsAreNumeral(s: string) returns (z: nat)
    requires AllDigits(s)
    ensures s == if DigitsValue(s) == 0 then Zeros(z) else Zeros(z) + Decimal(DigitsValue(s))
  {
    if s == "" {
      z := 0;
    } else {
      var front, last := s[..|s| - 1], s[|s| - 1];
      z := DigitsAreNumeral(front);
      var v, digit := DigitsValue(front), last as int - '0' as int;
      assert IsDigit(last) && DigitsValue(s) == 10 * v + digit;
      assert s == front + [last];
      if v == 0 && digit == 0 {
        z := z + 1;
      } else if v > 0 {
        assert (10 * v + digit) / 10 == v && (10 * v + digit) % 10 == digit;
        assert Decimal(DigitsValue(s)) == Decimal(v) + [last];
      } else {
        assert Decimal(DigitsValue(s)) == [last];
      }
    }
  }

  lemma TtlOfDigits(text: string, ms: int)
    ensures ParseTtl(text) == Ok(ms) <==>
            text != "" && AllDigits(text) && 0 < DigitsValue(text) <= INT64_MAX / 1000 && ms == 1000 * DigitsValue(text)
    ensures ParseTtl(text).Err? ==> ParseTtl(text).code == InvalidArgument
  {
    hide DigitsValue;
    if text != "" && text[0] == '-' {
      assert !AllDigits(text) by { assert !IsDigit(text[0]); }
    }
  }

  /** A TTL is accepted exactly when it is such a numeral, and then means that many seconds. */
  lemma TtlIff(text: string, ms: int)
    ensures ParseTtl(text) == Ok(ms) <==> exists n: nat :: Seconds(text, n) && ms == 1000 * n
  {
    hide DigitsValue, Decimal, Zeros, ParseTtl;
    TtlOfDigits(text, ms);
    if ParseTtl(text) == Ok(ms) {
      var z := DigitsAreNumeral(text);
      assert Seconds(text, DigitsValue(text));
    }
    forall n: nat | Seconds(text, n) && ms == 1000 * n
      ensures ParseTtl(text) == Ok(ms)
    {
      var z: nat :| text == Zeros(z) + Decimal(n);
      LeadingZeros(z, n);
    }
  }

  lemma TtlAccepted(text: string)
    ensures ParseTtl(text).Ok? <==> exists n: nat :: Seconds(text, n)
    ensures ParseTtl(text).Err? ==> ParseTtl(text).code == InvalidArgument
  {
    hide Seconds, ParseTtl;
    TtlOfDigits(text, 0);
    if ParseTtl(text).Ok? {
      TtlIff(text, ParseTtl(text).value);
    }
    forall n: nat | Seconds(text, n)
      ensures ParseTtl(text).Ok?
    {
      TtlIff(text, 1000 * n);
    }
  }

  /** The TTL of a SET with five tokens. */
  ghost predicate TtlDenotes(tokens: seq<string>, ttlMs: Option<int>) {
    if |tokens| != 5 then ttlMs == None
    else
      && SameUpToCase(tokens[3], "TTL")
      && ttlMs.Some? && exists n: nat :: Seconds(tokens[4], n) && ttlMs.value == 1000 * n
  }

  /** The command that a list of tokens stands for. */
  ghost predicate Denotes(tokens: seq<string>, c: Command) {
    && tokens != []
    && Names(c.kind, tokens[0])
    && CountFits(c.kind, |tokens|)
    && c.key == (if |tokens| > 1 then tokens[1] else "")
    && c.value == (if |tokens| > 2 then tokens[2] else "")
    && TtlDenotes(tokens, c.ttlMs)
  }

  lemma UpperNames()
    ensures Uppercase("SET") == "SET" && Uppercase("GET") == "GET" && Uppercase("DEL") == "DEL"
    ensures Uppercase("DELETE") == "DELETE" && Uppercase("EXISTS") == "EXISTS" && Uppercase("KEYS") == "KEYS"
    ensures Uppercase("STATS") == "STATS" && Uppercase("COMPACT") == "COMPACT" && Uppercase("HELP") == "HELP"
    ensures Uppercase("EXIT") == "EXIT" && Uppercase("QUIT") == "QUIT" && Uppercase("TTL") == "TTL"
  {}

  /** The words for a command, by their upper-case form. */
  predicate NamesUpper(kind: CommandType, name: string) {
    match kind
    case TypeSet => name == "SET"
    case TypeGet => name == "GET"
    case TypeDelete => name == "DEL" || name == "DELETE"
    case TypeExists => name == "EXISTS"
    case TypeKeys => name == "KEYS"
    case TypeStats => name == "STATS"
    case TypeCompact => name == "COMPACT"
    case TypeHelp => name == "HELP"
    case TypeExit => name == "EXIT" || name == "QUIT"
  }

  lemma NamesUppercase(kind: CommandType, word: string)
    ensures Names(kind, word) <==> NamesUpper(kind, Uppercase(word))
  {
    UpperNames();
    hide Uppercase, SameUpToCase;
    UppercaseAgrees(word, "SET");
    UppercaseAgrees(word, "GET");
    UppercaseAgrees(word, "DEL");
    UppercaseAgrees(word, "DELETE");
    UppercaseAgrees(word, "EXISTS");
    UppercaseAgrees(word, "KEYS");
    UppercaseAgrees(word, "STATS");
    UppercaseAgrees(word, "COMPACT");
    UppercaseAgrees(word, "HELP");
    UppercaseAgrees(word, "EXIT");
    UppercaseAgrees(word, "QUIT");
  }

  /** A list of tokens parses to a command exactly when it denotes that command. */
  lemma ParsesIffDenotes(tokens: seq<string>, c: Command)
    ensures ParseTokens(tokens) == Ok(c) <==> Denotes(tokens, c)
  {
    hide Uppercase, ParseTtl, SameUpToCase, Names, Seconds;
    if tokens != [] {
      NamesUppercase(c.kind, tokens[0]);
      if |tokens| == 5 {
        TtlWord(tokens[3]);
        if c.ttlMs.Some? {
          TtlIff(tokens[4], c.ttlMs.value);
        }
      }
    }
  }

  lemma TtlWord(word: string)
    ensures Uppercase(word) == "TTL" <==> SameUpToCase(word, "TTL")
  {
    UpperNames();
    UppercaseAgrees(word, "TTL");
  }

  /** A list of tokens is refused exactly when it is empty, its first word names no command, it has
      the wrong number of tokens for the command named, or the TTL of a SET is wrong. */
  lemma RefusedIff(tokens: seq<string>)
    ensures ParseTokens(tokens) == Err(InvalidArgument) <==>
            || tokens == []
            || (forall kind :: !Names(kind, tokens[0]))
            || (exists kind :: Names(kind, tokens[0]) && !CountFits(kind, |tokens|))
            || (|tokens| == 5 && Names(TypeSet, tokens[0])
                && !(SameUpToCase(tokens[3], "TTL") && exists n: nat :: Seconds(tokens[4], n)))
    ensures ParseTokens(tokens).Err? ==> ParseTokens(tokens).code == InvalidArgument
  {
    hide Uppercase, ParseTtl, SameUpToCase, Names, Seconds;
    if tokens != [] {
      NamesUppercase(TypeSet, tokens[0]);
      NamesUppercase(TypeGet, tokens[0]);
      NamesUppercase(TypeDelete, tokens[0]);
      NamesUppercase(TypeExists, tokens[0]);
      NamesUppercase(TypeKeys, tokens[0]);
      NamesUppercase(TypeStats, tokens[0]);
      NamesUppercase(TypeCompact, tokens[0]);
      NamesUppercase(TypeHelp, tokens[0]);
      NamesUppercase(TypeExit, tokens[0]);
      if |tokens| == 5 {
        TtlWord(tokens[3]);
        TtlAccepted(tokens[4]);
      }
    }
  }

  /** So in a printed command the name may be any of the command's words, in any case, quoted or bare. */
  lemma NameInAnyCase(c: Command, name: string, bare: bool)
    requires Canonical(c) && Names(c.kind, name) && (bare ==> IsWord(name))
    ensures Parse(Print(CommandTokens(c)[0 := Printed(name, bare)])) == Ok(c)
  {
    var ps := CommandTokens(c);
    var qs := ps[0 := Printed(name, bare)];
    CommandPrintable(c);
    hide *;
    PrintableWord(name, bare);
    assert forall i :: 0 <= i < |qs| ==> Printable(qs[i]);
    TokenizePrinted(qs);
    ParsePrintedTokens(c);
    ParsesIffDenotes(Tokens(ps), c);
    OtherName(ps, Printed(name, bare));
    Renamed(Tokens(ps), name, c);
    ParsesIffDenotes(Tokens(qs), c);
    ParseOfTokens(Print(qs), Tokens(qs));
  }

  lemma PrintableWord(name: string, bare: bool)
    requires bare ==> IsWord(name)
    ensures Printable(Printed(name, bare))
  {}

  lemma OtherName(ps: seq<Printed>, p: Printed)
    requires ps != []
    ensures Tokens(ps[0 := p]) == Tokens(ps)[0 := p.token]
  {
    assert ps[0 := p][1..] == ps[1..];
  }

  lemma Renamed(tokens: seq<string>, name: string, c: Command)
    requires Denotes(tokens, c) && Names(c.kind, name)
    ensures Denotes(tokens[0 := name], c)
  {
    hide SameUpToCase, Names, Seconds;
    var renamed := tokens[0 := name];
    assert renamed[0] == name && forall i :: 0 < i < |tokens| ==> renamed[i] == tokens[i];
    if |tokens| == 5 {
      assert renamed[3] == tokens[3] && renamed[4] == tokens[4];
    }
  }

  lemma TtlInstances()
    ensures ParseTtl("10") == Ok(10000) && ParseTtl("007") == Ok(7000)
    ensures ParseTtl("") == ParseTtl("0") == ParseTtl("-5") == ParseTtl("+5") == ParseTtl("5s") == Err(InvalidArgument)
  {
    assert DigitsValue("10"[..1]) == 1 && DigitsValue("10") == 10;
    assert DigitsValue("007"[..2][..1]) == 0 && DigitsValue("007"[..2]) == 0 && DigitsValue("007") == 7;
    TtlOfDigits("10", 10000);
    TtlOfDigits("007", 7000);
    TtlOfDigits("0", 0);
    assert !IsDigit("-5"[0]) && !IsDigit("+5"[0]) && !IsDigit("5s"[1]);
  }
}
