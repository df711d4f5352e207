/** CommandParser.java: one line of console input into a command and its arguments. */
module CommandParser {
  import opened Text
  import opened Errors
  import opened Wrappers
  import opened JavaInts

  datatype CommandType =
    | SHORTEN | GO | LIST | INFO | EDIT | DELETE
    | SWITCH | NEWUSER | WHOAMI | STATS
    | CONFIG | HELP | EXIT | UNKNOWN

  /** The leading run of characters matched by `\s`. */
  function SpacePrefix(s: string): (n: nat)
    ensures n <= |s|
    ensures forall i :: 0 <= i < n ==> IsRegexSpace(s[i])
    ensures n == |s| || !IsRegexSpace(s[n])
  {
    if s != [] && IsRegexSpace(s[0]) then 1 + SpacePrefix(s[1..]) else 0
  }

  /** The leading run of characters not matched by `\s`. */
  function WordPrefix(s: string): (n: nat)
    ensures n <= |s|
    ensures forall i :: 0 <= i < n ==> !IsRegexSpace(s[i])
    ensures n == |s| || IsRegexSpace(s[n])
  {
    if s != [] && !IsRegexSpace(s[0]) then 1 + WordPrefix(s[1..]) else 0
  }

  predicate IsWord(w: string) {
    w != [] && forall i :: 0 <= i < |w| ==> !IsRegexSpace(w[i])
  }

  /**
   * `split("\\s+")` on text that does not start with a space: the maximal runs of non-space
   * characters, in order (trailing empty strings are dropped, as Java does).
   */
  function Words(s: string): (r: seq<string>)
    ensures forall i :: 0 <= i < |r| ==> IsWord(r[i])
    decreases |s|
  {
    var w := WordPrefix(s);
    var t := s[w..];
    var k := SpacePrefix(t);
    if w == 0 && k == 0 then []
    else if w == 0 then Words(t[k..])
    else [s[..w]] + Words(t[k..])
  }

  /** The words separated by single spaces. */
  function Join(ws: seq<string>): string {
    if ws == [] then [] else if |ws| == 1 then ws[0] else ws[0] + (" " + Join(ws[1..]))
  }

  /** Splitting undoes joining: any list of words comes back from its space-separated text. */
  lemma {:induction false} WordsJoin(ws: seq<string>)
    requires forall i :: 0 <= i < |ws| ==> IsWord(ws[i])
    ensures Words(Join(ws)) == ws
  {
    if ws != [] {
      var w := ws[0];
      if |ws| == 1 {
        WordsOfWordThen(w, []);
        assert w + [] == w;
      } else {
        var rest := Join(ws[1..]);
        JoinStartsWithWord(ws[1..]);
        WordsOfWordThen(w, " " + rest);
        assert Join(ws) == w + (" " + rest);
        SingleSpace(rest);
        WordsJoin(ws[1..]);
      }
    }
  }

  /** Text made of a word and then a space run (or nothing) splits into that word first. */
  lemma WordsOfWordThen(w: string, tail: string)
    requires IsWord(w)
    requires tail == [] || IsRegexSpace(tail[0])
    ensures Words(w + tail) == [w] + Words(tail[SpacePrefix(tail)..])
  {
    var s := w + tail;
    WordPrefixOf(w, tail);
    assert s[..|w|] == w && s[|w|..] == tail;
  }

  /** One space before a word is a space run of length one. */
  lemma SingleSpace(rest: string)
    requires rest != [] && !IsRegexSpace(rest[0])
    ensures SpacePrefix(" " + rest) == 1 && (" " + rest)[1..] == rest
  {
    assert (" " + rest)[1..] == rest;
  }

  /** A word followed by a space or by nothing: the word is the whole leading run. */
  lemma {:induction false} WordPrefixOf(w: string, tail: string)
    requires IsWord(w)
    requires tail == [] || IsRegexSpace(tail[0])
    ensures WordPrefix(w + tail) == |w|
    decreases |w|
  {
    var s := w + tail;
    assert s[0] == w[0];
    if |w| > 1 {
      assert s[1..] == w[1..] + tail;
      WordPrefixOf(w[1..], tail);
    } else {
      assert s[1..] == tail;
    }
  }

  /** Joined text starts with the first word's first character, which is not a space. */
  lemma JoinStartsWithWord(ws: seq<string>)
    requires ws != [] && IsWord(ws[0])
    ensures Join(ws) != [] && Join(ws)[0] == ws[0][0]
  {
  }

  /** parseCommandType: the thirteen keywords; everything else is UNKNOWN. */
  function ParseCommandType(command: string): (r: CommandType)
    ensures r != UNKNOWN ==> Keyword(r) == command
  {
    match command
    case "shorten" => SHORTEN
    case "go" => GO
    case "list" => LIST
    case "info" => INFO
    case "edit" => EDIT
    case "delete" => DELETE
    case "switch" => SWITCH
    case "newuser" => NEWUSER
    case "whoami" => WHOAMI
    case "stats" => STATS
    case "config" => CONFIG
    case "help" => HELP
    case "exit" => EXIT
    case _ => UNKNOWN
  }

  /** The keyword of a command type. */
  function Keyword(t: CommandType): string
    requires t != UNKNOWN
  {
    match t
    case SHORTEN => "shorten"
    case GO => "go"
    case LIST => "list"
    case INFO => "info"
    case EDIT => "edit"
    case DELETE => "delete"
    case SWITCH => "switch"
    case NEWUSER => "newuser"
    case WHOAMI => "whoami"
    case STATS => "stats"
    case CONFIG => "config"
    case HELP => "help"
    case EXIT => "exit"
  }

  const KEYWORDS: set<string> := {"shorten", "go", "list", "info", "edit", "delete", "switch",
                                  "newuser", "whoami", "stats", "config", "help", "exit"}

  /** Each keyword names its own type, and exactly these thirteen words are recognised. */
  lemma KeywordRoundTrip(t: CommandType, command: string)
    ensures t != UNKNOWN ==> ParseCommandType(Keyword(t)) == t
    ensures ParseCommandType(command) != UNKNOWN <==> command in KEYWORDS
  {
  }

  /** `sh`, which the help text offers, is not a keyword. */
  lemma ShIsUnknown()
    ensures ParseCommandType("sh") == UNKNOWN
  {
  }

  /** ParsedCommand: the type and the argument list. */
  datatype ParsedCommand = ParsedCommand(kind: CommandType, args: seq<string>) {
    /** getArgCount. */
    function GetArgCount(): nat { |args| }

    /** getArg: null past the end; a negative index reaches List.get, which throws. */
    function GetArg(index: int): (r: Result<Option<string>>)
      ensures r == Err(IndexOutOfBounds) <==> index < 0
      ensures r.Ok? && r.value.Some? <==> 0 <= index < GetArgCount()
      ensures r.Ok? && r.value.Some? ==> r.value.value == args[index]
    {
      if index < |args| then
        if index < 0 then Err(IndexOutOfBounds) else Ok(Some(args[index]))
      else Ok(None)
    }
  }

  /** parse: null or blank is UNKNOWN without arguments; otherwise the first word, lower-cased, picks the type. */
  function Parse(input: Option<string>): (r: ParsedCommand)
    ensures input.None? || IsBlank(input.value) ==> r == ParsedCommand(UNKNOWN, [])
    ensures forall i :: 0 <= i < |r.args| ==> IsWord(r.args[i])
  {
    if input.None? || IsBlank(input.value) then ParsedCommand(UNKNOWN, [])
    else
      var parts := Words(Trim(input.value));
      if parts == [] then ParsedCommand(UNKNOWN, [])
      else ParsedCommand(ParseCommandType(ToLower(parts[0])), parts[1..])
  }

  /** A line of printable words parses into the first word's type and the remaining words, unchanged. */
  lemma {:induction false} ParseJoin(ws: seq<string>)
    requires ws != []
    requires forall i, j :: 0 <= i < |ws| && 0 <= j < |ws[i]| ==> ws[i][j] > ' '
    requires forall i :: 0 <= i < |ws| ==> ws[i] != []
    ensures Parse(Some(Join(ws))) == ParsedCommand(ParseCommandType(ToLower(ws[0])), ws[1..])
    ensures Parse(Some(Join(ws))).GetArgCount() == |ws| - 1
  {
    assert forall i :: 0 <= i < |ws| ==> IsWord(ws[i]);
    var s := Join(ws);
    JoinPrintable(ws);
    TrimNoopEnds(s);
    BlankIff(s);
    assert !IsTrimmable(s[0]);
    WordsJoin(ws);
  }

  /** Joined printable words have no trimmable character at either end. */
  lemma {:induction false} JoinPrintable(ws: seq<string>)
    requires ws != []
    requires forall i, j :: 0 <= i < |ws| && 0 <= j < |ws[i]| ==> ws[i][j] > ' '
    requires forall i :: 0 <= i < |ws| ==> ws[i] != []
    ensures var s := Join(ws); s != [] && !IsTrimmable(s[0]) && !IsTrimmable(s[|s| - 1])
  {
    if |ws| > 1 {
      JoinPrintable(ws[1..]);
      var rest := Join(ws[1..]);
      assert Join(ws) == ws[0] + (" " + rest);
    }
  }

  /** Trimming only looks at the ends. */
  lemma TrimNoopEnds(s: string)
    requires s != [] && !IsTrimmable(s[0]) && !IsTrimmable(s[|s| - 1])
    ensures Trim(s) == s
  {
    assert TrimStart(s) == s;
  }

  /** The decimal value of a run of ASCII digits, most significant first. */
  function DigitsValue(s: string): (v: nat)
    requires forall i :: 0 <= i < |s| ==> IsAsciiDigit(s[i])
  {
    if s == [] then 0
    else
      assert IsAsciiDigit(s[|s| - 1]);
      10 * DigitsValue(s[..|s| - 1]) + (s[|s| - 1] as int - '0' as int)
  }

  predicate AllDigits(s: string) {
    s != [] && forall i :: 0 <= i < |s| ==> IsAsciiDigit(s[i])
  }

  /** The value Integer.parseInt reads, if the text has its syntax: an optional sign, then digits. */
  function DecimalValue(s: string): (r: Option<int>)
  {
    if s != [] && (s[0] == '-' || s[0] == '+') then
      if AllDigits(s[1..]) then
        var v: int := DigitsValue(s[1..]);
        Some(if s[0] == '-' then -v else v)
      else None
    else if AllDigits(s) then Some(DigitsValue(s))
    else None
  }

  /**
   * parseInteger: Integer.parseInt (NumberFormatException for null, bad syntax or a value
   * outside int, reported as a format error), then the value must be positive.
   */
  function ParseInteger(s: Option<string>): (r: Result<int>)
    ensures r.Ok? ==> 0 < r.value <= INT_MAX
    ensures r.Ok? <==> s.Some? && DecimalValue(s.value).Some? && 0 < DecimalValue(s.value).value <= INT_MAX
    ensures r.Err? ==> r.error == IllegalArgument(
              if s.Some? && DecimalValue(s.value).Some? && IsInt(DecimalValue(s.value).value) then NotPositive
              else BadIntegerFormat)
  {
    if s.None? then Err(IllegalArgument(BadIntegerFormat))
    else match DecimalValue(s.value)
      case None => Err(IllegalArgument(BadIntegerFormat))
      case Some(v) =>
        if !IsInt(v) then Err(IllegalArgument(BadIntegerFormat))
        else if v <= 0 then Err(IllegalArgument(NotPositive))
        else Ok(v)
  }

  /** Digits read back as the number they render. */
  lemma {:induction false} DigitsValueDecimal(n: nat)
    ensures DigitsValue(Decimal(n)) == n
    decreases n
  {
    var d := Decimal(n);
    if n >= 10 {
      DigitsValueDecimal(n / 10);
      assert d[..|d| - 1] == Decimal(n / 10);
    }
  }

  /** Every positive int, written in decimal, is parsed back to itself. */
  lemma ParseIntegerDecimal(n: int)
    requires 0 < n <= INT_MAX
    ensures ParseInteger(Some(Decimal(n))) == Ok(n)
  {
    DigitsValueDecimal(n);
    assert Decimal(n)[0] != '-' && Decimal(n)[0] != '+';
  }

  /** One past the int range is a format error; zero and negatives are refused as not positive. */
  lemma ParseIntegerBounds(n: nat)
    ensures ParseInteger(Some(Decimal(INT_MAX + 1))) == Err(IllegalArgument(BadIntegerFormat))
    ensures ParseInteger(Some("-" + Decimal(n))) ==
              Err(IllegalArgument(if n <= -INT_MIN then NotPositive else BadIntegerFormat))
  {
    DigitsValueDecimal(INT_MAX + 1);
    assert Decimal(INT_MAX + 1)[0] != '-' && Decimal(INT_MAX + 1)[0] != '+';
    DigitsValueDecimal(n);
    assert ("-" + Decimal(n))[1..] == Decimal(n);
  }
}
