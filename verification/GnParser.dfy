/** Values of GN text, and the parser as a function of the text that is still unread. */
module GnParser {
  import opened Wrappers
  import opened GnText

  /** The Python values the printer is handed; `Other` is any value of an unsupported type. */
  datatype Value =
    | Bool(b: bool)
    | Int(n: int)
    | Str(s: string)
    | List(items: seq<Value>)
    | Dict(entries: map<string, Value>)
    | Other

  /** One constructor for each message a `GNException` of the parser carries. */
  datatype ParseError =
    | TrailingInput
    | ExpectedInput
    | UnexpectedToken
    | ExpectedIdentifier
    | ExpectedNumber
    | InvalidNumber
    | ExpectedString
    | NotAString
    | EndsInBackslash
    | UnterminatedString
    | ExpectedList
    | NotAList
    | UnterminatedList
    | NotSeparated

  /** What parsing arguments can raise: a `GNException`, or Python's `IndexError`. */
  datatype ArgsError = Gn(e: ParseError) | IndexError

  type Args = map<string, Value>

  /** A parsed value and the text after it. */
  type Step = Result<(Value, string), ParseError>

  /** Less text is left after the step, so the cursor advanced. */
  predicate Advances(r: Step, s: string) {
    r.Ok? ==> |r.value.1| < |s|
  }

  /** _ParseAllowTrailing */
  function ParseValue(s: string): (r: Step)
    ensures Advances(r, s)
    decreases |s|, 3
  {
    ParseToken(SkipWs(s))
  }

  /** The choice _ParseAllowTrailing makes on the next character. */
  function ParseToken(t: string): (r: Step)
    ensures Advances(r, t)
    decreases |t|, 2
  {
    if t == "" then Err(ExpectedInput)
    else if t[0] == '[' then ParseList(t)
    else if IsDigitOrMinus(t[0]) then ParseNumber(t)
    else if t[0] == '"' then ParseString(t)
    else if "true" <= t then Ok((Bool(true), t[4..]))
    else if "false" <= t then Ok((Bool(false), t[5..]))
    else Err(UnexpectedToken)
  }

  function ParseNumber(s: string): (r: Step)
    ensures Advances(r, s)
  {
    var t := SkipWs(s);
    if t == "" then Err(ExpectedNumber) else
    var n := NumberLength(t);
    if n == 0 || t[..n] == "-" then Err(InvalidNumber) else Ok((Int(IntOf(t[..n])), t[n..]))
  }

  /** The length of a digit or minus sign and the digits after it. */
  function NumberLength(t: string): (n: nat)
    requires t != ""
    ensures n <= |t| && (n > 0 ==> IsDigitOrMinus(t[0]))
    ensures forall i :: 1 <= i < n ==> IsDigit(t[i])
  {
    if IsDigitOrMinus(t[0]) then
      var n := RunLength(IsDigit, t[1..]);
      assert forall i :: 1 <= i < 1 + n ==> t[i] == t[1..][i - 1];
      1 + n
    else
      RunLength(IsDigit, t)
  }

  /** Python's `int` on an optional minus sign and digits. */
  function IntOf(s: string): int
    requires s != "" && AllDigits(s[1..]) && IsDigitOrMinus(s[0])
  {
    if s[0] == '-' then 0 - NatValue(s[1..]) else NatValue(s)
  }

  function ParseString(s: string): (r: Step)
    ensures Advances(r, s)
  {
    var t := SkipWs(s);
    if t == "" then Err(ExpectedString)
    else if t[0] != '"' then Err(NotAString)
    else
      var (raw, rest) :- StringBody(t[1..]);
      Ok((Str(Unescape(raw)), rest))
  }

  /** Splits the text after an opening quote at its closing quote: the raw body, and what follows. */
  function StringBody(s: string): (r: Result<(string, string), ParseError>)
    ensures r.Ok? ==> s == r.value.0 + ("\"" + r.value.1)
  {
    if s == "" then Err(UnterminatedString)
    else if s[0] == '"' then Ok(("", s[1..]))
    else if s[0] == '\\' then
      if |s| == 1 then Err(EndsInBackslash) else Prepend(s[..2], StringBody(s[2..]))
    else Prepend(s[..1], StringBody(s[1..]))
  }

  function Prepend(head: string, r: Result<(string, string), ParseError>): Result<(string, string), ParseError> {
    match r
    case Ok((raw, rest)) => Ok((head + raw, rest))
    case Err(e) => Err(e)
  }

  function ParseList(s: string): (r: Step)
    ensures Advances(r, s)
    decreases |s|, 1
  {
    var t := SkipWs(s);
    if t == "" then Err(ExpectedList)
    else if t[0] != '[' then Err(NotAList)
    else ParseItems(SkipWs(t[1..]), true, [])
  }

  /** The loop over list items; `comma` says whether another item may follow. */
  function ParseItems(s: string, comma: bool, done: seq<Value>): (r: Step)
    ensures Advances(r, s)
    decreases |s|, 4
  {
    if s == "" then Err(UnterminatedList)
    else if s[0] == ']' then Ok((List(done), s[1..]))
    else if !comma then Err(NotSeparated)
    else
      var (v, rest) :- ParseValue(s);
      var t := SkipWs(rest);
      if t == "" then Err(UnterminatedList)
      else if t[0] == ',' then ParseItems(SkipWs(t[1..]), true, done + [v])
      else ParseItems(t, false, done + [v])
  }

  /** Parse, which FromGNString calls. */
  function FromGNString(s: string): Result<Value, ParseError> {
    var (v, rest) :- ParseValue(s);
    if SkipWs(rest) == "" then Ok(v) else Err(TrailingInput)
  }

  /** _ParseIdent: it reads one character past the identifier, whether or not there is one. */
  function ParseIdent(s: string): (r: Result<(string, string), ArgsError>)
    requires s != ""
    ensures r.Ok? ==> r.value.0 + r.value.1 == s && IsIdent(r.value.0) && r.value.1 != ""
  {
    if !IsIdentStart(s[0]) then Err(Gn(ExpectedIdentifier)) else
    var n := 1 + RunLength(IsIdentPart, s[1..]);
    if n == |s| then Err(IndexError) else
    assert s[..n][1..] == s[1..][..n - 1];
    Ok((s[..n], s[n..]))
  }

  /** One `identifier = value` and the text after it. */
  function ParseArg(s: string): (r: Result<(string, Value, string), ArgsError>)
    requires s != ""
    ensures r.Ok? ==> |r.value.2| < |s|
  {
    var (name, rest) :- ParseIdent(s);
    var t := SkipWs(rest);
    if t == "" then Err(IndexError)
    else if t[0] != '=' then Err(Gn(UnexpectedToken))
    else match ParseValue(SkipWs(t[1..]))
      case Ok((v, u)) => Ok((name, v, SkipWs(u)))
      case Err(e) => Err(Gn(e))
  }

  /** The loop of ParseArgs from the arguments read so far. */
  function ParseArgs(s: string, d: Args): Result<Args, ArgsError>
    decreases |s|
  {
    if s == "" then Ok(d) else
    var (name, v, rest) :- ParseArg(s);
    ParseArgs(rest, d[name := v])
  }

  function FromGNArgs(s: string): Result<Args, ArgsError> {
    ParseArgs(SkipWs(s), map[])
  }
}
