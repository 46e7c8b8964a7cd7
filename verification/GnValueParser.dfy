/** The cursor-moving parser object and the printing loops, proved against the functions of
    GnParser and GnPrinter. */
module GnValueParser {
  import opened Wrappers
  import opened GnText
  import opened GnParser
  import GnPrinter

  class GNValueParser {
    const input: string
    var cur: nat

    constructor (input: string)
      ensures this.input == input && cur == 0
    {
      this.input := input;
      cur := 0;
    }

    ghost predicate Valid()
      reads this
    {
      cur <= |input|
    }

    /** The unread text. */
    ghost function Rest(): string
      requires Valid()
      reads this
    {
      input[cur..]
    }

    /** The parser returned `r` where the function parses with outcome `step`. */
    ghost predicate Took(r: Result<Value, ParseError>, step: Step)
      requires Valid()
      reads this
    {
      match step
      case Ok((v, rest)) => r == Ok(v) && Rest() == rest
      case Err(e) => r == Err(e)
    }

    predicate IsDone()
      reads this
    {
      cur == |input|
    }

    /** The next character. */
    function Next(): (c: char)
      requires Valid() && !IsDone()
      reads this
      ensures Rest() != "" && c == Rest()[0]
    {
      input[cur]
    }

    method Advance()
      requires Valid() && !IsDone()
      modifies this
      ensures Valid() && cur == old(cur) + 1
      ensures Rest() == old(Rest())[1..]
    {
      assert Rest()[1..] == input[cur + 1..];
      cur := cur + 1;
    }

    method ConsumeWhitespace()
      requires Valid()
      modifies this
      ensures Valid() && old(cur) <= cur
      ensures Rest() == SkipWs(old(Rest()))
    {
      while !IsDone() && IsWs(Next())
        invariant Valid() && old(cur) <= cur
        invariant SkipWs(Rest()) == SkipWs(old(Rest()))
        decreases |input| - cur
      {
        Advance();
      }
    }

    method ConstantFollows(constant: string) returns (b: bool)
      requires Valid()
      modifies this
      ensures Valid() && old(cur) <= cur
      ensures b == (constant <= old(Rest()))
      ensures Rest() == if b then old(Rest())[|constant|..] else old(Rest())
    {
      var end := cur + |constant|;
      if end > |input| {
        return false;
      }
      assert input[cur..end] == Rest()[..|constant|];
      if input[cur..end] == constant {
        cur := end;
        return true;
      }
      return false;
    }

    /** Moves over a run of characters of one class. */
    method SkipRun(p: char -> bool)
      requires Valid()
      modifies this
      ensures Valid() && cur == old(cur) + RunLength(p, old(Rest()))
    {
      while !IsDone() && p(Next())
        invariant old(cur) <= cur <= |input|
        invariant RunLength(p, old(Rest())) == cur - old(cur) + RunLength(p, Rest())
        decreases |input| - cur
      {
        Advance();
      }
    }

    /** Moves over a sign or digit and the digits after it. */
    method TakeNumber() returns (number: string)
      requires Valid() && !IsDone()
      modifies this
      ensures Valid() && old(cur) <= cur
      ensures number == old(Rest())[..NumberLength(old(Rest()))]
      ensures Rest() == old(Rest())[NumberLength(old(Rest()))..]
    {
      ghost var t := Rest();
      var begin := cur;
      if IsDigitOrMinus(Next()) {
        Advance();
      }
      SkipRun(IsDigit);
      assert cur - begin == NumberLength(t);
      Slices(input, begin, cur);
      return input[begin..cur];
    }

    method ParseNumber() returns (r: Result<Value, ParseError>)
      requires Valid()
      modifies this
      ensures Valid() && old(cur) <= cur
      ensures Took(r, GnParser.ParseNumber(old(Rest())))
    {
      ConsumeWhitespace();
      if IsDone() {
        return Err(ExpectedNumber);
      }
      var number := TakeNumber();
      if |number| == 0 || number == "-" {
        return Err(InvalidNumber);
      }
      return Ok(Int(IntOf(number)));
    }

    /** Moves to the closing quote. */
    method SkipStringBody() returns (r: Result<string, ParseError>)
      requires Valid()
      modifies this
      ensures Valid() && old(cur) <= cur
      ensures match StringBody(old(Rest()))
              case Ok((raw, rest)) => r == Ok(raw) && Rest() == "\"" + rest
              case Err(e) => r == Err(e)
    {
      var begin := cur;
      PrependNothing(StringBody(Rest()));
      assert input[begin..cur] == "";
      while !IsDone() && Next() != '"'
        invariant begin <= cur <= |input|
        invariant StringBody(old(Rest())) == Prepend(input[begin..cur], StringBody(Rest()))
        decreases |input| - cur
      {
        ghost var was, s := cur, Rest();
        if Next() == '\\' {
          Advance();
          if IsDone() {
            return Err(EndsInBackslash);
          }
        }
        Advance();
        ghost var n := cur - was;
        assert s[n..] == Rest();
        PrependTwice(input[begin..was], s[..n], StringBody(Rest()));
        assert input[begin..was] + s[..n] == input[begin..cur];
      }
      if IsDone() {
        return Err(UnterminatedString);
      }
      assert input[begin..cur] + "" == input[begin..cur];
      return Ok(input[begin..cur]);
    }

    method ParseString() returns (r: Result<Value, ParseError>)
      requires Valid()
      modifies this
      ensures Valid() && old(cur) <= cur
      ensures Took(r, GnParser.ParseString(old(Rest())))
    {
      ConsumeWhitespace();
      if IsDone() {
        return Err(ExpectedString);
      }
      if Next() != '"' {
        return Err(NotAString);
      }
      Advance();
      var raw := SkipStringBody();
      if raw.Err? {
        return Err(raw.error);
      }
      Advance();
      var s := UnescapeGNString(raw.value);
      return Ok(Str(s));
    }

    method ParseList() returns (r: Result<Value, ParseError>)
      requires Valid()
      modifies this
      ensures Valid() && old(cur) <= cur
      ensures Took(r, GnParser.ParseList(old(Rest())))
      decreases |input| - cur, 0
    {
      ConsumeWhitespace();
      if IsDone() {
        return Err(ExpectedList);
      }
      if Next() != '[' {
        return Err(NotAList);
      }
      Advance();
      ConsumeWhitespace();
      if IsDone() {
        return Err(UnterminatedList);
      }
      r := ParseListItems();
    }

    /** The loop of ParseList. */
    method ParseListItems() returns (r: Result<Value, ParseError>)
      requires Valid()
      modifies this
      ensures Valid() && old(cur) <= cur
      ensures Took(r, ParseItems(old(Rest()), true, []))
      decreases |input| - cur, 2
    {
      var items: seq<Value> := [];
      var previousHadTrailingComma := true;
      while !IsDone()
        invariant Valid() && old(cur) <= cur
        invariant ParseItems(old(Rest()), true, []) == ParseItems(Rest(), previousHadTrailingComma, items)
        decreases |input| - cur
      {
        if Next() == ']' {
          Advance();
          return Ok(List(items));
        }
        if !previousHadTrailingComma {
          return Err(NotSeparated);
        }
        ghost var before := cur;
        var item := ParseAllowTrailing();
        if item.Err? {
          return item;
        }
        assert before < cur;
        items := items + [item.value];
        ConsumeWhitespace();
        if IsDone() {
          break;
        }
        previousHadTrailingComma := Next() == ',';
        if previousHadTrailingComma {
          Advance();
          ConsumeWhitespace();
        }
      }
      return Err(UnterminatedList);
    }

    method ParseAllowTrailing() returns (r: Result<Value, ParseError>)
      requires Valid()
      modifies this
      ensures Valid() && old(cur) <= cur
      ensures Took(r, ParseValue(old(Rest())))
      decreases |input| - cur, 1
    {
      ConsumeWhitespace();
      if IsDone() {
        return Err(ExpectedInput);
      }
      var nextChar := Next();
      if nextChar == '[' {
        r := ParseList();
      } else if IsDigitOrMinus(nextChar) {
        r := ParseNumber();
      } else if nextChar == '"' {
        r := ParseString();
      } else {
        var b := ConstantFollows("true");
        if b {
          return Ok(Bool(true));
        }
        b := ConstantFollows("false");
        if b {
          return Ok(Bool(false));
        }
        return Err(UnexpectedToken);
      }
    }

    method Parse() returns (r: Result<Value, ParseError>)
      requires Valid()
      modifies this
      ensures Valid()
      ensures r == GnParser.FromGNString(old(Rest()))
    {
      r := ParseAllowTrailing();
      if r.Ok? {
        ConsumeWhitespace();
        if !IsDone() {
          r := Err(TrailingInput);
        }
      }
    }

    method ParseIdent() returns (r: Result<string, ArgsError>)
      requires Valid() && !IsDone()
      modifies this
      ensures Valid() && old(cur) <= cur
      ensures match GnParser.ParseIdent(old(Rest()))
              case Ok((name, rest)) => r == Ok(name) && Rest() == rest && old(cur) < cur
              case Err(e) => r == Err(e)
    {
      if !IsIdentStart(Next()) {
        return Err(Gn(ExpectedIdentifier));
      }
      var begin := cur;
      Advance();
      SkipRun(IsIdentPart);
      if IsDone() {
        return Err(IndexError);
      }
      var ident := input[begin..cur];
      Slices(input, begin, cur);
      return Ok(ident);
    }

    /** One turn of the loop of ParseArgs. */
    method ParseArg() returns (r: Result<(string, Value), ArgsError>)
      requires Valid() && !IsDone()
      modifies this
      ensures Valid()
      ensures match GnParser.ParseArg(old(Rest()))
              case Ok((name, v, rest)) => r == Ok((name, v)) && Rest() == rest
              case Err(e) => r == Err(e)
    {
      var ident :- ParseIdent();
      ConsumeWhitespace();
      if IsDone() {
        return Err(IndexError);
      }
      if Next() != '=' {
        return Err(Gn(UnexpectedToken));
      }
      Advance();
      ConsumeWhitespace();
      var val := ParseAllowTrailing();
      if val.Err? {
        return Err(Gn(val.error));
      }
      ConsumeWhitespace();
      return Ok((ident, val.value));
    }

    method ParseArgs() returns (r: Result<Args, ArgsError>)
      requires Valid()
      modifies this
      ensures Valid()
      ensures r == GnParser.FromGNArgs(old(Rest()))
    {
      var d: Args := map[];
      ConsumeWhitespace();
      while !IsDone()
        invariant Valid()
        invariant GnParser.ParseArgs(Rest(), d) == GnParser.FromGNArgs(old(Rest()))
        decreases |Rest()|
      {
        var arg :- ParseArg();
        d := d[arg.0 := arg.1];
      }
      return Ok(d);
    }
  }

  lemma Slices(s: string, begin: nat, end: nat)
    requires begin <= end <= |s|
    ensures s[begin..][..end - begin] == s[begin..end] && s[begin..][end - begin..] == s[end..]
  {
  }

  lemma PrependNothing(r: Result<(string, string), ParseError>)
    ensures Prepend("", r) == r
  {
    if r.Ok? {
      assert "" + r.value.0 == r.value.0;
    }
  }

  lemma PrependTwice(a: string, b: string, r: Result<(string, string), ParseError>)
    ensures Prepend(a, Prepend(b, r)) == Prepend(a + b, r)
  {
    if r.Ok? {
      assert a + (b + r.value.0) == (a + b) + r.value.0;
    }
  }

  method FromGNString(inputString: string) returns (r: Result<Value, ParseError>)
    ensures r == GnParser.FromGNString(inputString)
  {
    var parser := new GNValueParser(inputString);
    r := parser.Parse();
  }

  method FromGNArgs(inputString: string) returns (r: Result<Args, ArgsError>)
    ensures r == GnParser.FromGNArgs(inputString)
  {
    var parser := new GNValueParser(inputString);
    r := parser.ParseArgs();
  }

  /** ToGNString: the texts of list items are collected in a loop, and the text of a dictionary
      grows in a loop over its sorted keys; the first error ends either. */
  method ToGNString(value: Value, allowDicts: bool := true) returns (r: GnPrinter.Printed)
    ensures r == GnPrinter.Print(value, allowDicts)
    decreases value
  {
    match value
    case Str(s) =>
      if '\n' in s {
        return Err(GnPrinter.NewlineInString);
      }
      return Ok("\"" + (Escape(s) + "\""));
    case Bool(b) =>
      if b {
        return Ok("true");
      }
      return Ok("false");
    case List(items) =>
      var parts := [];
      ItemsBegin(items);
      for i := 0 to |items|
        invariant GnPrinter.PrintItems(items) == ItemsFrom(parts, items, i)
      {
        var text := ToGNString(items[i]);
        ItemsNext(parts, items, i);
        if text.Err? {
          return text;
        }
        parts := parts + [text.value];
      }
      ItemsDone(parts, items);
      return Ok("[ " + (GnPrinter.Join(parts) + " ]"));
    case Dict(entries) =>
      if !allowDicts {
        return Err(GnPrinter.NestedScope);
      }
      var keys := GnPrinter.Sorted(entries.Keys);
      var result := "";
      EntriesBegin(value, keys);
      for i := 0 to |keys|
        invariant GnPrinter.PrintEntries(value, keys) == EntriesFrom(result, value, keys, i)
      {
        var text := ToGNString(value.entries[keys[i]], false);
        EntriesNext(result, value, keys, i);
        if text.Err? {
          return text;
        }
        result := result + GnPrinter.EntryText(keys[i], text.value);
      }
      EntriesDone(result, value, keys);
      return Ok(result);
    case Int(n) =>
      return Ok(IntText(n));
    case Other =>
      return Err(GnPrinter.UnsupportedType);
  }

  /** `done` and then the texts of the items from the i-th on. */
  function ItemsFrom(done: seq<string>, items: seq<Value>, i: nat): Result<seq<string>, GnPrinter.PrintError>
    requires i <= |items|
  {
    match GnPrinter.PrintItems(items[i..])
    case Ok(rest) => Ok(done + rest)
    case Err(e) => Err(e)
  }

  lemma ItemsBegin(items: seq<Value>)
    ensures ItemsFrom([], items, 0) == GnPrinter.PrintItems(items)
  {
    assert items[0..] == items;
    var r := GnPrinter.PrintItems(items);
    if r.Ok? {
      assert [] + r.value == r.value;
    }
  }

  lemma ItemsDone(done: seq<string>, items: seq<Value>)
    ensures ItemsFrom(done, items, |items|) == Ok(done)
  {
    assert items[|items|..] == [] && done + [] == done;
  }

  lemma ItemsNext(done: seq<string>, items: seq<Value>, i: nat)
    requires i < |items|
    ensures ItemsFrom(done, items, i) == match GnPrinter.Print(items[i], true) {
      case Ok(text) => ItemsFrom(done + [text], items, i + 1)
      case Err(e) => Err(e)
    }
  {
    assert items[i..][1..] == items[i + 1..] && items[i..][0] == items[i];
    var text := GnPrinter.Print(items[i], true);
    var rest := GnPrinter.PrintItems(items[i + 1..]);
    if text.Ok? && rest.Ok? {
      Associative(done, [text.value], rest.value);
    }
  }

  /** The keys are keys of the dictionary. */
  predicate AreKeys(value: Value, keys: seq<string>) {
    value.Dict? && forall i :: 0 <= i < |keys| ==> keys[i] in value.entries
  }

  /** `done` and then the entries from the i-th key on. */
  function EntriesFrom(done: string, value: Value, keys: seq<string>, i: nat): GnPrinter.Printed
    requires AreKeys(value, keys) && i <= |keys|
  {
    match GnPrinter.PrintEntries(value, keys[i..])
    case Ok(rest) => Ok(done + rest)
    case Err(e) => Err(e)
  }

  lemma EntriesBegin(value: Value, keys: seq<string>)
    requires AreKeys(value, keys)
    ensures EntriesFrom("", value, keys, 0) == GnPrinter.PrintEntries(value, keys)
  {
    assert keys[0..] == keys;
    var r := GnPrinter.PrintEntries(value, keys);
    if r.Ok? {
      assert "" + r.value == r.value;
    }
  }

  lemma EntriesDone(done: string, value: Value, keys: seq<string>)
    requires AreKeys(value, keys)
    ensures EntriesFrom(done, value, keys, |keys|) == Ok(done)
  {
    assert keys[|keys|..] == [] && done + "" == done;
  }

  lemma EntriesNext(done: string, value: Value, keys: seq<string>, i: nat)
    requires AreKeys(value, keys) && i < |keys|
    ensures EntriesFrom(done, value, keys, i) == match GnPrinter.Print(value.entries[keys[i]], false) {
      case Ok(text) => EntriesFrom(done + GnPrinter.EntryText(keys[i], text), value, keys, i + 1)
      case Err(e) => Err(e)
    }
  {
    assert keys[i..][1..] == keys[i + 1..] && keys[i..][0] == keys[i];
    var text := GnPrinter.Print(value.entries[keys[i]], false);
    var rest := GnPrinter.PrintEntries(value, keys[i + 1..]);
    if text.Ok? && rest.Ok? {
      Associative(done, GnPrinter.EntryText(keys[i], text.value), rest.value);
    }
  }
}
