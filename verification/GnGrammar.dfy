/** The grammar of GN values, independent of the parser, and the proofs that the parser reads
    every syntax tree and nothing else. A syntax tree keeps every character of the text it stands for. */
module GnGrammar {
  import opened Wrappers
  import opened GnText
  import opened GnParser

  datatype StrChar = Plain(c: char) | Escaped(c: char)

  datatype Tree =
    | TBool(b: bool)
    | TNum(minus: bool, digits: string)
    | TStr(chars: seq<StrChar>)
    | TList(lead: string, items: Items)

  /** List items up to the closing bracket; `More` with an empty rest is a trailing comma. */
  datatype Items =
    | NoMore
    | Last(v: Tree, after: string)
    | More(v: Tree, after: string, gap: string, rest: Items)

  // ----- which trees there are -----

  predicate WfChar(x: StrChar) {
    x.Plain? ==> x.c != '"' && x.c != '\\'
  }

  predicate Wf(t: Tree) {
    match t
    case TBool(_) => true
    case TNum(_, digits) => digits != "" && AllDigits(digits)
    case TStr(chars) => forall i :: 0 <= i < |chars| ==> WfChar(chars[i])
    case TList(lead, items) => AllWs(lead) && WfItems(items)
  }

  predicate WfItems(items: Items) {
    match items
    case NoMore => true
    case Last(v, after) => Wf(v) && AllWs(after)
    case More(v, after, gap, rest) => Wf(v) && AllWs(after) && AllWs(gap) && WfItems(rest)
  }

  // ----- the text of a tree -----

  // Each function takes the text `f` that comes after, so that no concatenation is re-associated.

  function CharsThen(chars: seq<StrChar>, f: string): string {
    if chars == [] then f else
    match chars[0]
    case Plain(c) => [c] + CharsThen(chars[1..], f)
    case Escaped(c) => ['\\', c] + CharsThen(chars[1..], f)
  }

  function NumText(minus: bool, digits: string): string {
    if minus then "-" + digits else digits
  }

  function TextThen(t: Tree, f: string): string {
    match t
    case TBool(b) => (if b then "true" else "false") + f
    case TNum(minus, digits) => NumText(minus, digits) + f
    case TStr(chars) => "\"" + CharsThen(chars, "\"" + f)
    case TList(lead, items) => "[" + (lead + ItemsThen(items, "]" + f))
  }

  function ItemsThen(items: Items, f: string): string {
    match items
    case NoMore => f
    case Last(v, after) => TextThen(v, after + f)
    case More(v, after, gap, rest) => TextThen(v, after + ("," + (gap + ItemsThen(rest, f))))
  }

  /** The text of a tree. */
  function Text(t: Tree): string {
    TextThen(t, "")
  }

  lemma {:induction false} CharsThenAppend(chars: seq<StrChar>, f: string, g: string)
    ensures CharsThen(chars, f) + g == CharsThen(chars, f + g)
  {
    if chars != [] {
      CharsThenAppend(chars[1..], f, g);
    }
  }

  lemma {:induction false} TextThenAppend(t: Tree, f: string, g: string)
    ensures TextThen(t, f) + g == TextThen(t, f + g)
    decreases t
  {
    match t
    case TBool(_) =>
    case TNum(_, _) =>
    case TStr(chars) =>
      CharsThenAppend(chars, "\"" + f, g);
      assert "\"" + f + g == "\"" + (f + g);
    case TList(_, items) =>
      ItemsThenAppend(items, "]" + f, g);
      assert "]" + f + g == "]" + (f + g);
  }

  lemma {:induction false} ItemsThenAppend(items: Items, f: string, g: string)
    ensures ItemsThen(items, f) + g == ItemsThen(items, f + g)
    decreases items
  {
    match items
    case NoMore =>
    case Last(v, after) =>
      TextThenAppend(v, after + f, g);
      assert after + f + g == after + (f + g);
    case More(v, after, gap, rest) =>
      var u := gap + ItemsThen(rest, f);
      ItemsThenAppend(rest, f, g);
      TextThenAppend(v, after + ("," + u), g);
      assert u + g == gap + ItemsThen(rest, f + g);
      assert after + ("," + u) + g == after + ("," + (u + g));
  }

  // ----- the value of a tree -----

  /** Only `\$`, `\"` and `\\` lose their backslash. */
  function CharMeaning(x: StrChar): string {
    match x
    case Plain(c) => [c]
    case Escaped(c) => if IsEscapable(c) then [c] else ['\\', c]
  }

  function CharsMeaning(chars: seq<StrChar>): string {
    if chars == [] then "" else CharMeaning(chars[0]) + CharsMeaning(chars[1..])
  }

  function Meaning(t: Tree): Value
    requires Wf(t)
  {
    match t
    case TBool(b) => Bool(b)
    case TNum(minus, digits) => Int(if minus then 0 - NatValue(digits) else NatValue(digits))
    case TStr(chars) => Str(CharsMeaning(chars))
    case TList(_, items) => List(ItemsMeaning(items))
  }

  function ItemsMeaning(items: Items): seq<Value>
    requires WfItems(items)
  {
    match items
    case NoMore => []
    case Last(v, _) => [Meaning(v)]
    case More(v, _, _, rest) => [Meaning(v)] + ItemsMeaning(rest)
  }

  // ----- the parser reads every tree -----

  /** A numeral ends where its digits end, so a digit must not follow it. */
  predicate Follows(t: Tree, f: string) {
    t.TNum? ==> Undigited(f)
  }

  lemma FollowsSpace(t: Tree, ws: string, f: string)
    requires AllWs(ws) && Undigited(f)
    ensures Follows(t, ws + f)
  {
    if ws != "" {
      assert IsWs((ws + f)[0]);
    }
  }

  lemma TextStart(t: Tree, f: string)
    requires Wf(t)
    ensures TextThen(t, f) != "" && !IsWs(TextThen(t, f)[0]) && TextThen(t, f)[0] != ']'
    ensures !t.TList? ==> TextThen(t, f)[0] != '['
  {
    if t.TNum? {
      assert IsDigit(t.digits[0]);
    }
  }

  lemma ItemsStart(items: Items, f: string)
    requires WfItems(items) && Unspaced(f)
    ensures Unspaced(ItemsThen(items, f))
  {
    match items
    case NoMore =>
    case Last(v, after) => TextStart(v, after + f);
    case More(v, after, gap, rest) => TextStart(v, after + ("," + (gap + ItemsThen(rest, f))));
  }

  lemma {:induction false} CharsReadBack(chars: seq<StrChar>, f: string)
    requires forall i :: 0 <= i < |chars| ==> WfChar(chars[i])
    ensures StringBody(CharsThen(chars, "\"" + f)) == Ok((CharsThen(chars, ""), f))
  {
    if chars == [] {
      assert ("\"" + f)[1..] == f;
    } else {
      var s, u := CharsThen(chars, "\"" + f), CharsThen(chars[1..], "\"" + f);
      CharsReadBack(chars[1..], f);
      match chars[0] {
        case Plain(c) =>
          assert WfChar(chars[0]);
          assert s[1..] == u && s[..1] == [c];
        case Escaped(c) =>
          assert s[2..] == u && s[..2] == ['\\', c];
      }
    }
  }

  lemma {:induction false} CharsUnescapeThen(chars: seq<StrChar>, f: string)
    requires forall i :: 0 <= i < |chars| ==> chars[i].Plain? ==> chars[i].c != '\\'
    ensures Unescape(CharsThen(chars, f)) == CharsMeaning(chars) + Unescape(f)
  {
    if chars == [] {
      assert "" + Unescape(f) == Unescape(f);
    } else {
      var s, u := CharsThen(chars, f), CharsThen(chars[1..], f);
      CharsUnescapeThen(chars[1..], f);
      Associative(CharMeaning(chars[0]), CharsMeaning(chars[1..]), Unescape(f));
      match chars[0] {
        case Plain(c) =>
          assert s[1..] == u;
        case Escaped(c) =>
          EscapedFirst(c, u);
      }
    }
  }

  lemma EscapedFirst(c: char, u: string)
    ensures Unescape(['\\', c] + u) == CharMeaning(Escaped(c)) + Unescape(u)
  {
    var s := ['\\', c] + u;
    assert s[2..] == u && s[1..] == [c] + u;
    if !IsEscapable(c) {
      UnescapePlain(c, u);
      assert "\\" + ([c] + Unescape(u)) == ['\\', c] + Unescape(u);
    }
  }

  lemma CharsUnescape(chars: seq<StrChar>)
    requires forall i :: 0 <= i < |chars| ==> WfChar(chars[i])
    ensures Unescape(CharsThen(chars, "")) == CharsMeaning(chars)
  {
    forall i | 0 <= i < |chars| ensures chars[i].Plain? ==> chars[i].c != '\\' {
      assert WfChar(chars[i]);
    }
    CharsUnescapeThen(chars, "");
    assert CharsMeaning(chars) + "" == CharsMeaning(chars);
  }

  /** A lone backslash at the very end is dropped. */
  lemma LoneBackslashDropped(chars: seq<StrChar>)
    requires forall i :: 0 <= i < |chars| ==> chars[i].Plain? ==> chars[i].c != '\\'
    ensures Unescape(CharsThen(chars, "\\")) == CharsMeaning(chars)
  {
    CharsUnescapeThen(chars, "\\");
    assert CharsMeaning(chars) + "" == CharsMeaning(chars);
  }

  lemma UnescapePlain(c: char, u: string)
    requires !IsEscapable(c)
    ensures Unescape([c] + u) == [c] + Unescape(u)
  {
    assert ([c] + u)[1..] == u;
  }

  lemma StrReadBack(chars: seq<StrChar>, f: string)
    requires Wf(TStr(chars))
    ensures ParseString(TextThen(TStr(chars), f)) == Ok((Meaning(TStr(chars)), f))
  {
    var s := TextThen(TStr(chars), f);
    CharsReadBack(chars, f);
    CharsUnescape(chars);
    assert s[1..] == CharsThen(chars, "\"" + f);
  }

  lemma NumReadBack(minus: bool, digits: string, f: string)
    requires Wf(TNum(minus, digits)) && Undigited(f)
    ensures ParseNumber(TextThen(TNum(minus, digits), f)) == Ok((Meaning(TNum(minus, digits)), f))
  {
    var num := NumText(minus, digits);
    assert IsDigit(digits[0]);
    NumberRuns(num, f);
    if minus {
      assert num[1..] == digits;
    }
  }

  /** A numeral with a non-digit behind it is read to its end. */
  lemma NumberRuns(num: string, f: string)
    requires num != "" && IsDigitOrMinus(num[0]) && AllDigits(num[1..]) && num != "-" && Undigited(f)
    ensures ParseNumber(num + f) == Ok((Int(IntOf(num)), f))
  {
    var s := num + f;
    assert s[1..] == num[1..] + f;
    RunLengthIs(IsDigit, num[1..], f);
    assert s[..|num|] == num;
    assert s[|num|..] == f;
  }

  lemma {:induction false} ReadsBack(t: Tree, f: string)
    requires Wf(t) && Follows(t, f)
    ensures ParseValue(TextThen(t, f)) == Ok((Meaning(t), f))
    decreases t, 1
  {
    var s := TextThen(t, f);
    TextStart(t, f);
    match t {
      case TBool(b) =>
        assert s[|s| - |f|..] == f;
      case TNum(minus, digits) =>
        assert IsDigit(digits[0]);
        NumReadBack(minus, digits, f);
      case TStr(chars) =>
        StrReadBack(chars, f);
      case TList(lead, items) =>
        ListReadBack(t, f);
    }
  }

  lemma {:induction false} ListReadBack(t: Tree, f: string)
    requires t.TList? && Wf(t)
    ensures ParseList(TextThen(t, f)) == Ok((Meaning(t), f))
    decreases t, 0
  {
    var s, u := TextThen(t, f), ItemsThen(t.items, "]" + f);
    assert s[1..] == t.lead + u;
    ItemsStart(t.items, "]" + f);
    SkipWsDrops(t.lead, u);
    ItemsReadBack(t.items, f, []);
    assert [] + ItemsMeaning(t.items) == ItemsMeaning(t.items);
  }

  lemma {:induction false} ItemsReadBack(items: Items, f: string, done: seq<Value>)
    requires WfItems(items)
    ensures ParseItems(ItemsThen(items, "]" + f), true, done) == Ok((List(done + ItemsMeaning(items)), f))
    decreases items
  {
    var end := "]" + f;
    assert end[1..] == f;
    match items {
      case NoMore =>
        assert done + [] == done;
      case Last(v, after) =>
        OneItem(v, after, end, done);
      case More(v, after, gap, rest) =>
        var w := ItemsThen(rest, end);
        var u := "," + (gap + w);
        OneItem(v, after, u, done);
        assert u[1..] == gap + w;
        ItemsStart(rest, end);
        SkipWsDrops(gap, w);
        ItemsReadBack(rest, f, done + [Meaning(v)]);
        assert done + [Meaning(v)] + ItemsMeaning(rest) == done + ItemsMeaning(items);
    }
  }

  /** One turn of the item loop, up to the comma or bracket that ends the item. */
  lemma {:induction false} OneItem(v: Tree, after: string, u: string, done: seq<Value>)
    requires Wf(v) && AllWs(after) && u != "" && (u[0] == ',' || u[0] == ']')
    ensures ParseItems(TextThen(v, after + u), true, done)
         == if u[0] == ',' then ParseItems(SkipWs(u[1..]), true, done + [Meaning(v)])
            else ParseItems(u, false, done + [Meaning(v)])
    decreases v, 2
  {
    TextStart(v, after + u);
    FollowsSpace(v, after, u);
    ReadsBack(v, after + u);
    SkipWsDrops(after, u);
  }

  // ----- everything the parser reads is a tree -----

  lemma {:induction false} CharsRead(s: string) returns (chars: seq<StrChar>)
    requires StringBody(s).Ok?
    ensures CharsThen(chars, "") == StringBody(s).value.0
    ensures CharsThen(chars, "\"" + StringBody(s).value.1) == s
    ensures forall i :: 0 <= i < |chars| ==> WfChar(chars[i])
  {
    if s[0] == '"' {
      chars := [];
    } else if s[0] == '\\' {
      var rest := CharsRead(s[2..]);
      chars := [Escaped(s[1])] + rest;
      assert chars[1..] == rest;
    } else {
      var rest := CharsRead(s[1..]);
      chars := [Plain(s[0])] + rest;
      assert chars[1..] == rest;
    }
  }

  lemma NumRead(s: string) returns (t: Tree)
    requires Unspaced(s) && s != "" && IsDigitOrMinus(s[0]) && ParseNumber(s).Ok?
    ensures Wf(t) && t.TNum? && s == TextThen(t, ParseNumber(s).value.1)
    ensures Meaning(t) == ParseNumber(s).value.0 && Undigited(ParseNumber(s).value.1)
  {
    var n := 1 + RunLength(IsDigit, s[1..]);
    var num := s[..n];
    assert s == num + s[n..];
    assert num[1..] == s[1..][..n - 1];
    assert AllDigits(num[1..]);
    if s[0] == '-' {
      t := TNum(true, num[1..]);
      assert num == "-" + num[1..];
    } else {
      assert num == [s[0]] + num[1..];
      t := TNum(false, num);
    }
    assert n < |s| ==> s[n] == s[1..][n - 1];
  }

  lemma {:induction false} ValueRead(s: string) returns (t: Tree)
    requires ParseValue(s).Ok?
    ensures Wf(t) && SkipWs(s) == TextThen(t, ParseValue(s).value.1)
    ensures Meaning(t) == ParseValue(s).value.0 && Follows(t, ParseValue(s).value.1)
    decreases |s|, 1
  {
    var u := SkipWs(s);
    if u[0] == '[' {
      t := ListRead(u);
    } else if IsDigitOrMinus(u[0]) {
      t := NumRead(u);
    } else if u[0] == '"' {
      var chars := CharsRead(u[1..]);
      CharsUnescape(chars);
      t := TStr(chars);
    } else if "true" <= u {
      t := TBool(true);
    } else {
      t := TBool(false);
    }
  }

  lemma {:induction false} ListRead(s: string) returns (t: Tree)
    requires Unspaced(s) && s != "" && s[0] == '[' && ParseList(s).Ok?
    ensures Wf(t) && t.TList? && s == TextThen(t, ParseList(s).value.1)
    ensures Meaning(t) == ParseList(s).value.0
    decreases |s|, 0
  {
    var lead := LeadingWs(s[1..]);
    var items := ItemsRead(SkipWs(s[1..]), true, []);
    t := TList(lead, items);
    assert [] + ItemsMeaning(items) == ItemsMeaning(items);
  }

  lemma {:induction false} ItemsRead(s: string, comma: bool, done: seq<Value>) returns (items: Items)
    requires ParseItems(s, comma, done).Ok? && Unspaced(s)
    ensures WfItems(items) && s == ItemsThen(items, "]" + ParseItems(s, comma, done).value.1)
    ensures ParseItems(s, comma, done).value.0 == List(done + ItemsMeaning(items))
    ensures !comma ==> items.NoMore?
    decreases |s|, 2
  {
    if s[0] == ']' {
      items := NoMore;
      assert done + [] == done;
    } else {
      var v := ValueRead(s);
      var rest := ParseValue(s).value.1;
      var t := SkipWs(rest);
      var after := LeadingWs(rest);
      if t[0] == ',' {
        var u := SkipWs(t[1..]);
        var more := ItemsRead(u, true, done + [Meaning(v)]);
        items := JoinMore(v, after, t, more, "]" + ParseItems(s, comma, done).value.1);
        Associative(done, [Meaning(v)], ItemsMeaning(more));
      } else {
        var none := ItemsRead(t, false, done + [Meaning(v)]);
        assert t == "]" + ParseItems(s, comma, done).value.1;
        items := Last(v, after);
        Associative(done, [Meaning(v)], []);
        assert [Meaning(v)] + [] == ItemsMeaning(items);
      }
    }
  }

  lemma JoinMore(v: Tree, after: string, t: string, more: Items, end: string) returns (items: Items)
    requires Wf(v) && AllWs(after) && WfItems(more) && t != "" && t[0] == ','
    requires SkipWs(t[1..]) == ItemsThen(more, end)
    ensures WfItems(items) && ItemsThen(items, end) == TextThen(v, after + t)
    ensures ItemsMeaning(items) == [Meaning(v)] + ItemsMeaning(more)
  {
    var gap := LeadingWs(t[1..]);
    items := More(v, after, gap, more);
    assert t == "," + (gap + SkipWs(t[1..]));
  }

  /** A string literal the parser accepts never makes unescaping drop a backslash. */
  lemma {:induction false} LiteralDropsNothing(s: string)
    requires StringBody(s).Ok?
    ensures !DropsBackslash(StringBody(s).value.0)
  {
    var raw := StringBody(s).value.0;
    if s[0] == '\\' {
      LiteralDropsNothing(s[2..]);
      var rest := StringBody(s[2..]).value.0;
      assert raw[2..] == rest;
      assert raw[1..] == [s[1]] + rest && raw[1..][1..] == rest;
    } else if s[0] != '"' {
      LiteralDropsNothing(s[1..]);
      assert raw[1..] == StringBody(s[1..]).value.0;
    }
  }
}
