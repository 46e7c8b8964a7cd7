/** The grammar of argument text, and what FromGNArgs does with every text. */
module GnArgs {
  import opened Wrappers
  import opened GnText
  import opened GnParser
  import opened GnGrammar
  import opened GnSentences

  /** `name = value`, with the white space around its parts. */
  datatype Assign = Assign(name: string, beforeEq: string, afterEq: string, value: Tree, after: string)

  predicate WfAssign(a: Assign) {
    IsIdent(a.name) && AllWs(a.beforeEq) && AllWs(a.afterEq) && Wf(a.value) && AllWs(a.after)
  }

  predicate WfAll(xs: seq<Assign>) {
    forall i :: 0 <= i < |xs| ==> WfAssign(xs[i])
  }

  function AssignThen(a: Assign, f: string): string {
    a.name + (a.beforeEq + ("=" + (a.afterEq + TextThen(a.value, a.after + f))))
  }

  function AssignsThen(xs: seq<Assign>, f: string): string {
    if xs == [] then f else AssignThen(xs[0], AssignsThen(xs[1..], f))
  }

  /** The dictionary `d` after the assignments, in their order. */
  function Bind(xs: seq<Assign>, d: Args): Args
    requires WfAll(xs)
  {
    if xs == [] then d else
    assert WfAssign(xs[0]);
    Bind(xs[1..], d[xs[0].name := Meaning(xs[0].value)])
  }

  // ----- one assignment -----

  lemma IdentSplits(name: string, f: string)
    requires IsIdent(name) && f != "" && !IsIdentPart(f[0])
    ensures ParseIdent(name + f) == Ok((name, f))
  {
    assert (name + f)[1..] == name[1..] + f;
    RunLengthIs(IsIdentPart, name[1..], f);
    assert (name + f)[..|name|] == name && (name + f)[|name|..] == f;
  }

  lemma SpaceOrEq(ws: string, f: string)
    requires AllWs(ws) && f != "" && f[0] == '='
    ensures ws + f != "" && !IsIdentPart((ws + f)[0]) && SkipWs(ws + f) == f
  {
    SkipWsDrops(ws, f);
    if ws != "" {
      assert IsWs(ws[0]);
    }
  }

  lemma ArgReadBack(a: Assign, f: string)
    requires WfAssign(a) && Follows(a.value, a.after + f)
    ensures AssignThen(a, f) != "" && IsIdentStart(AssignThen(a, f)[0])
    ensures ParseArg(AssignThen(a, f)) == Ok((a.name, Meaning(a.value), SkipWs(f)))
  {
    var val := TextThen(a.value, a.after + f);
    var eq := "=" + (a.afterEq + val);
    SpaceOrEq(a.beforeEq, eq);
    IdentSplits(a.name, a.beforeEq + eq);
    assert eq[1..] == a.afterEq + val;
    TextStart(a.value, a.after + f);
    SkipWsDrops(a.afterEq, val);
    ReadsBack(a.value, a.after + f);
    SkipWsDrops(a.after, f);
  }

  lemma ArgRead(s: string) returns (a: Assign)
    requires s != "" && ParseArg(s).Ok?
    ensures WfAssign(a) && s == AssignThen(a, ParseArg(s).value.2)
    ensures a.name == ParseArg(s).value.0 && Meaning(a.value) == ParseArg(s).value.1
    ensures Unspaced(ParseArg(s).value.2)
  {
    var (name, rest) := ParseIdent(s).value;
    var t := SkipWs(rest);
    var u := SkipWs(t[1..]);
    var v := ValueRead(u);
    var end := ParseValue(u).value.1;
    var beforeEq := LeadingWs(rest);
    var afterEq := LeadingWs(t[1..]);
    var after := LeadingWs(end);
    a := Assign(name, beforeEq, afterEq, v, after);
    JoinArg(a, rest, t, u, end);
  }

  /** The pieces of an assignment put together again. */
  lemma JoinArg(a: Assign, rest: string, t: string, u: string, end: string)
    requires rest == a.beforeEq + t && t != "" && t[0] == '=' && t[1..] == a.afterEq + u
    requires u == TextThen(a.value, end) && end == a.after + SkipWs(end)
    ensures a.name + rest == AssignThen(a, SkipWs(end))
  {
    assert t == "=" + t[1..];
  }

  // ----- a whole text -----

  /** Every text is a list of assignments followed by nothing, or by text on which the next
      assignment fails; ParseArgs answers accordingly. */
  lemma {:induction false} ArgsSplit(s: string, d: Args) returns (xs: seq<Assign>, bad: string)
    requires Unspaced(s)
    ensures WfAll(xs) && s == AssignsThen(xs, bad) && Unspaced(bad)
    ensures bad != "" ==> ParseArg(bad).Err?
    ensures ParseArgs(s, d) == if bad == "" then Ok(Bind(xs, d)) else Err(ParseArg(bad).error)
    decreases |s|
  {
    if s == "" || ParseArg(s).Err? {
      xs, bad := [], s;
    } else {
      var a := ArgRead(s);
      var (name, v, rest) := ParseArg(s).value;
      var more;
      more, bad := ArgsSplit(rest, d[name := v]);
      xs := [a] + more;
      assert xs[1..] == more;
    }
  }

  /** `f` does not continue the last assignment. */
  predicate FollowsAll(xs: seq<Assign>, f: string) {
    xs != [] ==> var last := xs[|xs| - 1]; Follows(last.value, last.after + f)
  }

  lemma {:induction false} ArgsReadBack(xs: seq<Assign>, f: string, d: Args)
    requires WfAll(xs) && FollowsAll(xs, f)
    ensures ParseArgs(SkipWs(AssignsThen(xs, f)), d) == ParseArgs(SkipWs(f), Bind(xs, d))
    ensures xs != [] ==> Undigited(AssignsThen(xs, f))
  {
    if xs != [] {
      var rest := AssignsThen(xs[1..], f);
      assert WfAssign(xs[0]);
      ArgsReadBack(xs[1..], f, d[xs[0].name := Meaning(xs[0].value)]);
      if |xs| > 1 {
        FollowsSpace(xs[0].value, xs[0].after, rest);
      }
      ArgReadBack(xs[0], rest);
    }
  }

  lemma AssignThenAppend(a: Assign, f: string, g: string)
    ensures AssignThen(a, f) + g == AssignThen(a, f + g)
  {
    TextThenAppend(a.value, a.after + f, g);
    assert a.after + f + g == a.after + (f + g);
    var v := TextThen(a.value, a.after + f);
    assert a.afterEq + v + g == a.afterEq + (v + g);
    Regroup(a.name, a.beforeEq, a.afterEq + v, g);
  }

  lemma Regroup(name: string, ws: string, val: string, g: string)
    ensures name + (ws + ("=" + val)) + g == name + (ws + ("=" + (val + g)))
  {
    assert "=" + val + g == "=" + (val + g);
    assert ws + ("=" + val) + g == ws + ("=" + val + g);
  }

  lemma {:induction false} AssignsThenAppend(xs: seq<Assign>, f: string, g: string)
    ensures AssignsThen(xs, f) + g == AssignsThen(xs, f + g)
  {
    if xs != [] {
      AssignsThenAppend(xs[1..], f, g);
      AssignThenAppend(xs[0], AssignsThen(xs[1..], f), g);
    }
  }

  lemma ArgsOf(before: string, xs: seq<Assign>, f: string)
    requires AllWs(before) && WfAll(xs) && FollowsAll(xs, f)
    ensures FromGNArgs(before + AssignsThen(xs, f)) == ParseArgs(SkipWs(f), Bind(xs, map[]))
  {
    SkipWsDrops(before, AssignsThen(xs, f));
    ArgsReadBack(xs, f, map[]);
  }

  lemma SplitText(s: string) returns (before: string, xs: seq<Assign>, bad: string)
    ensures AllWs(before) && WfAll(xs) && s == before + AssignsThen(xs, bad) && Unspaced(bad)
    ensures bad != "" ==> ParseArg(bad).Err?
    ensures FromGNArgs(s) == if bad == "" then Ok(Bind(xs, map[])) else Err(ParseArg(bad).error)
  {
    before := LeadingWs(s);
    xs, bad := ArgsSplit(SkipWs(s), map[]);
  }

  /** Text after a list of assignments. */
  lemma Extend(before: string, xs: seq<Assign>, f: string)
    ensures before + AssignsThen(xs, "") + f == before + AssignsThen(xs, f)
  {
    AssignsThenAppend(xs, "", f);
    assert "" + f == f;
  }

  // ----- main results -----

  /** `s` spells the dictionary `m`: white space and a list of assignments that bind `m`. */
  ghost predicate SpellsArgs(s: string, m: Args) {
    exists before, xs :: ArgsSpelling(s, m, before, xs)
  }

  predicate ArgsSpelling(s: string, m: Args, before: string, xs: seq<Assign>) {
    AllWs(before) && WfAll(xs) && s == before + AssignsThen(xs, "") && Bind(xs, map[]) == m
  }

  /** FromGNArgs accepts exactly the lists of assignments, later bindings winning. */
  lemma FromGNArgsIsTheGrammar(s: string, m: Args)
    ensures FromGNArgs(s) == Ok(m) <==> SpellsArgs(s, m)
  {
    var before, xs, bad := SplitText(s);
    if FromGNArgs(s) == Ok(m) {
      assert ArgsSpelling(s, m, before, xs);
    }
    if SpellsArgs(s, m) {
      var ws, ys :| ArgsSpelling(s, m, ws, ys);
      ListAccepted(ws, ys);
    }
  }

  /** What an argument text followed by another yields. */
  function Merge(a: Args, r: Result<Args, ArgsError>): Result<Args, ArgsError> {
    match r
    case Ok(b) => Ok(a + b)
    case Err(e) => Err(e)
  }

  lemma {:induction false} ParseArgsOver(s: string, d: Args)
    ensures ParseArgs(s, d) == Merge(d, ParseArgs(s, map[]))
    decreases |s|
  {
    if s != "" && ParseArg(s).Ok? {
      var (name, v, rest) := ParseArg(s).value;
      ParseArgsOver(rest, d[name := v]);
      ParseArgsOver(rest, map[name := v]);
      if ParseArgs(rest, map[]).Ok? {
        var m := ParseArgs(rest, map[]).value;
        assert d[name := v] + m == d + (map[name := v] + m);
      }
      assert map[][name := v] == map[name := v];
    } else if s == "" {
      assert d + map[] == d;
    }
  }

  // ----- where one text ends and the next begins -----

  predicate EndsInDigit(s: string) {
    s != "" && IsDigit(s[|s| - 1])
  }

  /** Only numerals end in a digit. */
  lemma TextLast(t: Tree)
    requires Wf(t)
    ensures Text(t) != "" && (EndsInDigit(Text(t)) <==> t.TNum?)
  {
    match t
    case TBool(_) =>
    case TNum(_, digits) =>
      assert IsDigit(digits[|digits| - 1]);
    case TStr(chars) =>
      CharsThenAppend(chars, "", "\"");
      assert "" + "\"" == "\"" && "\"" + "" == "\"";
    case TList(lead, items) =>
      ItemsThenAppend(items, "", "]");
      assert "" + "]" == "]" && "]" + "" == "]";
      assert Text(t) == "[" + (lead + (ItemsThen(items, "") + "]"));
  }

  lemma {:induction false} LastAssign(xs: seq<Assign>, f: string)
    requires xs != []
    ensures var last := xs[|xs| - 1];
      AssignsThen(xs, f) == AssignsThen(xs[..|xs| - 1], AssignThen(last, f))
  {
    if |xs| > 1 {
      LastAssign(xs[1..], f);
      assert xs[..|xs| - 1][1..] == xs[1..][..|xs| - 2];
    } else {
      assert xs[1..] == [];
    }
  }

  lemma LastChar(p: string, q: string)
    requires q != ""
    ensures p + q != "" && (EndsInDigit(p + q) <==> EndsInDigit(q))
  {
  }

  /** An assignment ends in a digit exactly if its value is a numeral with nothing behind it. */
  lemma AssignLast(a: Assign)
    requires WfAssign(a)
    ensures AssignThen(a, "") != ""
    ensures EndsInDigit(AssignThen(a, "")) <==> a.value.TNum? && a.after == ""
  {
    TextLast(a.value);
    TextThenEnd(a.value, a.after);
    assert a.after + "" == a.after;
    if a.after == "" {
      assert Text(a.value) + a.after == Text(a.value);
    } else {
      assert IsWs(a.after[|a.after| - 1]);
      LastChar(Text(a.value), a.after);
    }
    var val := TextThen(a.value, a.after);
    LastChar(a.afterEq, val);
    LastChar("=", a.afterEq + val);
    LastChar(a.beforeEq, "=" + (a.afterEq + val));
    LastChar(a.name, a.beforeEq + ("=" + (a.afterEq + val)));
  }

  /** An argument text ends in a digit exactly if its last value is a numeral with nothing behind it. */
  lemma TextLastAssign(before: string, xs: seq<Assign>)
    requires AllWs(before) && WfAll(xs)
    ensures EndsInDigit(before + AssignsThen(xs, ""))
       <==> xs != [] && xs[|xs| - 1].value.TNum? && xs[|xs| - 1].after == ""
  {
    if xs == [] {
      assert before + "" == before;
      assert before != "" ==> IsWs(before[|before| - 1]);
    } else {
      var last, init := xs[|xs| - 1], xs[..|xs| - 1];
      assert WfAssign(last);
      LastAssign(xs, "");
      AssignsThenAppend(init, "", AssignThen(last, ""));
      assert "" + AssignThen(last, "") == AssignThen(last, "");
      AssignLast(last);
      LastChar(AssignsThen(init, ""), AssignThen(last, ""));
      LastChar(before, AssignsThen(xs, ""));
    }
  }

  lemma FollowsUnlessDigits(before: string, xs: seq<Assign>, f: string)
    requires AllWs(before) && WfAll(xs)
    requires Undigited(f) || !EndsInDigit(before + AssignsThen(xs, ""))
    ensures FollowsAll(xs, f)
  {
    TextLastAssign(before, xs);
    if xs != [] {
      var last := xs[|xs| - 1];
      assert WfAssign(last);
      if last.after == "" {
        assert last.after + f == f;
      } else {
        assert IsWs(last.after[0]);
      }
    }
  }

  /** The text without its leading digits. */
  function AfterDigits(s: string): (r: string)
    ensures |r| <= |s| && Undigited(r) && s == s[..|s| - |r|] + r && AllDigits(s[..|s| - |r|])
  {
    s[RunLength(IsDigit, s)..]
  }

  lemma LongerNumber(minus: bool, a: string, b: string, g: string)
    ensures NumText(minus, a + b) + g == NumText(minus, a) + (b + g)
  {
    Associative("-", a, b);
    Associative(NumText(minus, a), b, g);
  }

  /** The assignment with `digits` run into the numeral at its end. */
  function Longer(a: Assign, digits: string): Assign
    requires a.value.TNum?
  {
    a.(value := TNum(a.value.minus, a.value.digits + digits))
  }

  lemma LongerText(a: Assign, digits: string, g: string)
    requires a.value.TNum? && a.after == ""
    ensures AssignThen(Longer(a, digits), g) == AssignThen(a, digits + g)
  {
    LongerNumber(a.value.minus, a.value.digits, digits, g);
    assert "" + g == g && "" + (digits + g) == digits + g;
  }

  function Lengthened(xs: seq<Assign>, digits: string): (ys: seq<Assign>)
    requires WfAll(xs) && AllDigits(digits) && xs != [] && xs[|xs| - 1].value.TNum?
    ensures WfAll(ys) && |ys| == |xs|
  {
    assert WfAssign(xs[|xs| - 1]);
    xs[..|xs| - 1] + [Longer(xs[|xs| - 1], digits)]
  }

  lemma LengthenedText(xs: seq<Assign>, digits: string, g: string)
    requires WfAll(xs) && AllDigits(digits)
    requires xs != [] && xs[|xs| - 1].value.TNum? && xs[|xs| - 1].after == ""
    ensures AssignsThen(Lengthened(xs, digits), g) == AssignsThen(xs, digits + g)
  {
    LastAssign(Lengthened(xs, digits), g);
    LastAssign(xs, digits + g);
    LongerText(xs[|xs| - 1], digits, g);
    assert Lengthened(xs, digits)[..|xs| - 1] == xs[..|xs| - 1];
  }

  // ----- parsing arguments is compositional -----

  lemma ComposeApart(a: string, f: string)
    requires FromGNArgs(a).Ok? && (Undigited(f) || !EndsInDigit(a))
    ensures FromGNArgs(a + f) == Merge(FromGNArgs(a).value, FromGNArgs(f))
  {
    var before, xs, bad := SplitText(a);
    Extend(before, xs, f);
    FollowsUnlessDigits(before, xs, f);
    ArgsOf(before, xs, f);
    ParseArgsOver(SkipWs(f), Bind(xs, map[]));
  }

  lemma ComposeDigits(a: string, f: string) returns (m: Args)
    requires FromGNArgs(a).Ok? && !Undigited(f) && EndsInDigit(a)
    ensures FromGNArgs(a + f) == Merge(m, FromGNArgs(AfterDigits(f)))
  {
    var before, xs, bad := SplitText(a);
    var g := AfterDigits(f);
    var digits := f[..|f| - |g|];
    TextLastAssign(before, xs);
    var ys := Lengthened(xs, digits);
    LengthenedText(xs, digits, g);
    Extend(before, xs, f);
    FollowsUnlessDigits(before, ys, g);
    ArgsOf(before, ys, g);
    m := Bind(ys, map[]);
    ParseArgsOver(SkipWs(g), m);
  }

  /** After an accepted text `a`, a text `f` is parsed as on its own, its bindings overriding those
      of `a` and its error, if any, being the error of the whole, exactly if no digit of `f` runs
      into a numeral at the end of `a`, or `f` fails in the same way without its leading digits. */
  lemma ArgsCompose(a: string, f: string)
    requires FromGNArgs(a).Ok?
    ensures FromGNArgs(a + f) == Merge(FromGNArgs(a).value, FromGNArgs(f))
       <==> Undigited(f) || !EndsInDigit(a) || FromGNArgs(AfterDigits(f)) == Err(Gn(ExpectedIdentifier))
  {
    if Undigited(f) || !EndsInDigit(a) {
      ComposeApart(a, f);
    } else {
      NumeralIsNoArg(f);
      var m := ComposeDigits(a, f);
    }
  }

  /** Accepted texts compose with no separator at all. */
  lemma AcceptedTextsCompose(a: string, b: string)
    requires FromGNArgs(a).Ok? && FromGNArgs(b).Ok?
    ensures FromGNArgs(a + b) == Ok(FromGNArgs(a).value + FromGNArgs(b).value)
  {
    if !Undigited(b) {
      NumeralIsNoArg(b);
    }
    ComposeApart(a, b);
  }

  /** Texts joined by a line feed compose, accepted or not. */
  lemma ArgsComposeLines(a: string, b: string)
    requires FromGNArgs(a).Ok?
    ensures FromGNArgs(a + "\n" + b) == Merge(FromGNArgs(a).value, FromGNArgs(b))
  {
    assert a + "\n" + b == a + ("\n" + b);
    ComposeApart(a, "\n" + b);
    SkipWsDrops("\n", b);
  }

  /** An input on which composition fails: two texts that run together into one numeral. */
  lemma ComposeNeedsNoDigit()
    ensures FromGNArgs("x=1").Ok? && FromGNArgs("2").Err? && FromGNArgs("x=1" + "2").Ok?
  {
    OneNumber("1");
    OneNumber("12");
    assert "x=1" == "x=" + "1" && "x=1" + "2" == "x=" + "12";
    NumeralIsNoArg("2");
  }

  lemma NumeralIsNoArg(s: string)
    requires s != "" && IsDigit(s[0])
    ensures FromGNArgs(s) == Err(Gn(ExpectedIdentifier))
  {
    assert SkipWs(s) == s && !IsIdentStart(s[0]);
  }

  lemma OneNumber(digits: string)
    requires digits != "" && AllDigits(digits)
    ensures FromGNArgs("x=" + digits).Ok?
  {
    var a := Assign("x", "", "", TNum(false, digits), "");
    var xs := [a];
    assert "x"[1..] == "";
    assert WfAll(xs) && xs[1..] == [];
    ArgsOf("", xs, "");
    OneNumberText(digits);
    assert "" + AssignsThen(xs, "") == "x=" + digits;
  }

  lemma OneNumberText(digits: string)
    ensures AssignThen(Assign("x", "", "", TNum(false, digits), ""), "") == "x=" + digits
  {
    assert digits + ("" + "") == digits && "" + digits == digits;
    assert "" + ("=" + digits) == "=" + digits;
    assert "x" + ("=" + digits) == "x=" + digits;
  }

  predicate Breaks(s: string, a: string, name: string, ws: string) {
    s == a + name + ws && FromGNArgs(a).Ok? && IsIdent(name) && AllWs(ws)
  }

  lemma ListAccepted(before: string, xs: seq<Assign>)
    requires AllWs(before) && WfAll(xs)
    ensures FromGNArgs(before + AssignsThen(xs, "")) == Ok(Bind(xs, map[]))
  {
    FollowsUnlessDigits(before, xs, "");
    ArgsOf(before, xs, "");
  }

  lemma IndexErrorShape(s: string) returns (a: string, name: string, ws: string)
    requires FromGNArgs(s) == Err(IndexError)
    ensures Breaks(s, a, name, ws)
  {
    var before, xs, bad := SplitText(s);
    a := before + AssignsThen(xs, "");
    ListAccepted(before, xs);
    Extend(before, xs, bad);
    name, ws := UnfinishedArg(bad);
    Associative(a, name, ws);
  }

  lemma BreaksIndexError(s: string, a: string, name: string, ws: string)
    requires Breaks(s, a, name, ws)
    ensures FromGNArgs(s) == Err(IndexError)
  {
    assert a + name + ws == a + (name + ws);
    ComposeApart(a, name + ws);
    IdentAlone(name, ws);
  }

  /** Reading runs past the end of the input exactly on an accepted text followed by an
      identifier with nothing but white space behind it. */
  lemma IndexErrorExactly(s: string)
    ensures FromGNArgs(s) == Err(IndexError) <==> exists a, name, ws :: Breaks(s, a, name, ws)
  {
    if FromGNArgs(s) == Err(IndexError) {
      var a, name, ws := IndexErrorShape(s);
    }
    if a, name, ws :| Breaks(s, a, name, ws) {
      BreaksIndexError(s, a, name, ws);
    }
  }

  lemma UnfinishedArg(s: string) returns (name: string, ws: string)
    requires s != "" && ParseArg(s) == Err(IndexError)
    ensures s == name + ws && IsIdent(name) && AllWs(ws)
  {
    match ParseIdent(s)
    case Ok((ident, rest)) =>
      name := ident;
      ws := LeadingWs(rest);
    case Err(_) =>
      name, ws := s, "";
  }

  lemma IdentAlone(name: string, ws: string)
    requires IsIdent(name) && AllWs(ws)
    ensures FromGNArgs(name + ws) == Err(IndexError)
  {
    assert (name + ws)[1..] == name[1..] + ws;
    RunLengthIs(IsIdentPart, name[1..], ws);
    if ws != "" {
      IdentSplits(name, ws);
      assert ws + "" == ws;
      SkipWsDrops(ws, "");
    }
  }

  /** Argument names are identifiers, and argument values hold no scope. */
  lemma {:induction false} ArgsAreIdentsAndValues(xs: seq<Assign>, d: Args, k: string)
    requires WfAll(xs) && k in Bind(xs, d)
    ensures (k in d && Bind(xs, d)[k] == d[k]) || (IsIdent(k) && DictFree(Bind(xs, d)[k]))
  {
    if xs != [] {
      assert WfAssign(xs[0]);
      ArgsAreIdentsAndValues(xs[1..], d[xs[0].name := Meaning(xs[0].value)], k);
      MeaningIsDictFree(xs[0].value);
    }
  }
}
