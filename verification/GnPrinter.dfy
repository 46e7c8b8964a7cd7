/** The printer of GN values, and the proof that parsing undoes printing. */
module GnPrinter {
  import opened Wrappers
  import opened GnText
  import opened GnParser
  import opened GnGrammar
  import opened GnSentences
  import opened GnArgs

  datatype PrintError = NewlineInString | NestedScope | UnsupportedType

  type Printed = Result<string, PrintError>

  // ----- sorted keys -----

  /** Python's order on strings: by character, a prefix first. */
  predicate LexLe(a: string, b: string) {
    a == "" || (b != "" && (a[0] < b[0] || (a[0] == b[0] && LexLe(a[1..], b[1..]))))
  }

  lemma {:induction false} LexTotal(a: string, b: string)
    ensures LexLe(a, b) || LexLe(b, a)
    ensures LexLe(a, b) && LexLe(b, a) ==> a == b
  {
    if a != "" && b != "" && a[0] == b[0] {
      LexTotal(a[1..], b[1..]);
      assert a == [a[0]] + a[1..] && b == [b[0]] + b[1..];
    }
  }

  lemma {:induction false} LexTransitive(a: string, b: string, c: string)
    requires LexLe(a, b) && LexLe(b, c)
    ensures LexLe(a, c)
  {
    if a != "" && a[0] == b[0] == c[0] {
      LexTransitive(a[1..], b[1..], c[1..]);
    }
  }

  /** A prefix, or smaller at the first place where they differ. */
  ghost predicate Precedes(a: string, b: string) {
    a <= b || exists k :: DifferAt(a, b, k) && a[k] < b[k]
  }

  predicate DifferAt(a: string, b: string, k: int) {
    0 <= k < |a| && k < |b| && a[..k] == b[..k] && a[k] != b[k]
  }

  lemma DifferLater(c: char, a: string, b: string, k: int)
    ensures DifferAt([c] + a, [c] + b, k + 1) <==> DifferAt(a, b, k)
  {
    if 0 <= k < |a| && k < |b| {
      assert ([c] + a)[..k + 1] == [c] + a[..k] && ([c] + b)[..k + 1] == [c] + b[..k];
      assert ([c] + a[..k])[1..] == a[..k] && ([c] + b[..k])[1..] == b[..k];
    }
  }

  lemma PrefixLater(c: char, a: string, b: string)
    ensures [c] + a <= [c] + b <==> a <= b
  {
    if |a| <= |b| {
      assert ([c] + b)[..|a| + 1] == [c] + b[..|a|];
      assert ([c] + a)[1..] == a && ([c] + b[..|a|])[1..] == b[..|a|];
      assert a <= b <==> a == b[..|a|];
      assert [c] + a <= [c] + b <==> [c] + a == ([c] + b)[..|a| + 1];
    }
  }

  /** A common first character does not matter. */
  lemma PrecedesLater(c: char, a: string, b: string)
    ensures Precedes([c] + a, [c] + b) <==> Precedes(a, b)
  {
    if k :| DifferAt(a, b, k) && a[k] < b[k] {
      DifferLater(c, a, b, k);
    }
    if k :| DifferAt([c] + a, [c] + b, k) && ([c] + a)[k] < ([c] + b)[k] {
      DifferLater(c, a, b, k - 1);
    }
    PrefixLater(c, a, b);
  }

  lemma SameBefore(a: string, b: string)
    ensures forall k :: DifferAt(a, b, k) && k > 0 ==> a[0] == b[0]
  {
    forall k | DifferAt(a, b, k) && k > 0 ensures a[0] == b[0] {
      assert a[..k][0] == b[..k][0];
    }
  }

  lemma PrecedesAtOnce(a: string, b: string)
    requires a != "" && b != "" && a[0] != b[0]
    ensures Precedes(a, b) <==> a[0] < b[0]
  {
    SameBefore(a, b);
    assert DifferAt(a, b, 0);
  }

  lemma {:induction false} LexLeExactly(a: string, b: string)
    ensures LexLe(a, b) <==> Precedes(a, b)
  {
    if a != "" && b != "" {
      if a[0] == b[0] {
        LexLeExactly(a[1..], b[1..]);
        PrecedesLater(a[0], a[1..], b[1..]);
        assert a == [a[0]] + a[1..] && b == [b[0]] + b[1..];
      } else {
        PrecedesAtOnce(a, b);
      }
    }
  }

  predicate IsLeast(k: string, keys: set<string>) {
    k in keys && forall j :: j in keys ==> LexLe(k, j)
  }

  lemma LeastExists(keys: set<string>)
    requires keys != {}
    ensures exists k :: IsLeast(k, keys)
  {
    var x :| x in keys;
    var rest := keys - {x};
    if rest == {} {
      LexTotal(x, x);
      assert keys == {x};
      assert IsLeast(x, keys);
    } else {
      LeastExists(rest);
      var k :| IsLeast(k, rest);
      LexTotal(x, k);
      LexTotal(x, x);
      var m := if LexLe(x, k) then x else k;
      forall j | j in keys ensures LexLe(m, j) {
        if LexLe(x, k) && j != x { LexTransitive(x, k, j); }
      }
      assert IsLeast(m, keys);
    }
  }

  lemma LeastUnique(a: string, b: string, keys: set<string>)
    requires IsLeast(a, keys) && IsLeast(b, keys)
    ensures a == b
  {
    LexTotal(a, b);
  }

  function Least(keys: set<string>): (k: string)
    requires keys != {}
    ensures IsLeast(k, keys)
  {
    LeastExists(keys);
    assert forall a, b | IsLeast(a, keys) && IsLeast(b, keys) :: a == b by {
      forall a, b | IsLeast(a, keys) && IsLeast(b, keys) ensures a == b { LeastUnique(a, b, keys); }
    }
    var k :| k in keys && IsLeast(k, keys);
    k
  }

  /** Each key once. */
  predicate Lists(order: seq<string>, keys: set<string>) {
    && (forall i :: 0 <= i < |order| ==> order[i] in keys)
    && (forall k :: k in keys ==> k in order)
    && (forall i, j :: 0 <= i < j < |order| ==> order[i] != order[j])
  }

  ghost predicate Ascending(order: seq<string>) {
    forall i, j :: 0 <= i < j < |order| ==> Precedes(order[i], order[j])
  }

  lemma LeastFirst(keys: set<string>, k: string, rest: seq<string>)
    requires IsLeast(k, keys) && Lists(rest, keys - {k}) && Ascending(rest)
    ensures Lists([k] + rest, keys) && Ascending([k] + rest)
  {
    var order := [k] + rest;
    forall j | 0 <= j < |rest| ensures Precedes(k, rest[j]) {
      LexLeExactly(k, rest[j]);
    }
    forall i, j | 0 <= i < j < |order|
      ensures Precedes(order[i], order[j]) && order[i] != order[j]
    {
      assert order[j] == rest[j - 1];
      if i > 0 {
        assert order[i] == rest[i - 1];
      }
    }
    forall x | x in keys ensures x in order {
      assert x == k || x in keys - {k};
    }
  }

  /** Python's `sorted` on the keys of a dictionary. */
  function Sorted(keys: set<string>): (r: seq<string>)
    ensures Lists(r, keys)
    ensures Ascending(r)
    decreases |keys|
  {
    if keys == {} then [] else
    var k := Least(keys);
    var rest := Sorted(keys - {k});
    LeastFirst(keys, k, rest);
    [k] + rest
  }

  // ----- printing -----

  /** ToGNString; `allowDicts` does not reach the items of a list. */
  function Print(v: Value, allowDicts: bool): Printed
    decreases v, 1
  {
    match v
    case Str(s) =>
      if '\n' in s then Err(NewlineInString) else Ok("\"" + (Escape(s) + "\""))
    case Bool(b) => Ok(if b then "true" else "false")
    case List(items) =>
      var parts :- PrintItems(items);
      Ok("[ " + (Join(parts) + " ]"))
    case Dict(entries) =>
      if allowDicts then PrintEntries(v, Sorted(entries.Keys)) else Err(NestedScope)
    case Int(n) => Ok(IntText(n))
    case Other => Err(UnsupportedType)
  }

  function PrintItems(items: seq<Value>): (r: Result<seq<string>, PrintError>)
    ensures r.Ok? ==> |r.value| == |items|
    decreases items, 0
  {
    if items == [] then Ok([]) else
    var first :- Print(items[0], true);
    var rest :- PrintItems(items[1..]);
    Ok([first] + rest)
  }

  /** Python's `', '.join`. */
  function Join(parts: seq<string>): string {
    if parts == [] then "" else if |parts| == 1 then parts[0] else parts[0] + (", " + Join(parts[1..]))
  }

  function PrintEntries(v: Value, keys: seq<string>): Printed
    requires v.Dict? && forall i :: 0 <= i < |keys| ==> keys[i] in v.entries
    decreases v, 0, |keys|
  {
    if keys == [] then Ok("") else
    var k := keys[0];
    assert k in v.entries;
    var text :- Print(v.entries[k], false);
    var rest :- PrintEntries(v, keys[1..]);
    Ok(EntryText(k, text) + rest)
  }

  /** Python's `"%s = %s\n"`. */
  function EntryText(key: string, text: string): string {
    key + (" = " + (text + "\n"))
  }

  // ----- the values that have a printed form without scopes -----

  predicate Plain(v: Value) {
    match v
    case Str(s) => '\n' !in s
    case List(items) => forall i :: 0 <= i < |items| ==> Plain(items[i])
    case Dict(_) => false
    case Other => false
    case _ => true
  }

  /** Strings are printed between quotes with a backslash in front of each escapable character. */
  lemma ScalarsPrinted(s: string, b: bool, n: nat, allowDicts: bool)
    ensures '\n' !in s ==> Print(Str(s), allowDicts) == Ok("\"" + (EscapeEach(s) + "\""))
    ensures Print(Bool(b), allowDicts) == Ok(if b then "true" else "false")
    ensures Print(Int(n), allowDicts) == Ok(NatText(n))
    ensures n > 0 ==> Print(Int(0 - n), allowDicts) == Ok("-" + NatText(n))
  {
    EscapeIsPerCharacter(s);
  }

  // ----- which values print -----

  lemma {:induction false} ItemsPrint(items: seq<Value>)
    ensures PrintItems(items).Ok? <==> forall i :: 0 <= i < |items| ==> Print(items[i], true).Ok?
  {
    if items != [] {
      ItemsPrint(items[1..]);
      assert forall i :: 0 < i < |items| ==> items[i] == items[1..][i - 1];
      if PrintItems(items[1..]).Ok? {
        forall i | 0 < i < |items| ensures Print(items[i], true).Ok? {
          assert Print(items[1..][i - 1], true).Ok?;
        }
      }
    }
  }

  lemma {:induction false} EntriesPrint(v: Value, keys: seq<string>)
    requires v.Dict? && forall i :: 0 <= i < |keys| ==> keys[i] in v.entries
    ensures PrintEntries(v, keys).Ok?
       <==> forall k :: k in keys ==> k in v.entries && Print(v.entries[k], false).Ok?
  {
    if keys != [] {
      assert keys[0] in v.entries;
      EntriesPrint(v, keys[1..]);
      assert keys == [keys[0]] + keys[1..];
    }
  }

  /** No string holds a line feed, nothing is of an unsupported type, and no entry of a scope is
      itself a scope, at any depth. */
  predicate Printable(v: Value) {
    match v
    case Str(s) => '\n' !in s
    case List(items) => forall i :: 0 <= i < |items| ==> Printable(items[i])
    case Dict(entries) => forall k :: k in entries ==> !entries[k].Dict? && Printable(entries[k])
    case Other => false
    case _ => true
  }

  /** Exactly these values print; whether scopes are allowed matters only for a value that is a
      scope itself. */
  lemma {:induction false} PrintsExactly(v: Value, allowDicts: bool)
    ensures Print(v, allowDicts).Ok? <==> Printable(v) && (v.Dict? ==> allowDicts)
    decreases v
  {
    match v
    case List(items) =>
      forall i | 0 <= i < |items| ensures Print(items[i], true).Ok? <==> Printable(items[i]) {
        PrintsExactly(items[i], true);
      }
      ItemsPrint(items);
    case Dict(entries) =>
      forall k | k in entries
        ensures Print(v.entries[k], false).Ok? <==> Printable(entries[k]) && !entries[k].Dict?
      {
        PrintsExactly(v.entries[k], false);
      }
      EntriesPrint(v, Sorted(entries.Keys));
    case _ =>
  }

  lemma {:induction false} PlainExactly(v: Value)
    ensures Plain(v) <==> Printable(v) && DictFree(v)
  {
    if v.List? {
      forall i | 0 <= i < |v.items|
        ensures Plain(v.items[i]) <==> Printable(v.items[i]) && DictFree(v.items[i])
      {
        PlainExactly(v.items[i]);
      }
    }
  }

  lemma PrintableIsPlain(v: Value, allowDicts: bool)
    requires DictFree(v) && Print(v, allowDicts).Ok?
    ensures Plain(v)
  {
    PrintsExactly(v, allowDicts);
    PlainExactly(v);
  }

  // ----- the syntax tree of a printed value -----

  function CharTree(c: char): StrChar {
    if IsEscapable(c) then Escaped(c) else StrChar.Plain(c)
  }

  function CharTrees(s: string): seq<StrChar> {
    if s == "" then [] else [CharTree(s[0])] + CharTrees(s[1..])
  }

  function TreeOf(v: Value): Tree
    requires Plain(v)
    decreases v, 1
  {
    match v
    case Bool(b) => TBool(b)
    case Int(n) => TNum(n < 0, NatText(if n < 0 then -n else n))
    case Str(s) => TStr(CharTrees(s))
    case List(items) => if items == [] then TList("  ", NoMore) else TList(" ", ItemsOf(items))
  }

  function ItemsOf(items: seq<Value>): Items
    requires items != [] && forall i :: 0 <= i < |items| ==> Plain(items[i])
    decreases items, 0
  {
    if |items| == 1 then Last(TreeOf(items[0]), " ")
    else More(TreeOf(items[0]), "", " ", ItemsOf(items[1..]))
  }

  lemma {:induction false} StringTree(s: string, f: string)
    ensures CharsThen(CharTrees(s), f) == EscapeEach(s) + f
  {
    if s == "" {
      assert EscapeEach(s) + f == f;
    } else {
      StringTree(s[1..], f);
      FirstCharTree(s[0], CharTrees(s[1..]), f);
      assert EscapeChar(s[0]) + EscapeEach(s[1..]) + f == EscapeChar(s[0]) + (EscapeEach(s[1..]) + f);
    }
  }

  lemma FirstCharTree(c: char, rest: seq<StrChar>, f: string)
    ensures CharsThen([CharTree(c)] + rest, f) == EscapeChar(c) + CharsThen(rest, f)
  {
    assert ([CharTree(c)] + rest)[1..] == rest;
  }

  lemma {:induction false} StringMeaning(s: string)
    ensures Wf(TStr(CharTrees(s))) && CharsMeaning(CharTrees(s)) == s
  {
    if s != "" {
      var rest := CharTrees(s[1..]);
      StringMeaning(s[1..]);
      assert CharTrees(s)[1..] == rest;
      forall i | 0 <= i < |CharTrees(s)| ensures WfChar(CharTrees(s)[i]) {
        if i > 0 { assert WfChar(rest[i - 1]); }
      }
      assert s == [s[0]] + s[1..];
    }
  }

  /** The printed text of a plain value is the text of its tree. */
  lemma {:induction false} TreeOfValue(v: Value, allowDicts: bool, f: string)
    requires Plain(v)
    ensures Print(v, allowDicts).Ok?
    ensures Wf(TreeOf(v)) && Meaning(TreeOf(v)) == v
    ensures TextThen(TreeOf(v), f) == Print(v, allowDicts).value + f
    decreases v, 1
  {
    match v
    case Bool(_) =>
    case Int(n) =>
      NatValueOfText(if n < 0 then -n else n);
    case Str(s) =>
      TreeOfString(s, f);
    case List(items) =>
      TreeOfList(items, f);
  }

  lemma TreeOfString(s: string, f: string)
    requires Plain(Str(s))
    ensures Wf(TreeOf(Str(s))) && Meaning(TreeOf(Str(s))) == Str(s)
    ensures TextThen(TreeOf(Str(s)), f) == "\"" + (Escape(s) + "\"") + f
  {
    EscapeIsPerCharacter(s);
    StringTree(s, "\"" + f);
    StringMeaning(s);
    assert "\"" + (Escape(s) + "\"") + f == "\"" + (Escape(s) + ("\"" + f));
  }

  lemma {:induction false} TreeOfList(items: seq<Value>, f: string)
    requires Plain(List(items))
    ensures PrintItems(items).Ok?
    ensures Wf(TreeOf(List(items))) && Meaning(TreeOf(List(items))) == List(items)
    ensures TextThen(TreeOf(List(items)), f) == "[ " + (Join(PrintItems(items).value) + " ]") + f
    decreases items, 1
  {
    if items == [] {
      assert "[" + ("  " + ("]" + f)) == "[ " + ("" + " ]") + f;
    } else {
      TreeOfItems(items, "]" + f);
      ListText(Join(PrintItems(items).value), f);
    }
  }

  lemma ListText(body: string, f: string)
    ensures "[" + (" " + (body + (" " + ("]" + f)))) == "[ " + (body + " ]") + f
  {
  }

  lemma {:induction false} TreeOfItems(items: seq<Value>, f: string)
    requires items != [] && forall i :: 0 <= i < |items| ==> Plain(items[i])
    ensures PrintItems(items).Ok?
    ensures WfItems(ItemsOf(items)) && ItemsMeaning(ItemsOf(items)) == items
    ensures ItemsThen(ItemsOf(items), f) == Join(PrintItems(items).value) + (" " + f)
    decreases items, 0
  {
    var first, rest := items[0], items[1..];
    assert items == [first] + rest;
    if |items| == 1 {
      TreeOfValue(first, true, " " + f);
      assert rest == [] && PrintItems(rest) == Ok([]);
    } else {
      var after := ItemsThen(ItemsOf(rest), f);
      TreeOfItems(rest, f);
      TreeOfValue(first, true, "" + ("," + (" " + after)));
      var p, ps := Print(first, true).value, PrintItems(rest).value;
      assert PrintItems(items).value == [p] + ps;
      assert ([p] + ps)[1..] == ps;
      JoinText(p, Join(ps), " " + f);
    }
  }

  lemma JoinText(p: string, q: string, f: string)
    ensures p + ("" + ("," + (" " + (q + f)))) == p + (", " + q) + f
  {
  }

  // ----- main results -----

  /** Printing and parsing back yields the value exactly for values made of integers, booleans,
      line-feed-free strings and lists of them. */
  lemma RoundTrip(v: Value)
    ensures (Print(v, true).Ok? && FromGNString(Print(v, true).value) == Ok(v)) <==> Plain(v)
  {
    if Plain(v) {
      TreeOfValue(v, true, "");
      var text := Print(v, true).value;
      assert text + "" == text && "" + Text(TreeOf(v)) + "" == Text(TreeOf(v));
      assert Spelling(text, v, "", TreeOf(v), "");
      FromGNStringIsTheGrammar(text, v);
    } else if Print(v, true).Ok? && FromGNString(Print(v, true).value) == Ok(v) {
      ParsedIsDictFree(Print(v, true).value);
      PrintableIsPlain(v, true);
    }
  }

  /** Printing is injective on plain values. */
  lemma PrintInjective(v: Value, w: Value)
    requires Plain(v) && Plain(w) && Print(v, true) == Print(w, true)
    ensures v == w
  {
    RoundTrip(v);
    RoundTrip(w);
  }

  // ----- scopes -----

  predicate PlainScope(d: Args) {
    forall k :: k in d ==> IsIdent(k) && Plain(d[k])
  }

  function AssignsOf(d: Args, keys: seq<string>): seq<Assign>
    requires PlainScope(d) && forall i :: 0 <= i < |keys| ==> keys[i] in d
  {
    if keys == [] then [] else
    assert keys[0] in d;
    [Assign(keys[0], " ", " ", TreeOf(d[keys[0]]), "\n")] + AssignsOf(d, keys[1..])
  }

  lemma {:induction false} TreesOfEntries(d: Args, keys: seq<string>)
    requires PlainScope(d) && forall i :: 0 <= i < |keys| ==> keys[i] in d
    ensures WfAll(AssignsOf(d, keys))
    ensures PrintEntries(Dict(d), keys) == Ok(AssignsThen(AssignsOf(d, keys), ""))
  {
    if keys != [] {
      var k, rest := keys[0], keys[1..];
      assert k in d;
      TreesOfEntries(d, rest);
      var xs, u := AssignsOf(d, rest), AssignsThen(AssignsOf(d, rest), "");
      TreeOfValue(d[k], false, "\n" + u);
      var a := AssignsOf(d, keys)[0];
      assert AssignsOf(d, keys)[1..] == xs;
      EntrySpelling(k, Print(d[k], false).value, u);
    }
  }

  lemma EntrySpelling(k: string, text: string, f: string)
    ensures EntryText(k, text) + f == k + (" " + ("=" + (" " + (text + ("\n" + f)))))
  {
    assert " = " == " " + ("=" + " ");
  }

  lemma {:induction false} BindEntries(d: Args, keys: seq<string>, e: Args, j: string)
    requires PlainScope(d) && forall i :: 0 <= i < |keys| ==> keys[i] in d
    ensures WfAll(AssignsOf(d, keys))
    ensures j in Bind(AssignsOf(d, keys), e) <==> j in e || j in keys
    ensures j in keys ==> Bind(AssignsOf(d, keys), e)[j] == d[j]
    ensures j in e && j !in keys ==> Bind(AssignsOf(d, keys), e)[j] == e[j]
  {
    TreesOfEntries(d, keys);
    if keys != [] {
      var k, rest := keys[0], keys[1..];
      assert k in d;
      TreeOfValue(d[k], false, "");
      BindEntries(d, rest, e[k := d[k]], j);
      assert AssignsOf(d, keys)[1..] == AssignsOf(d, rest);
      assert keys == [k] + rest;
    }
  }

  /** The entries of a plain scope, printed in any key order, parse back to the scope. */
  lemma AnyKeyOrderParsesBack(d: Args, order: seq<string>)
    requires PlainScope(d) && Lists(order, d.Keys)
    ensures PrintEntries(Dict(d), order).Ok?
    ensures FromGNArgs(PrintEntries(Dict(d), order).value) == Ok(d)
  {
    TreesOfEntries(d, order);
    var xs := AssignsOf(d, order);
    forall j ensures j in Bind(xs, map[]) <==> j in d
             ensures j in d ==> Bind(xs, map[])[j] == d[j]
    {
      BindEntries(d, order, map[], j);
    }
    assert Bind(xs, map[]) == d;
    assert "" + AssignsThen(xs, "") == AssignsThen(xs, "");
    ArgsOf("", xs, "");
  }

  /** One line for each key, in this order. */
  function LinesOf(d: Args, order: seq<string>): string
    requires forall k :: k in order ==> k in d && Print(d[k], false).Ok?
  {
    if order == [] then ""
    else order[0] + " = " + Print(d[order[0]], false).value + "\n" + LinesOf(d, order[1..])
  }

  lemma {:induction false} EntriesAreLines(d: Args, order: seq<string>)
    requires (forall i :: 0 <= i < |order| ==> order[i] in d) && PrintEntries(Dict(d), order).Ok?
    ensures forall k :: k in order ==> k in d && Print(d[k], false).Ok?
    ensures PrintEntries(Dict(d), order).value == LinesOf(d, order)
  {
    EntriesPrint(Dict(d), order);
    if order != [] {
      EntriesAreLines(d, order[1..]);
      LineText(order[0], Print(d[order[0]], false).value, LinesOf(d, order[1..]));
    }
  }

  lemma LineText(k: string, text: string, rest: string)
    ensures EntryText(k, text) + rest == k + " = " + text + "\n" + rest
  {
    Associative(k, " = ", text + "\n");
    Associative(k + " = ", text, "\n");
  }

  ghost predicate IsLines(d: Args, order: seq<string>, text: string) {
    && Lists(order, d.Keys)
    && Ascending(order)
    && (forall k :: k in order ==> k in d && Print(d[k], false).Ok?)
    && text == LinesOf(d, order)
  }

  /** A scope is printed as one line `key = value` for each key, the keys ascending by character. */
  lemma ScopeIsLines(d: Args)
    requires Print(Dict(d), true).Ok?
    ensures exists order :: IsLines(d, order, Print(Dict(d), true).value)
  {
    EntriesAreLines(d, Sorted(d.Keys));
    assert IsLines(d, Sorted(d.Keys), Print(Dict(d), true).value);
  }

  /** The texts of the items, with a comma and a space between them. */
  function Commas(items: seq<Value>): string
    requires items != [] && forall i :: 0 <= i < |items| ==> Print(items[i], true).Ok?
  {
    var last := |items| - 1;
    (if last == 0 then "" else Commas(items[..last]) + ", ") + Print(items[last], true).value
  }

  lemma {:induction false} JoinLast(parts: seq<string>, p: string)
    requires parts != []
    ensures Join(parts + [p]) == Join(parts) + ", " + p
  {
    if |parts| == 1 {
      assert (parts + [p])[1..] == [p];
      Associative(parts[0], ", ", p);
    } else {
      JoinLast(parts[1..], p);
      assert (parts + [p])[1..] == parts[1..] + [p];
      CommaBehind(parts[0], Join(parts[1..]), p);
    }
  }

  lemma CommaBehind(a: string, b: string, p: string)
    ensures a + (", " + (b + ", " + p)) == a + (", " + b) + ", " + p
  {
  }

  lemma {:induction false} PrintItemsLast(items: seq<Value>, v: Value)
    requires PrintItems(items).Ok? && Print(v, true).Ok?
    ensures PrintItems(items + [v]) == Ok(PrintItems(items).value + [Print(v, true).value])
  {
    if items == [] {
      assert items + [v] == [v] && [v][1..] == [];
      assert PrintItems([]) == Ok([]);
      assert [Print(v, true).value] + [] == [] + [Print(v, true).value];
    } else {
      PrintItemsLast(items[1..], v);
      assert (items + [v])[1..] == items[1..] + [v];
      Associative([Print(items[0], true).value], PrintItems(items[1..]).value, [Print(v, true).value]);
    }
  }

  lemma {:induction false} JoinIsCommas(items: seq<Value>)
    requires items != [] && forall i :: 0 <= i < |items| ==> Print(items[i], true).Ok?
    ensures PrintItems(items).Ok? && Join(PrintItems(items).value) == Commas(items)
  {
    var last := |items| - 1;
    var init, v := items[..last], items[last];
    assert items == init + [v];
    ItemsPrint(init);
    PrintItemsLast(init, v);
    if last == 0 {
      assert PrintItems(init) == Ok([]);
      assert [] + [Print(v, true).value] == [Print(v, true).value];
      assert "" + Print(v, true).value == Print(v, true).value;
    } else {
      JoinIsCommas(init);
      JoinLast(PrintItems(init).value, Print(v, true).value);
    }
  }

  /** A list is printed as its items between brackets, with a comma and a space between them. */
  lemma ListIsCommas(items: seq<Value>, allowDicts: bool)
    requires Print(List(items), allowDicts).Ok?
    ensures forall i :: 0 <= i < |items| ==> Print(items[i], true).Ok?
    ensures Print(List(items), allowDicts).value == "[ " + ((if items == [] then "" else Commas(items)) + " ]")
  {
    ItemsPrint(items);
    if items != [] {
      JoinIsCommas(items);
    }
  }

  lemma ParsedScopeIsPlain(d: Args, order: seq<string>, text: string)
    requires Lists(order, d.Keys) && PrintEntries(Dict(d), order) == Ok(text)
    requires FromGNArgs(text) == Ok(d)
    ensures PlainScope(d)
  {
    forall k | k in d ensures IsIdent(k) && Plain(d[k]) {
      ParsedArgs(text, d, k);
      EntriesPrint(Dict(d), order);
      assert k in order;
      PrintableIsPlain(d[k], false);
    }
  }

  lemma PrintOfScope(d: Args)
    ensures Print(Dict(d), true) == PrintEntries(Dict(d), Sorted(d.Keys))
  {
  }

  /** A scope printed and parsed as arguments yields itself exactly when its keys are identifiers
      and its values are plain. */
  lemma ScopeRoundTrip(d: Args)
    ensures (Print(Dict(d), true).Ok? && FromGNArgs(Print(Dict(d), true).value) == Ok(d))
       <==> PlainScope(d)
  {
    var order := Sorted(d.Keys);
    var text := Print(Dict(d), true);
    PrintOfScope(d);
    if PlainScope(d) {
      AnyKeyOrderParsesBack(d, order);
    }
    if text.Ok? && FromGNArgs(text.value) == Ok(d) {
      ParsedScopeIsPlain(d, order, text.value);
    }
  }

  lemma ParsedArgs(s: string, d: Args, k: string)
    requires FromGNArgs(s) == Ok(d) && k in d
    ensures IsIdent(k) && DictFree(d[k])
  {
    var before, xs, bad := SplitText(s);
    ArgsAreIdentsAndValues(xs, map[], k);
  }

  /** A scope inside a list is printed all the same, as text that does not parse back. */
  lemma ScopeInListIsPrinted(d: Args)
    requires PlainScope(d)
    ensures Print(List([Dict(d)]), false).Ok?
    ensures FromGNString(Print(List([Dict(d)]), false).value) != Ok(List([Dict(d)]))
  {
    AnyKeyOrderParsesBack(d, Sorted(d.Keys));
    var v := List([Dict(d)]);
    assert [Dict(d)][1..] == [];
    assert PrintItems([Dict(d)]).Ok?;
    RoundTrip(v);
    assert !Plain(v.items[0]);
  }
}
