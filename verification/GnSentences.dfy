/** The sentences of the grammar: what FromGNString accepts, and what that says of values. */
module GnSentences {
  import opened Wrappers
  import opened GnText
  import opened GnParser
  import opened GnGrammar

  /** `s` spells `v`: a syntax tree of value `v` between white space. */
  ghost predicate Spells(s: string, v: Value) {
    exists before, t, after :: Spelling(s, v, before, t, after)
  }

  predicate Spelling(s: string, v: Value, before: string, t: Tree, after: string) {
    AllWs(before) && Wf(t) && AllWs(after) && s == before + Text(t) + after && Meaning(t) == v
  }

  lemma AcceptedIsSpelled(s: string, v: Value)
    requires FromGNString(s) == Ok(v)
    ensures Spells(s, v)
  {
    var t := ValueRead(s);
    var after := ParseValue(s).value.1;
    var before := LeadingWs(s);
    SpaceOnly(after);
    TextThenEnd(t, after);
    Associative(before, Text(t), after);
    assert Spelling(s, v, before, t, after);
  }

  lemma SpelledIsAccepted(s: string, v: Value, before: string, t: Tree, after: string)
    requires Spelling(s, v, before, t, after)
    ensures FromGNString(s) == Ok(v)
  {
    TextThenEnd(t, after);
    Associative(before, Text(t), after);
    assert after + "" == after;
    FollowsSpace(t, after, "");
    ValueSkipsSpace(before, t, after);
    SkipWsDrops(after, "");
  }

  /** FromGNString accepts exactly the sentences of the grammar, with exactly their value. */
  lemma FromGNStringIsTheGrammar(s: string, v: Value)
    ensures FromGNString(s) == Ok(v) <==> Spells(s, v)
  {
    if FromGNString(s) == Ok(v) {
      AcceptedIsSpelled(s, v);
    }
    if before, t, after :| Spelling(s, v, before, t, after) {
      SpelledIsAccepted(s, v, before, t, after);
    }
  }

  lemma TextThenEnd(t: Tree, f: string)
    ensures TextThen(t, f) == Text(t) + f
  {
    TextThenAppend(t, "", f);
    assert "" + f == f;
  }

  lemma ValueFromSkipped(s: string)
    ensures ParseValue(s) == ParseValue(SkipWs(s))
  {
  }

  /** White space in front of a tree is skipped. */
  lemma ValueSkipsSpace(before: string, t: Tree, f: string)
    requires AllWs(before) && Wf(t) && Follows(t, f)
    ensures ParseValue(before + TextThen(t, f)) == Ok((Meaning(t), f))
  {
    TextStart(t, f);
    SkipWsDrops(before, TextThen(t, f));
    ValueFromSkipped(before + TextThen(t, f));
    ReadsBack(t, f);
  }

  lemma FollowsMore(t: Tree, rest: string, f: string)
    requires Follows(t, rest) && (rest == "" && t.TNum? ==> Undigited(f))
    ensures Follows(t, rest + f)
  {
    if rest == "" {
      assert rest + f == f;
    }
  }

  lemma TextGoesOn(before: string, t: Tree, rest: string, f: string)
    ensures before + TextThen(t, rest) + f == before + TextThen(t, rest + f)
  {
    TextThenAppend(t, rest, f);
    Associative(before, TextThen(t, rest), f);
  }

  /** Locality: an accepted value depends only on the text it consumes; only a numeral goes on with
      a digit behind it. */
  lemma ValueIsLocal(s: string, f: string)
    requires ParseValue(s).Ok?
    requires ParseValue(s).value.1 == "" && ParseValue(s).value.0.Int? ==> Undigited(f)
    ensures ParseValue(s + f) == Ok((ParseValue(s).value.0, ParseValue(s).value.1 + f))
  {
    var t := ValueRead(s);
    var rest := ParseValue(s).value.1;
    var before := LeadingWs(s);
    FollowsMore(t, rest, f);
    TextGoesOn(before, t, rest, f);
    ValueSkipsSpace(before, t, rest + f);
  }

  /** Bool, Int, Str and lists of them, at every depth. */
  predicate DictFree(v: Value) {
    match v
    case List(items) => forall i :: 0 <= i < |items| ==> DictFree(items[i])
    case Dict(_) => false
    case Other => false
    case _ => true
  }

  lemma {:induction false} MeaningIsDictFree(t: Tree)
    requires Wf(t)
    ensures DictFree(Meaning(t))
    decreases t
  {
    if t.TList? {
      ItemsAreDictFree(t.items);
    }
  }

  lemma {:induction false} ItemsAreDictFree(items: Items)
    requires WfItems(items)
    ensures forall i :: 0 <= i < |ItemsMeaning(items)| ==> DictFree(ItemsMeaning(items)[i])
    decreases items
  {
    match items
    case NoMore =>
    case Last(v, _) => MeaningIsDictFree(v);
    case More(v, _, _, rest) => MeaningIsDictFree(v); ItemsAreDictFree(rest);
  }

  /** The parser never yields a scope. */
  lemma ParsedIsDictFree(s: string)
    requires ParseValue(s).Ok?
    ensures DictFree(ParseValue(s).value.0)
  {
    var t := ValueRead(s);
    MeaningIsDictFree(t);
  }
}
