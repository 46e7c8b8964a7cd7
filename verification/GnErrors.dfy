/** Which texts fail with the errors that belong to a whole text, not to a value in it. */
module GnErrors {
  import opened Wrappers
  import opened GnText
  import opened GnParser
  import opened GnGrammar
  import opened GnSentences

  lemma {:induction false} ValueErrors(s: string)
    ensures ParseValue(s) != Err(TrailingInput)
    ensures ParseValue(s) == Err(ExpectedInput) ==> SkipWs(s) == ""
    decreases |s|, 1
  {
    var t := SkipWs(s);
    if t != "" && t[0] == '[' {
      assert ParseValue(s) == ParseList(t) == ParseItems(SkipWs(t[1..]), true, []);
      ItemErrors(SkipWs(t[1..]), true, []);
    } else if t != "" && t[0] == '"' {
      BodyErrors(t[1..]);
    }
  }

  lemma {:induction false} ItemErrors(s: string, comma: bool, done: seq<Value>)
    requires Unspaced(s)
    ensures ParseItems(s, comma, done) != Err(TrailingInput) && ParseItems(s, comma, done) != Err(ExpectedInput)
    decreases |s|, 2
  {
    if s != "" && s[0] != ']' && comma {
      if ParseValue(s).Err? {
        ValueErrors(s);
      } else {
        var (v, rest) := ParseValue(s).value;
        var t := SkipWs(rest);
        if t != "" && t[0] == ',' {
          ItemErrors(SkipWs(t[1..]), true, done + [v]);
        } else if t != "" {
          ItemErrors(t, false, done + [v]);
        }
      }
    }
  }

  lemma {:induction false} BodyErrors(s: string)
    ensures StringBody(s) != Err(TrailingInput) && StringBody(s) != Err(ExpectedInput)
  {
    if s != "" && s[0] == '\\' && |s| > 1 {
      BodyErrors(s[2..]);
    } else if s != "" && s[0] != '"' && s[0] != '\\' {
      BodyErrors(s[1..]);
    }
  }

  predicate HasTrailing(s: string, before: string, t: Tree, rest: string) {
    AllWs(before) && Wf(t) && Follows(t, rest) && s == before + TextThen(t, rest) && !AllWs(rest)
  }

  /** Two of the errors: there is nothing but white space, or something stands behind a value that
      it does not continue. */
  lemma EmptyOrTrailing(s: string)
    ensures FromGNString(s) == Err(ExpectedInput) <==> AllWs(s)
    ensures FromGNString(s) == Err(TrailingInput)
       <==> exists before, t, rest :: HasTrailing(s, before, t, rest)
  {
    var ws := LeadingWs(s);
    SpaceOnly(s);
    if ParseValue(s).Err? {
      ValueErrors(s);
    } else {
      SpaceOnly(ParseValue(s).value.1);
    }
    if FromGNString(s) == Err(TrailingInput) {
      var t := ValueRead(s);
      assert HasTrailing(s, ws, t, ParseValue(s).value.1);
    }
    if before, t, rest :| HasTrailing(s, before, t, rest) {
      ValueSkipsSpace(before, t, rest);
    }
  }
}
