/** Reading a block of HTTP field lines (section 5 of RFC 9112) into the header map. */
module HttpHeaders {
  import opened Wrappers

  type Headers = map<string, string>

  /** The largest size_t, which also stands for the end of a string. */
  const NPOS := 0xFFFF_FFFF_FFFF_FFFF

  // ----- strings of C++ -----

  /** The first position of a character, if there is one. */
  function Find(s: string, c: char): (r: Option<nat>)
    ensures r.Some? ==> r.value < |s| && s[r.value] == c && c !in s[..r.value]
    ensures r.None? ==> c !in s
  {
    if s == "" then None
    else if s[0] == c then Some(0)
    else match Find(s[1..], c)
      case None => None
      case Some(n) => Some(n + 1)
  }

  /** substr: clipped at the end of the string, out of range if it starts behind the end. */
  function Substr(s: string, pos: nat, count: nat): Option<string> {
    if pos > |s| then None
    else if count >= |s| - pos then Some(s[pos..])
    else Some(s[pos..pos + count])
  }

  function SizeMinusOne(n: nat): nat {
    if n == 0 then NPOS else n - 1
  }

  // ----- the loop -----

  /** Headers after the loop, and whether it ended in an out-of-range exception. */
  datatype Outcome = Outcome(headers: Headers, thrown: bool)

  function Quoted(name: string): string {
    "\"" + name + "\""
  }

  function Bracketed(value: string): string {
    "[\"" + value + "\"]"
  }

  const NULL_KEY := "null"

  /** What the loop does with the text that is left. */
  function Parse(h: Headers, s: string): Outcome
    requires |s| < NPOS
    decreases |s|
  {
    match Find(s, '\n')
    case None => Outcome(h, false)
    case Some(n) =>
      var header := if n == 0 then s else s[..n - 1];
      if header == "" then Outcome(h, false) else
      match Find(header, ':')
      case None => Parse(h[NULL_KEY := Bracketed(header)], s[n + 1..])
      case Some(c) =>
        if c + 2 > |header| then Outcome(h, true)
        else Parse(h[Quoted(header[..c]) := Bracketed(header[c + 2..])], s[n + 1..])
  }

  class ResponseData {
    var headers: Headers

    constructor ()
      ensures headers == map[]
    {
      headers := map[];
    }

    /** Returns whether the out-of-range exception of substr ended it. */
    method SetHeaders(text: string) returns (thrown: bool)
      requires |text| < NPOS
      modifies this
      ensures Outcome(headers, thrown) == Parse(old(headers), text)
    {
      var headersStr := text;
      var posSeparator := Find(headersStr, '\n');
      while posSeparator.Some?
        invariant |headersStr| < NPOS && posSeparator == Find(headersStr, '\n')
        invariant Parse(headers, headersStr) == Parse(old(headers), text)
        decreases |headersStr|
      {
        var n := posSeparator.value;
        var header := Substr(headersStr, 0, SizeMinusOne(n)).value;
        assert header == if n == 0 then headersStr else headersStr[..n - 1];
        if header == "" {
          break;
        }
        var posColon := Find(header, ':');
        if posColon.None? {
          headers := headers[NULL_KEY := Bracketed(header)];
        } else {
          var value := Substr(header, posColon.value + 2, NPOS);
          if value.None? {
            return true;
          }
          var name := Substr(header, 0, posColon.value).value;
          headers := headers[Quoted(name) := Bracketed(value.value)];
        }
        headersStr := Substr(headersStr, n + 1, NPOS).value;
        posSeparator := Find(headersStr, '\n');
      }
      return false;
    }
  }

  // ----- field lines -----

  /** A field line up to its line end: `raw` is everything behind the first colon; a bare line has
      no colon. */
  datatype Field = Pair(name: string, raw: string) | Bare(text: string)

  predicate Wf(f: Field) {
    match f
    case Pair(name, raw) => ':' !in name && '\n' !in name && '\n' !in raw
    case Bare(text) => text != "" && ':' !in text && '\n' !in text
  }

  predicate WfAll(fs: seq<Field>) {
    forall i :: 0 <= i < |fs| ==> Wf(fs[i])
  }

  function Content(f: Field): string {
    match f
    case Pair(name, raw) => name + (":" + raw)
    case Bare(text) => text
  }

  /** The lines, each ended by CR LF, and the text behind them. */
  function LinesThen(fs: seq<Field>, rest: string): string {
    if fs == [] then rest else Content(fs[0]) + ("\r\n" + LinesThen(fs[1..], rest))
  }

  /** A blank line and anything, or text without a further line end. */
  predicate EndsBlock(rest: string) {
    "\r\n" <= rest || '\n' !in rest
  }

  /** Something follows the colon; the code then skips one character and takes the rest. */
  predicate Readable(f: Field) {
    f.Pair? ==> f.raw != ""
  }

  function Key(f: Field): string {
    match f
    case Pair(name, _) => Quoted(name)
    case Bare(_) => NULL_KEY
  }

  function Stored(f: Field): string
    requires Readable(f)
  {
    match f
    case Pair(_, raw) => Bracketed(raw[1..])
    case Bare(text) => Bracketed(text)
  }

  /** The fields put into the map in order, up to the first unreadable one. */
  function Put(h: Headers, fs: seq<Field>): Outcome
    decreases |fs|
  {
    if fs == [] then Outcome(h, false)
    else if !Readable(fs[0]) then Outcome(h, true)
    else Put(h[Key(fs[0]) := Stored(fs[0])], fs[1..])
  }

  lemma {:induction false} FindIn(a: string, c: char, b: string)
    requires c !in a
    ensures Find(a + ([c] + b), c) == Some(|a|)
  {
    if a == "" {
      assert a + ([c] + b) == [c] + b;
    } else {
      assert (a + ([c] + b))[1..] == a[1..] + ([c] + b);
      FindIn(a[1..], c, b);
    }
  }

  lemma ContentFacts(f: Field)
    requires Wf(f)
    ensures Content(f) != "" && '\n' !in Content(f)
    ensures Find(Content(f), ':') == if f.Pair? then Some(|f.name|) else None
  {
    if f.Pair? {
      FindIn(f.name, ':', f.raw);
      assert Content(f) == f.name + ([':'] + f.raw);
    }
  }

  /** The line end is found behind one more character. */
  lemma LineEndFacts(content: string, c: char, rest: string)
    requires '\n' !in content && c != '\n'
    ensures var s := content + ([c, '\n'] + rest);
      Find(s, '\n') == Some(|content| + 1) && s[..|content|] == content && s[|content| + 2..] == rest
  {
    var s := content + ([c, '\n'] + rest);
    FindIn(content + [c], '\n', rest);
    assert s == content + [c] + (['\n'] + rest);
  }

  /** What one turn of the loop does with a header and the text behind its line. */
  function Turn(h: Headers, header: string, rest: string): Outcome
    requires |rest| < NPOS
  {
    if header == "" then Outcome(h, false) else
    match Find(header, ':')
    case None => Parse(h[NULL_KEY := Bracketed(header)], rest)
    case Some(c) =>
      if c + 2 > |header| then Outcome(h, true)
      else Parse(h[Quoted(header[..c]) := Bracketed(header[c + 2..])], rest)
  }

  lemma OneLine(h: Headers, content: string, c: char, rest: string)
    requires '\n' !in content && c != '\n' && |content| + 2 + |rest| < NPOS
    ensures Parse(h, content + ([c, '\n'] + rest)) == Turn(h, content, rest)
  {
    var s, n := content + ([c, '\n'] + rest), |content| + 1;
    LineEndFacts(content, c, rest);
    assert Find(s, '\n') == Some(n) && s[..n - 1] == content && s[n + 1..] == rest;
  }

  lemma PairSlices(name: string, raw: string)
    ensures var content := name + (":" + raw);
      && content[..|name|] == name && |content| == |name| + 1 + |raw|
      && (raw != "" ==> content[|name| + 2..] == raw[1..])
  {
  }

  lemma CrlfLine(h: Headers, content: string, rest: string)
    requires '\n' !in content && |content| + 2 + |rest| < NPOS
    ensures Parse(h, content + ("\r\n" + rest)) == Turn(h, content, rest)
  {
    OneLine(h, content, '\r', rest);
    assert "\r\n" == ['\r', '\n'];
  }

  lemma FieldTurn(h: Headers, f: Field, rest: string)
    requires Wf(f) && |rest| < NPOS
    ensures Turn(h, Content(f), rest)
         == if Readable(f) then Parse(h[Key(f) := Stored(f)], rest) else Outcome(h, true)
  {
    ContentFacts(f);
    var content := Content(f);
    if f.Pair? {
      PairSlices(f.name, f.raw);
      var n := |f.name|;
      assert Find(content, ':') == Some(n) && (n + 2 > |content| <==> !Readable(f));
      assert Quoted(content[..n]) == Key(f);
      if Readable(f) {
        assert Bracketed(content[n + 2..]) == Stored(f);
      }
    } else {
      assert Find(content, ':') == None && Readable(f);
      assert NULL_KEY == Key(f) && Bracketed(content) == Stored(f);
    }
  }

  lemma OneField(h: Headers, f: Field, rest: string)
    requires Wf(f) && |Content(f) + ("\r\n" + rest)| < NPOS
    ensures Parse(h, Content(f) + ("\r\n" + rest))
         == if Readable(f) then Parse(h[Key(f) := Stored(f)], rest) else Outcome(h, true)
  {
    ContentFacts(f);
    CrlfLine(h, Content(f), rest);
    FieldTurn(h, f, rest);
  }

  lemma EndOfBlock(h: Headers, rest: string)
    requires EndsBlock(rest) && |rest| < NPOS
    ensures Parse(h, rest) == Outcome(h, false)
  {
    if "\r\n" <= rest {
      var line := "";
      CrlfLine(h, line, rest[2..]);
      assert rest == line + ("\r\n" + rest[2..]);
    }
  }

  // ----- line feeds without a carriage return -----

  /** The character in front of a line feed is cut off, whether or not it is a carriage return. */
  lemma AnyCharacterIsCut(h: Headers, line: string, c: char, rest: string)
    requires '\n' !in line && c != '\n' && |line| + 2 + |rest| < NPOS
    ensures Parse(h, line + ([c, '\n'] + rest)) == Parse(h, line + ("\r\n" + rest))
  {
    OneLine(h, line, c, rest);
    CrlfLine(h, line, rest);
  }

  lemma LeadingSlices(rest: string, c: nat)
    requires c < |rest|
    ensures ("\n" + rest)[..c + 1] == "\n" + rest[..c]
    ensures c + 1 < |rest| ==> ("\n" + rest)[c + 3..] == rest[c + 2..]
  {
  }

  /** A line feed in front of everything makes the whole text the header of the first turn. */
  lemma LeadingLineFeed(h: Headers, rest: string)
    requires |rest| + 1 < NPOS
    ensures Parse(h, "\n" + rest) == match Find(rest, ':') {
      case None => Parse(h["null" := "[\"" + ("\n" + rest) + "\"]"], rest)
      case Some(c) =>
        if c + 1 == |rest| then Outcome(h, true)
        else Parse(h["\"" + ("\n" + rest[..c]) + "\"" := "[\"" + rest[c + 2..] + "\"]"], rest)
    }
  {
    var s := "\n" + rest;
    assert s[1..] == rest;
    if Find(rest, ':').Some? {
      LeadingSlices(rest, Find(rest, ':').value);
    }
  }

  // ----- main results -----

  /** On field lines ended by CR LF, whatever follows the block, SetHeaders puts the fields into
      the map in their order, and throws at the first line with nothing behind its colon. */
  lemma {:induction false} BlockIsPut(h: Headers, fs: seq<Field>, rest: string)
    requires WfAll(fs) && EndsBlock(rest) && |LinesThen(fs, rest)| < NPOS
    ensures Parse(h, LinesThen(fs, rest)) == Put(h, fs)
    decreases |fs|
  {
    if fs == [] {
      EndOfBlock(h, rest);
    } else {
      assert Wf(fs[0]);
      OneField(h, fs[0], LinesThen(fs[1..], rest));
      if Readable(fs[0]) {
        BlockIsPut(h[Key(fs[0]) := Stored(fs[0])], fs[1..], rest);
      }
    }
  }

  /** Every line end is preceded by a carriage return. */
  predicate CrlfText(s: string) {
    forall i :: 0 <= i < |s| && s[i] == '\n' ==> i > 0 && s[i - 1] == '\r'
  }

  /** Every text with CR LF line ends is such a block, so its outcome is known. */
  lemma {:induction false} EveryCrlfTextIsABlock(s: string) returns (fs: seq<Field>, rest: string)
    requires CrlfText(s)
    ensures WfAll(fs) && EndsBlock(rest) && s == LinesThen(fs, rest)
    decreases |s|
  {
    match Find(s, '\n') {
      case None =>
        fs, rest := [], s;
      case Some(n) =>
        var content, tail := s[..n - 1], s[n + 1..];
        assert s == content + ("\r\n" + tail);
        assert '\n' !in content by {
          assert forall c :: c in content ==> c in s[..n];
        }
        if content == "" {
          fs, rest := [], s;
        } else {
          forall i | 0 <= i < |tail| && tail[i] == '\n' ensures i > 0 && tail[i - 1] == '\r' {
            assert s[n + 1 + i] == '\n' && s[n + i] == '\r';
          }
          var f := FieldOf(content);
          var more;
          more, rest := EveryCrlfTextIsABlock(tail);
          fs := [f] + more;
          assert fs[1..] == more;
        }
    }
  }

  lemma FieldOf(content: string) returns (f: Field)
    requires content != "" && '\n' !in content
    ensures Wf(f) && Content(f) == content
  {
    match Find(content, ':') {
      case None =>
        f := Bare(content);
      case Some(c) =>
        f := Pair(content[..c], content[c + 1..]);
        assert content == content[..c] + (":" + content[c + 1..]);
    }
  }

  lemma {:induction false} PutThrows(h: Headers, fs: seq<Field>)
    ensures Put(h, fs).thrown <==> exists i :: 0 <= i < |fs| && !Readable(fs[i])
    decreases |fs|
  {
    if fs != [] && Readable(fs[0]) {
      var more := fs[1..];
      PutThrows(h[Key(fs[0]) := Stored(fs[0])], more);
      if i :| 0 <= i < |more| && !Readable(more[i]) {
        assert !Readable(fs[i + 1]);
      }
      if i :| 0 <= i < |fs| && !Readable(fs[i]) {
        assert !Readable(more[i - 1]);
      }
    }
  }

  /** On such texts SetHeaders throws exactly if some line has nothing behind its first colon. */
  lemma ThrowsExactly(h: Headers, fs: seq<Field>, rest: string)
    requires WfAll(fs) && EndsBlock(rest) && |LinesThen(fs, rest)| < NPOS
    ensures Parse(h, LinesThen(fs, rest)).thrown <==> exists i :: 0 <= i < |fs| && !Readable(fs[i])
  {
    BlockIsPut(h, fs, rest);
    PutThrows(h, fs);
  }

  /** The last field with the key wins; other keys keep what they had. */
  lemma {:induction false} LastFieldWins(h: Headers, fs: seq<Field>, key: string)
    requires !Put(h, fs).thrown
    ensures var r := Put(h, fs).headers;
      && ((forall i :: 0 <= i < |fs| ==> Key(fs[i]) != key) ==>
            (key in r <==> key in h) && (key in h ==> r[key] == h[key]))
      && (forall i :: 0 <= i < |fs| && Key(fs[i]) == key && Readable(fs[i])
                      && (forall j :: i < j < |fs| ==> Key(fs[j]) != key) ==>
            key in r && r[key] == Stored(fs[i]))
    decreases |fs|
  {
    if fs != [] {
      var f, more := fs[0], fs[1..];
      var h' := h[Key(f) := Stored(f)];
      LastFieldWins(h', more, key);
      var r := Put(h, fs).headers;
      assert forall i :: 0 <= i < |more| ==> more[i] == fs[i + 1];
      if forall i :: 0 <= i < |fs| ==> Key(fs[i]) != key {
        assert forall i :: 0 <= i < |more| ==> Key(more[i]) != key;
      }
      forall i | 0 <= i < |fs| && Key(fs[i]) == key && Readable(fs[i])
                 && (forall j :: i < j < |fs| ==> Key(fs[j]) != key)
        ensures key in r && r[key] == Stored(fs[i])
      {
        if i == 0 {
          assert forall j :: 0 <= j < |more| ==> Key(more[j]) != key;
        } else {
          assert Key(more[i - 1]) == key && Readable(more[i - 1]);
          assert forall j :: i - 1 < j < |more| ==> Key(more[j]) != key;
        }
      }
    }
  }

  lemma LastStored(h: Headers, fs: seq<Field>, i: nat)
    requires i < |fs| && Readable(fs[i]) && !Put(h, fs).thrown
    requires forall j :: i < j < |fs| ==> Key(fs[j]) != Key(fs[i])
    ensures Key(fs[i]) in Put(h, fs).headers && Put(h, fs).headers[Key(fs[i])] == Stored(fs[i])
  {
    LastFieldWins(h, fs, Key(fs[i]));
  }

  /** A line without a colon reaches only the key `null`, which is no quoted name; quoted names are
      equal only if the names are. */
  lemma KeysApart(a: string, b: string)
    ensures Quoted(a) != NULL_KEY
    ensures Quoted(a) == Quoted(b) <==> a == b
  {
    assert Quoted(a)[0] == '"';
    assert Quoted(a)[1..|Quoted(a)| - 1] == a && Quoted(b)[1..|Quoted(b)| - 1] == b;
  }

  function PairsOf(headers: seq<(string, string)>): seq<Field> {
    seq(|headers|, i requires 0 <= i < |headers| => Pair(headers[i].0, " " + headers[i].1))
  }

  predicate Printable(header: (string, string)) {
    ':' !in header.0 && '\n' !in header.0 && '\n' !in header.1
  }

  lemma PairsFacts(headers: seq<(string, string)>)
    requires forall k :: 0 <= k < |headers| ==> Printable(headers[k])
    ensures var fs := PairsOf(headers);
      && WfAll(fs) && |fs| == |headers|
      && forall k :: 0 <= k < |fs| ==> Readable(fs[k]) && Key(fs[k]) == Quoted(headers[k].0)
                                       && Stored(fs[k]) == Bracketed(headers[k].1)
  {
    var fs := PairsOf(headers);
    forall k | 0 <= k < |fs|
      ensures Wf(fs[k]) && Readable(fs[k]) && Key(fs[k]) == Quoted(headers[k].0)
      ensures Stored(fs[k]) == Bracketed(headers[k].1)
    {
      assert Printable(headers[k]);
      assert (" " + headers[k].1)[1..] == headers[k].1;
    }
  }

  /** Names and values printed as `name: value` lines are recovered, the last duplicate winning: each
      name between quotes as the key, its value between quotes and brackets. */
  lemma HeadersRecovered(h: Headers, headers: seq<(string, string)>, rest: string, i: nat)
    requires i < |headers| && EndsBlock(rest) && |LinesThen(PairsOf(headers), rest)| < NPOS
    requires forall k :: 0 <= k < |headers| ==> Printable(headers[k])
    requires forall j :: i < j < |headers| ==> headers[j].0 != headers[i].0
    ensures var r := Parse(h, LinesThen(PairsOf(headers), rest));
      && !r.thrown && "\"" + headers[i].0 + "\"" in r.headers
      && r.headers["\"" + headers[i].0 + "\""] == "[\"" + headers[i].1 + "\"]"
  {
    var fs := PairsOf(headers);
    PairsFacts(headers);
    BlockIsPut(h, fs, rest);
    PutThrows(h, fs);
    forall j | i < j < |fs| ensures Key(fs[j]) != Quoted(headers[i].0) {
      KeysApart(headers[j].0, headers[i].0);
    }
    LastStored(h, fs, i);
  }

  /** Of the lines without a colon the last one is stored, under the key `null`, between quotes and
      brackets. */
  lemma BareLineStored(h: Headers, fs: seq<Field>, rest: string, i: nat)
    requires WfAll(fs) && EndsBlock(rest) && |LinesThen(fs, rest)| < NPOS
    requires forall j :: 0 <= j < |fs| ==> Readable(fs[j])
    requires i < |fs| && fs[i].Bare? && forall j :: i < j < |fs| ==> fs[j].Pair?
    ensures var headers := Parse(h, LinesThen(fs, rest)).headers;
      "null" in headers && headers["null"] == "[\"" + fs[i].text + "\"]"
  {
    BlockIsPut(h, fs, rest);
    PutThrows(h, fs);
    forall j | i < j < |fs| ensures Key(fs[j]) != Key(fs[i]) {
      KeysApart(fs[j].name, "");
    }
    LastStored(h, fs, i);
  }

  /** Keys that no printed name quotes keep what they had. */
  lemma OtherKeysKept(h: Headers, headers: seq<(string, string)>, rest: string, key: string)
    requires EndsBlock(rest) && |LinesThen(PairsOf(headers), rest)| < NPOS
    requires forall k :: 0 <= k < |headers| ==> Printable(headers[k]) && "\"" + headers[k].0 + "\"" != key
    ensures var r := Parse(h, LinesThen(PairsOf(headers), rest)).headers;
      (key in r <==> key in h) && (key in h ==> r[key] == h[key])
  {
    var fs := PairsOf(headers);
    PairsFacts(headers);
    BlockIsPut(h, fs, rest);
    PutThrows(h, fs);
    LastFieldWins(h, fs, key);
  }

  // ----- optional white space -----

  predicate IsOws(c: char) {
    c == ' ' || c == '\t'
  }

  function TrimLeft(s: string): string {
    if s != "" && IsOws(s[0]) then TrimLeft(s[1..]) else s
  }

  function TrimRight(s: string): string {
    if s != "" && IsOws(s[|s| - 1]) then TrimRight(s[..|s| - 1]) else s
  }

  /** The field value of RFC 9112: without the optional white space around it. */
  function FieldValue(raw: string): string {
    TrimRight(TrimLeft(raw))
  }

  predicate Trimmed(s: string) {
    s != "" ==> !IsOws(s[0]) && !IsOws(s[|s| - 1])
  }

  lemma {:induction false} TrimRightFacts(s: string)
    ensures |TrimRight(s)| <= |s| && TrimRight(s) == s[..|TrimRight(s)|]
    ensures TrimRight(s) != "" ==> !IsOws(TrimRight(s)[|TrimRight(s)| - 1])
    ensures s != "" && !IsOws(s[0]) ==> TrimRight(s) != ""
  {
    if s != "" && IsOws(s[|s| - 1]) {
      TrimRightFacts(s[..|s| - 1]);
    }
  }

  lemma {:induction false} TrimLeftFacts(s: string)
    ensures |TrimLeft(s)| <= |s| && (TrimLeft(s) != "" ==> !IsOws(TrimLeft(s)[0]))
  {
    if s != "" && IsOws(s[0]) {
      TrimLeftFacts(s[1..]);
    }
  }

  lemma NoSpaceIsKept(raw: string)
    requires raw != "" && !IsOws(raw[0])
    ensures raw[1..] != FieldValue(raw)
  {
    var v := FieldValue(raw);
    TrimRightFacts(raw);
    if |raw| > 1 && |v| == |raw| - 1 {
      assert IsOws(raw[|raw| - 1]);
      assert raw[1..][|raw| - 2] == raw[|raw| - 1];
      assert v[|raw| - 2] != raw[1..][|raw| - 2];
    }
  }

  lemma SkippedOneExactly(raw: string)
    requires raw != ""
    ensures raw[1..] == FieldValue(raw) <==> IsOws(raw[0]) && Trimmed(raw[1..])
  {
    if IsOws(raw[0]) {
      TrimLeftFacts(raw);
      TrimRightFacts(TrimLeft(raw));
    } else {
      NoSpaceIsKept(raw);
    }
  }

  lemma BracketedInjective(a: string, b: string)
    ensures Bracketed(a) == Bracketed(b) <==> a == b
  {
    assert Bracketed(a)[2..|Bracketed(a)| - 2] == a && Bracketed(b)[2..|Bracketed(b)| - 2] == b;
  }

  /** What SetHeaders leaves in the map for a name is the field value of its last line exactly if
      one white-space character and then no more stands behind the colon, and none at the end of
      the line. */
  lemma StoredIsFieldValueExactly(h: Headers, fs: seq<Field>, rest: string, i: nat)
    requires WfAll(fs) && EndsBlock(rest) && |LinesThen(fs, rest)| < NPOS
    requires forall j :: 0 <= j < |fs| ==> Readable(fs[j])
    requires i < |fs| && fs[i].Pair? && forall j :: i < j < |fs| ==> Key(fs[j]) != Key(fs[i])
    ensures var headers, raw := Parse(h, LinesThen(fs, rest)).headers, fs[i].raw;
      && raw != "" && "\"" + fs[i].name + "\"" in headers
      && headers["\"" + fs[i].name + "\""] == "[\"" + raw[1..] + "\"]"
      && (headers["\"" + fs[i].name + "\""] == "[\"" + FieldValue(raw) + "\"]" <==>
            IsOws(raw[0]) && Trimmed(raw[1..]))
  {
    var raw := fs[i].raw;
    assert Readable(fs[i]);
    BlockIsPut(h, fs, rest);
    PutThrows(h, fs);
    LastStored(h, fs, i);
    SkippedOneExactly(raw);
    BracketedInjective(raw[1..], FieldValue(raw));
  }

  lemma OneLineBlock(f: Field)
    requires Wf(f)
    ensures WfAll([f]) && LinesThen([f], "") == Content(f) + "\r\n"
  {
    var fs := [f];
    assert fs[1..] == [] && "\r\n" + "" == "\r\n";
  }

  lemma OneLineStored(h: Headers, f: Field)
    requires Wf(f) && Readable(f) && |Content(f) + "\r\n"| < NPOS
    ensures Parse(h, Content(f) + "\r\n") == Outcome(h[Key(f) := Stored(f)], false)
  {
    OneLineBlock(f);
    BlockIsPut(h, [f], "");
    assert [f][1..] == [] && [f][0] == f;
  }

  /** A field line with an empty value, which RFC 9112 allows, throws. */
  lemma EmptyValueThrows(h: Headers)
    ensures Parse(h, "a:\r\n").thrown && FieldValue("") == ""
  {
    var f := Pair("a", "");
    OneLineBlock(f);
    assert Content(f) + "\r\n" == "a:\r\n";
    assert !Readable([f][0]);
    ThrowsExactly(h, [f], "");
  }

  lemma ExamplePair()
    ensures Content(Pair("a", "b")) + "\r\n" == "a:b\r\n"
    ensures Key(Pair("a", "b")) == "\"a\"" && Stored(Pair("a", "b")) == "[\"\"]"
  {
    assert "b"[1..] == "";
  }

  /** Without white space behind the colon the value loses its first character. */
  lemma FirstCharacterIsLost(h: Headers)
    ensures Parse(h, "a:b\r\n") == Outcome(h["\"a\"" := "[\"\"]"], false)
    ensures FieldValue("b") == "b"
  {
    var f := Pair("a", "b");
    ExamplePair();
    assert Wf(f) && Readable(f);
    OneLineStored(h, f);
  }
}
