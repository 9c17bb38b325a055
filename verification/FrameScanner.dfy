/** The scanner that splits a logged stream body into its top-level JSON objects. */
module FrameScanner {
  import opened Seqs
  import opened Text
  import JsonText

  /** Automaton state after some input; `frame` is the text of the object being read. */
  datatype State = State(objects: seq<string>, depth: nat, frame: string, inString: bool, escaped: bool, stray: bool)

  const Start := State([], 0, "", false, false, false)

  function Step(st: State, c: char): State {
    var grown := st.(frame := st.frame + [c]);
    if st.inString then
      if st.escaped then grown.(escaped := false)
      else if c == '\\' then grown.(escaped := true)
      else if c == '"' then grown.(inString := false)
      else grown
    else if c == '"' then
      if st.depth > 0 then grown.(inString := true) else st.(stray := true)
    else if c == '{' then grown.(depth := st.depth + 1)
    else if c == '}' then
      if st.depth == 0 then st.(stray := true)
      else if st.depth == 1 then st.(objects := st.objects + [grown.frame], depth := 0, frame := "")
      else grown.(depth := st.depth - 1)
    else if st.depth > 0 then grown
    else if IsSpace(c) then st
    else st.(stray := true)
  }

  function Run(st: State, s: string): State {
    if s == "" then st else Step(Run(st, s[..|s| - 1]), s[|s| - 1])
  }

  /** Outside an object nothing is pending. */
  predicate Consistent(st: State) {
    && (st.depth == 0 <==> st.frame == "")
    && (st.depth == 0 ==> !st.inString)
    && (!st.inString ==> !st.escaped)
  }

  lemma {:induction false} RunConsistent(st: State, s: string)
    requires Consistent(st)
    ensures Consistent(Run(st, s))
    decreases |s|
  {
    if s != "" { RunConsistent(st, s[..|s| - 1]); }
  }

  lemma {:induction false} RunConcat(st: State, s: string, t: string)
    ensures Run(st, s + t) == Run(Run(st, s), t)
    decreases |t|
  {
    if t == "" {
      assert s + t == s;
    } else {
      RunConcat(st, s, t[..|t| - 1]);
      assert (s + t)[..|s + t| - 1] == s + t[..|t| - 1];
    }
  }

  lemma RunOne(st: State, c: char)
    ensures Run(st, [c]) == Step(st, c)
  {
    assert [c][..0] == "";
  }

  lemma RunNext(st: State, s: string, i: nat)
    requires i < |s|
    ensures Run(st, s[..i + 1]) == Step(Run(st, s[..i]), s[i])
  {
    assert s[..i + 1][..i] == s[..i];
  }

  // ---------------------------------------------------------------------
  // The routine.
  // ---------------------------------------------------------------------

  /** The object read since `start`, if one is open. */
  function OpenFrame(s: string, start: int, i: nat): string
    requires start <= i <= |s|
  {
    if start >= 0 then s[start..i] else ""
  }

  lemma OpenFrameGrows(s: string, start: int, i: nat)
    requires start <= i < |s|
    ensures start >= 0 ==> OpenFrame(s, start, i + 1) == OpenFrame(s, start, i) + [s[i]]
    ensures OpenFrame(s, i, i + 1) == "" + [s[i]]
  {
  }

  /** The step of the automaton, by what it does to the flags and to the frame. */
  lemma StepCases(st: State, c: char)
    requires st.inString ==> st.depth > 0
    ensures var next := Step(st, c);
            var closes := !st.inString && c == '}' && st.depth == 1;
            var taken := st.depth > 0 || c == '{';
            && next.objects == (if closes then st.objects + [st.frame + [c]] else st.objects)
            && next.frame == (if closes then "" else if taken then st.frame + [c] else st.frame)
  {
  }

  method ScanObjects(s: string) returns (objects: seq<string>, rest: string, stray: bool)
    ensures var fin := Run(Start, s); objects == fin.objects && rest == fin.frame && stray == fin.stray
  {
    objects := [];
    stray := false;
    var depth: nat, start: int, inString, escaped := 0, -1, false, false;
    assert s[..|s|] == s;
    var i := 0;
    while i < |s|
      invariant 0 <= i <= |s| && -1 <= start <= i
      invariant start >= 0 <==> depth > 0
      invariant inString ==> depth > 0
      invariant Run(Start, s[..i]) == State(objects, depth, OpenFrame(s, start, i), inString, escaped, stray)
    {
      var c := s[i];
      RunNext(Start, s, i);
      OpenFrameGrows(s, start, i);
      StepCases(State(objects, depth, OpenFrame(s, start, i), inString, escaped, stray), c);
      i := i + 1;
      if inString {
        if escaped { escaped := false; }
        else if c == '\\' { escaped := true; }
        else if c == '"' { inString := false; }
      } else if c == '"' {
        if depth > 0 { inString := true; } else { stray := true; }
      } else if c == '{' {
        if depth == 0 { start := i - 1; }
        depth := depth + 1;
      } else if c == '}' {
        if depth == 0 {
          stray := true;
        } else {
          depth := depth - 1;
          if depth == 0 {
            objects := objects + [s[start..i]];
            start := -1;
          }
        }
      } else if depth == 0 && !IsSpace(c) {
        stray := true;
      }
    }
    rest := if start >= 0 then s[start..] else "";
  }

  // ---------------------------------------------------------------------
  // Scanning undoes printing and gluing.
  // ---------------------------------------------------------------------

  /** Inside an object and outside its strings. */
  predicate Between(st: State) {
    st.depth > 0 && !st.inString && !st.escaped
  }

  function Grown(st: State, t: string): State {
    st.(frame := st.frame + t)
  }

  lemma GrownTwice(st: State, s: string, t: string)
    ensures Grown(Grown(st, s), t) == Grown(st, s + t)
  {
    assert st.frame + s + t == st.frame + (s + t);
  }

  /** A text that holds neither quotes nor braces is passed over inside an object. */
  lemma {:induction false} PassPlain(st: State, t: string)
    requires Between(st)
    requires forall i | 0 <= i < |t| :: t[i] != '"' && t[i] != '{' && t[i] != '}'
    ensures Run(st, t) == Grown(st, t)
    decreases |t|
  {
    if t == "" {
      assert st.frame + t == st.frame;
    } else {
      PassPlain(st, t[..|t| - 1]);
      GrownTwice(st, t[..|t| - 1], [t[|t| - 1]]);
      assert t[..|t| - 1] + [t[|t| - 1]] == t;
    }
  }

  lemma {:induction false} PassHex(st: State, t: string)
    requires st.inString && !st.escaped
    requires forall i | 0 <= i < |t| :: IsHex(t[i])
    ensures Run(st, t) == Grown(st, t)
    decreases |t|
  {
    if t == "" {
      assert st.frame + t == st.frame;
    } else {
      PassHex(st, t[..|t| - 1]);
      GrownTwice(st, t[..|t| - 1], [t[|t| - 1]]);
      assert t[..|t| - 1] + [t[|t| - 1]] == t;
    }
  }

  lemma PassChar(st: State, c: JsonText.StringChar)
    requires st.inString && !st.escaped && JsonText.ValidChar(c)
    ensures Run(st, JsonText.CharText(c)) == Grown(st, JsonText.CharText(c))
  {
    match c
    case Plain(p) =>
      RunOne(st, p);
    case Escape(e) =>
      RunConcat(st, "\\", [e]);
      RunOne(st, '\\');
      RunOne(Run(st, "\\"), e);
      GrownTwice(st, "\\", [e]);
    case UnicodeEscape(hex) =>
      RunConcat(st, "\\", "u");
      RunOne(st, '\\');
      RunOne(Run(st, "\\"), 'u');
      GrownTwice(st, "\\", "u");
      assert "\\" + "u" == "\\u";
      RunConcat(st, "\\u", hex);
      PassHex(Grown(st, "\\u"), hex);
      GrownTwice(st, "\\u", hex);
  }

  lemma {:induction false} PassChars(st: State, cs: seq<JsonText.StringChar>)
    requires st.inString && !st.escaped && JsonText.ValidChars(cs)
    ensures Run(st, JsonText.CharsText(cs)) == Grown(st, JsonText.CharsText(cs))
    decreases |cs|
  {
    if cs == [] {
      assert st.frame + "" == st.frame;
    } else {
      var head, tail := JsonText.CharText(cs[0]), JsonText.CharsText(cs[1..]);
      PassChar(st, cs[0]);
      PassChars(Grown(st, head), cs[1..]);
      RunConcat(st, head, tail);
      GrownTwice(st, head, tail);
    }
  }

  /** Running over `s` and then `t` grows the frame by both. */
  lemma PassBoth(st: State, s: string, t: string)
    requires Run(st, s) == Grown(st, s) && Run(Grown(st, s), t) == Grown(Grown(st, s), t)
    ensures Run(st, s + t) == Grown(st, s + t)
  {
    RunConcat(st, s, t);
    GrownTwice(st, s, t);
  }

  lemma PassQuoted(st: State, cs: seq<JsonText.StringChar>)
    requires Between(st) && JsonText.ValidChars(cs)
    ensures Run(st, JsonText.Quoted(cs)) == Grown(st, JsonText.Quoted(cs))
  {
    var body := JsonText.CharsText(cs);
    var entered := Grown(st, "\"").(inString := true);
    RunOne(st, '"');
    PassChars(entered, cs);
    RunConcat(st, "\"", body);
    GrownTwice(st, "\"", body);
    var read := Grown(st, "\"" + body).(inString := true);
    RunOne(read, '"');
    RunConcat(st, "\"" + body, "\"");
    GrownTwice(st, "\"" + body, "\"");
  }

  /** Every value is passed over inside an object, braces and quotes in its strings included. */
  lemma {:induction false} PassValue(st: State, v: JsonText.Value)
    requires Between(st) && JsonText.Valid(v)
    ensures Run(st, JsonText.Text(v)) == Grown(st, JsonText.Text(v))
    decreases v, 0
  {
    match v
    case Token(t) => PassPlain(st, t);
    case Str(cs) => PassQuoted(st, cs);
    case EmptyArray(ws) => PassPlain(st, "[" + ws + "]");
    case Array(es) =>
      var inner := JsonText.ElementsText(es);
      PassPlain(st, "[");
      PassElements(Grown(st, "["), es);
      PassBoth(st, "[", inner);
      PassPlain(Grown(st, "[" + inner), "]");
      PassBoth(st, "[" + inner, "]");
    case EmptyObject(ws) =>
      PassPlain(Step(st, '{'), ws);
      PassBraces(st, ws);
    case Object(ms) =>
      PassMembers(Step(st, '{'), ms);
      PassBraces(st, JsonText.MembersText(ms));
  }

  /** A braced text, up to its closing brace, once its inside is passed over one level deeper. */
  lemma RunBraced(st: State, inner: string)
    requires Run(Step(st, '{'), inner) == Grown(Step(st, '{'), inner)
    ensures Run(st, "{" + inner + "}") == Step(Grown(Step(st, '{'), inner), '}')
  {
    RunOne(st, '{');
    RunConcat(st, "{", inner);
    RunOne(Run(st, "{" + inner), '}');
    RunConcat(st, "{" + inner, "}");
  }

  lemma PassBraces(st: State, inner: string)
    requires Between(st)
    requires Run(Step(st, '{'), inner) == Grown(Step(st, '{'), inner)
    ensures Run(st, "{" + inner + "}") == Grown(st, "{" + inner + "}")
  {
    RunBraced(st, inner);
    BracesReturn(st, inner);
  }

  /** The braces lead one level down and back up. */
  lemma BracesReturn(st: State, inner: string)
    requires Between(st)
    ensures Step(Grown(Step(st, '{'), inner), '}') == Grown(st, "{" + inner + "}")
  {
    var deep := Grown(Step(st, '{'), inner);
    assert deep.depth == st.depth + 1 && !deep.inString;
    BracedFrame(st.frame, inner);
  }

  lemma BracedFrame(frame: string, inner: string)
    ensures frame + ['{'] + inner + ['}'] == frame + ("{" + inner + "}")
  {
  }

  lemma {:induction false} PassElements(st: State, es: JsonText.Elements)
    requires Between(st) && JsonText.ValidElements(es)
    ensures Run(st, JsonText.ElementsText(es)) == Grown(st, JsonText.ElementsText(es))
    decreases es, 0
  {
    var one := es.before + JsonText.Text(es.value) + es.after;
    PassPlain(st, es.before);
    PassValue(Grown(st, es.before), es.value);
    PassBoth(st, es.before, JsonText.Text(es.value));
    PassPlain(Grown(st, es.before + JsonText.Text(es.value)), es.after);
    PassBoth(st, es.before + JsonText.Text(es.value), es.after);
    if es.MoreElements? {
      PassPlain(Grown(st, one), ",");
      PassBoth(st, one, ",");
      PassElements(Grown(st, one + ","), es.rest);
      PassBoth(st, one + ",", JsonText.ElementsText(es.rest));
    }
  }

  lemma {:induction false} PassMembers(st: State, ms: JsonText.Members)
    requires Between(st) && JsonText.ValidMembers(ms)
    ensures Run(st, JsonText.MembersText(ms)) == Grown(st, JsonText.MembersText(ms))
    decreases ms, 0
  {
    var key := ms.before + JsonText.Quoted(ms.name);
    var colon := key + ms.mid + ":" + ms.gap;
    var pair := colon + JsonText.Text(ms.value);
    var one := pair + ms.after;
    PassKey(st, ms);
    PassValue(Grown(st, colon), ms.value);
    PassBoth(st, colon, JsonText.Text(ms.value));
    PassPlain(Grown(st, pair), ms.after);
    PassBoth(st, pair, ms.after);
    if ms.MoreMembers? {
      PassPlain(Grown(st, one), ",");
      PassBoth(st, one, ",");
      PassMembers(Grown(st, one + ","), ms.rest);
      PassBoth(st, one + ",", JsonText.MembersText(ms.rest));
    }
  }

  lemma PassKey(st: State, ms: JsonText.Members)
    requires Between(st) && JsonText.ValidMembers(ms)
    ensures var colon := ms.before + JsonText.Quoted(ms.name) + ms.mid + ":" + ms.gap;
            Run(st, colon) == Grown(st, colon)
  {
    var key := ms.before + JsonText.Quoted(ms.name);
    PassPlain(st, ms.before);
    PassQuoted(Grown(st, ms.before), ms.name);
    PassBoth(st, ms.before, JsonText.Quoted(ms.name));
    PassPlain(Grown(st, key), ms.mid);
    PassBoth(st, key, ms.mid);
    PassPlain(Grown(st, key + ms.mid), ":");
    PassBoth(st, key + ms.mid, ":");
    PassPlain(Grown(st, key + ms.mid + ":"), ms.gap);
    PassBoth(st, key + ms.mid + ":", ms.gap);
  }

  lemma ReadBraces(st: State, inner: string)
    requires st.depth == 0 && Consistent(st)
    requires Run(Step(st, '{'), inner) == Grown(Step(st, '{'), inner)
    ensures Run(st, "{" + inner + "}") == st.(objects := st.objects + ["{" + inner + "}"])
  {
    var deep := State(st.objects, 1, "{" + inner, false, false, st.stray);
    assert Grown(Step(st, '{'), inner) == deep by {
      assert st.frame == "" && "" + ['{'] + inner == "{" + inner;
    }
    RunBraced(st, inner);
    CloseFrame(deep);
    assert deep.frame + "}" == "{" + inner + "}";
  }

  lemma CloseFrame(st: State)
    requires st.depth == 1 && !st.inString
    ensures Step(st, '}') == st.(objects := st.objects + [st.frame + "}"], depth := 0, frame := "")
  {
  }

  /** A printed object at top level is recorded as one frame. */
  lemma ReadObject(st: State, v: JsonText.Value)
    requires st.depth == 0 && Consistent(st) && JsonText.IsObject(v)
    ensures Run(st, JsonText.Text(v)) == st.(objects := st.objects + [JsonText.Text(v)])
  {
    var entered := Step(st, '{');
    if v.EmptyObject? {
      PassPlain(entered, v.ws);
      ReadBraces(st, v.ws);
    } else {
      PassMembers(entered, v.members);
      ReadBraces(st, JsonText.MembersText(v.members));
    }
  }

  lemma {:induction false} SkipSpace(st: State, gap: string)
    requires st.depth == 0 && !st.inString && AllSpace(gap)
    ensures Run(st, gap) == st
    decreases |gap|
  {
    if gap != "" { SkipSpace(st, gap[..|gap| - 1]); }
  }

  /** Gap, text, gap, text, ..., and the last gap. */
  function Interleave(gaps: seq<string>, texts: seq<string>): string
    requires |gaps| == |texts| + 1
  {
    if texts == [] then gaps[0] else gaps[0] + texts[0] + Interleave(gaps[1..], texts[1..])
  }

  function Texts(vs: seq<JsonText.Value>): seq<string> {
    seq(|vs|, i requires 0 <= i < |vs| => JsonText.Text(vs[i]))
  }

  predicate AllSpaces(gaps: seq<string>) {
    forall i | 0 <= i < |gaps| :: AllSpace(gaps[i])
  }

  /** JSON objects glued with whitespace. */
  predicate Framed(gaps: seq<string>, vs: seq<JsonText.Value>) {
    |gaps| == |vs| + 1 && AllSpaces(gaps) && forall v | v in vs :: JsonText.IsObject(v)
  }

  lemma ReadNext(st: State, gap: string, v: JsonText.Value)
    requires st.depth == 0 && Consistent(st) && AllSpace(gap) && JsonText.IsObject(v)
    ensures Run(st, gap + JsonText.Text(v)) == st.(objects := st.objects + [JsonText.Text(v)])
  {
    RunConcat(st, gap, JsonText.Text(v));
    SkipSpace(st, gap);
    ReadObject(st, v);
  }

  lemma FramedTail(gaps: seq<string>, vs: seq<JsonText.Value>)
    requires Framed(gaps, vs) && vs != []
    ensures AllSpace(gaps[0]) && JsonText.IsObject(vs[0]) && Framed(gaps[1..], vs[1..])
    ensures Interleave(gaps, Texts(vs)) == gaps[0] + JsonText.Text(vs[0]) + Interleave(gaps[1..], Texts(vs[1..]))
  {
    assert Texts(vs)[1..] == Texts(vs[1..]);
    assert vs[0] in vs;
  }

  lemma TextsCons(objects: seq<string>, vs: seq<JsonText.Value>)
    requires vs != []
    ensures objects + [JsonText.Text(vs[0])] + Texts(vs[1..]) == objects + Texts(vs)
  {
    assert [JsonText.Text(vs[0])] + Texts(vs[1..]) == Texts(vs);
  }

  lemma {:induction false} ScanInterleaved(st: State, gaps: seq<string>, vs: seq<JsonText.Value>)
    requires st.depth == 0 && Consistent(st) && Framed(gaps, vs)
    ensures Run(st, Interleave(gaps, Texts(vs))) == st.(objects := st.objects + Texts(vs))
    decreases |vs|
  {
    if vs == [] {
      SkipSpace(st, gaps[0]);
      assert st.objects + Texts(vs) == st.objects;
    } else {
      var head, tail := gaps[0] + JsonText.Text(vs[0]), Interleave(gaps[1..], Texts(vs[1..]));
      FramedTail(gaps, vs);
      ReadNext(st, gaps[0], vs[0]);
      ScanInterleaved(Run(st, head), gaps[1..], vs[1..]);
      RunConcat(st, head, tail);
      TextsCons(st.objects, vs);
    }
  }

  /** Print any JSON objects, glue them with any whitespace or none: the scan gives them back. */
  lemma ScanUndoesPrinting(gaps: seq<string>, vs: seq<JsonText.Value>)
    requires Framed(gaps, vs)
    ensures Run(Start, Interleave(gaps, Texts(vs))) == Start.(objects := Texts(vs))
  {
    ScanInterleaved(Start, gaps, vs);
    assert Start.objects + Texts(vs) == Texts(vs);
  }

  // ---------------------------------------------------------------------
  // Every string, every cut.
  // ---------------------------------------------------------------------

  /** `later` continues `earlier`: same frames first, and the open frame is the start of what follows. */
  predicate Continues(earlier: State, later: State) {
    && earlier.objects <= later.objects
    && (earlier.stray ==> later.stray)
    && (earlier.frame != "" ==>
          if |later.objects| == |earlier.objects| then earlier.frame <= later.frame
          else earlier.frame < later.objects[|earlier.objects|])
  }

  lemma {:induction false} RunContinues(st: State, t: string)
    requires Consistent(st)
    ensures Continues(st, Run(st, t))
    decreases |t|
  {
    if t != "" {
      RunContinues(st, t[..|t| - 1]);
      RunConsistent(st, t[..|t| - 1]);
    }
  }

  /** The scan of a cut body continues to the scan of the whole, whatever the body and the cut. */
  lemma CutContinues(s: string, k: nat)
    requires k <= |s|
    ensures Continues(Run(Start, s[..k]), Run(Start, s))
  {
    TakeDrop(s, k);
    MoreContinues(s[..k], s[k..], s);
  }

  lemma MoreContinues(body: string, more: string, whole: string)
    requires whole == body + more
    ensures Continues(Run(Start, body), Run(Start, whole))
  {
    RunConsistent(Start, body);
    RunContinues(Run(Start, body), more);
    RunConcat(Start, body, more);
  }

  /** The gaps after one more character: a new one behind a finished frame, else the last one grows. */
  function NextGaps(gaps: seq<string>, st: State, c: char): (next: seq<string>)
    requires |gaps| == |st.objects| + 1
    ensures |next| == |Step(st, c).objects| + 1
  {
    if |Step(st, c).objects| > |st.objects| then gaps + [""]
    else if st.depth == 0 && !st.inString && c != '{' then gaps[|gaps| - 1 := gaps[|gaps| - 1] + [c]]
    else gaps
  }

  /** The text before each frame, and after the last one. */
  function Gaps(s: string): (gaps: seq<string>)
    ensures |gaps| == |Run(Start, s).objects| + 1
    decreases |s|
  {
    if s == "" then [""]
    else NextGaps(Gaps(s[..|s| - 1]), Run(Start, s[..|s| - 1]), s[|s| - 1])
  }

  lemma {:induction false} InterleaveGap(gaps: seq<string>, texts: seq<string>, more: string)
    requires |gaps| == |texts| + 1
    ensures Interleave(gaps[|gaps| - 1 := gaps[|gaps| - 1] + more], texts) == Interleave(gaps, texts) + more
    decreases |texts|
  {
    var longer := gaps[|gaps| - 1 := gaps[|gaps| - 1] + more];
    if texts != [] {
      InterleaveGap(gaps[1..], texts[1..], more);
      assert longer[1..] == gaps[1..][|gaps| - 2 := gaps[|gaps| - 1] + more];
    }
  }

  lemma {:induction false} InterleaveFrame(gaps: seq<string>, texts: seq<string>, text: string)
    requires |gaps| == |texts| + 1
    ensures Interleave(gaps + [""], texts + [text]) == Interleave(gaps, texts) + text
    decreases |texts|
  {
    if texts == [] {
      assert (gaps + [""])[1..] == [""] && (texts + [text])[1..] == [];
    } else {
      InterleaveFrame(gaps[1..], texts[1..], text);
      assert (gaps + [""])[1..] == gaps[1..] + [""] && (texts + [text])[1..] == texts[1..] + [text];
    }
  }

  /** What the gaps, frames and open frame say the input was. */
  function Reassembled(gaps: seq<string>, st: State): string
    requires |gaps| == |st.objects| + 1
  {
    Interleave(gaps, st.objects) + st.frame
  }

  lemma GapGrows(gaps: seq<string>, st: State, c: char)
    requires |gaps| == |st.objects| + 1 && AllSpaces(gaps) && st.frame == "" && IsSpace(c)
    ensures var next := gaps[|gaps| - 1 := gaps[|gaps| - 1] + [c]];
            AllSpaces(next) && Reassembled(next, st) == Reassembled(gaps, st) + [c]
  {
    InterleaveGap(gaps, st.objects, [c]);
  }

  lemma FrameCloses(gaps: seq<string>, st: State)
    requires |gaps| == |st.objects| + 1 && st.depth == 1 && !st.inString
    ensures Reassembled(gaps + [""], Step(st, '}')) == Reassembled(gaps, st) + "}"
  {
    CloseFrame(st);
    InterleaveFrame(gaps, st.objects, st.frame + "}");
  }

  /** The gaps are whitespace, and with the frames and the open frame they are all of `s`. */
  predicate Accounted(gaps: seq<string>, st: State, s: string) {
    |gaps| == |st.objects| + 1 && AllSpaces(gaps) && Reassembled(gaps, st) == s
  }

  lemma StepLosesNothing(gaps: seq<string>, st: State, s: string, c: char)
    requires Accounted(gaps, st, s) && Consistent(st) && !Step(st, c).stray
    ensures Accounted(NextGaps(gaps, st, c), Step(st, c), s + [c])
  {
    if st.depth == 0 && c != '{' {
      assert Step(st, c) == st;
      GapGrows(gaps, st, c);
    } else if !st.inString && c == '}' && st.depth == 1 {
      FrameCloses(gaps, st);
    } else {
      assert Step(st, c).objects == st.objects && Step(st, c).frame == st.frame + [c];
      assert NextGaps(gaps, st, c) == gaps;
    }
  }

  lemma LastStep(s: string)
    requires s != ""
    ensures var before, c := s[..|s| - 1], s[|s| - 1];
            && Run(Start, s) == Step(Run(Start, before), c)
            && Gaps(s) == NextGaps(Gaps(before), Run(Start, before), c)
  {
  }

  /** When nothing is stray, gaps of whitespace, the frames and the open frame are all of the body. */
  lemma {:induction false} NothingIsLost(s: string)
    requires !Run(Start, s).stray
    ensures Accounted(Gaps(s), Run(Start, s), s)
    ensures |Gaps(s)| == |Run(Start, s).objects| + 1 && AllSpaces(Gaps(s)) && Reassembled(Gaps(s), Run(Start, s)) == s
    decreases |s|
  {
    if s != "" {
      var before, c := s[..|s| - 1], s[|s| - 1];
      RunConsistent(Start, before);
      NothingIsLost(before);
      StepLosesNothing(Gaps(before), Run(Start, before), before, c);
      TakeDrop(s, |s| - 1);
      LastStep(s);
    }
  }

  /** The state with only the open frame read. */
  function Alone(st: State): State {
    st.(objects := [], stray := false)
  }

  predicate IsFrame(text: string) {
    Run(Start, text) == Start.(objects := [text])
  }

  /** Every frame is complete by itself, and so is what was read of the open one. */
  predicate Complete(st: State) {
    && Run(Start, st.frame) == Alone(st)
    && AllFrames(st.objects)
  }

  predicate AllFrames(objects: seq<string>) {
    forall i | 0 <= i < |objects| :: IsFrame(objects[i])
  }

  lemma OneMoreFrame(objects: seq<string>, text: string)
    requires AllFrames(objects) && IsFrame(text)
    ensures AllFrames(objects + [text])
  {
  }

  lemma ExtendFrame(st: State, c: char)
    requires Run(Start, st.frame) == Alone(st)
    ensures Run(Start, st.frame + [c]) == Step(Alone(st), c)
  {
    RunConcat(Start, st.frame, [c]);
    RunOne(Alone(st), c);
  }

  lemma ClosedFrameIsComplete(st: State)
    requires Consistent(st) && Run(Start, st.frame) == Alone(st) && st.depth == 1 && !st.inString
    ensures IsFrame(st.frame + "}")
  {
    ExtendFrame(st, '}');
    CloseFrame(Alone(st));
  }

  /** A character that closes no frame is ignored, or read into the open frame alone. */
  lemma StepInFrame(st: State, c: char)
    requires Consistent(st) && !(!st.inString && c == '}' && st.depth == 1)
    ensures Step(st, c).objects == st.objects
    ensures Alone(Step(st, c)) == if st.depth == 0 && c != '{' then Alone(st) else Step(Alone(st), c)
    ensures Step(st, c).frame == if st.depth == 0 && c != '{' then st.frame else st.frame + [c]
  {
  }

  lemma CloseKeepsComplete(st: State)
    requires Complete(st) && Consistent(st) && st.depth == 1 && !st.inString
    ensures Complete(Step(st, '}'))
  {
    ClosedFrameIsComplete(st);
    CloseFrame(st);
    OneMoreFrame(st.objects, st.frame + "}");
    assert Alone(Step(st, '}')) == Start;
  }

  lemma StepKeepsComplete(st: State, c: char)
    requires Complete(st) && Consistent(st)
    ensures Complete(Step(st, c))
  {
    if !st.inString && c == '}' && st.depth == 1 {
      CloseKeepsComplete(st);
    } else {
      var next := Step(st, c);
      StepInFrame(st, c);
      ExtendFrame(st, c);
      assert Run(Start, next.frame) == Alone(next);
    }
  }

  /** Each frame found is one complete object: scanning it alone gives it back and nothing else. */
  lemma {:induction false} FramesAreComplete(s: string)
    ensures Complete(Run(Start, s))
    decreases |s|
  {
    if s != "" {
      FramesAreComplete(s[..|s| - 1]);
      RunConsistent(Start, s[..|s| - 1]);
      StepKeepsComplete(Run(Start, s[..|s| - 1]), s[|s| - 1]);
    }
  }

  /** The scan found the first frames, nothing stray, and as `rest` a proper beginning of the next frame. */
  predicate FoundFirstFrames(st: State, vs: seq<JsonText.Value>) {
    && !st.stray
    && |st.objects| <= |vs| && st.objects == Texts(vs[..|st.objects|])
    && (st.frame != "" ==> |st.objects| < |vs| && st.frame < JsonText.Text(vs[|st.objects|]))
  }

  /**
   * A framed stream cut anywhere gives its completed frames and the start of the cut one
   * (and, by `NothingIsLost`, whitespace between them and nothing else).
   */
  lemma CutFramedStream(gaps: seq<string>, vs: seq<JsonText.Value>, body: string)
    requires Framed(gaps, vs) && body <= Interleave(gaps, Texts(vs))
    ensures FoundFirstFrames(Run(Start, body), vs)
    ensures var cut := Run(Start, body);
            var n := |cut.objects|;
            && !cut.stray && n <= |vs| && cut.objects == Texts(vs[..n])
            && (cut.frame != "" ==> n < |vs| && cut.frame < JsonText.Text(vs[n]))
  {
    var s := Interleave(gaps, Texts(vs));
    ScanUndoesPrinting(gaps, vs);
    assert s[..|body|] == body;
    CutContinues(s, |body|);
    var n := |Run(Start, body).objects|;
    assert Texts(vs)[..n] == Texts(vs[..n]);
  }

  // ---------------------------------------------------------------------
  // Assembling the readable text of a framed body.
  // ---------------------------------------------------------------------

  function ConcatMap(textOf: string -> string, frames: seq<string>): string {
    if frames == [] then ""
    else ConcatMap(textOf, frames[..|frames| - 1]) + textOf(frames[|frames| - 1])
  }

  /** The texts of two lists of frames follow each other; that of one frame is its own. */
  lemma {:induction false} TextsFollow(textOf: string -> string, frames: seq<string>, more: seq<string>, frame: string)
    ensures ConcatMap(textOf, frames + more) == ConcatMap(textOf, frames) + ConcatMap(textOf, more)
    ensures ConcatMap(textOf, [frame]) == textOf(frame) && ConcatMap(textOf, []) == ""
    decreases |more|
  {
    assert [frame][..0] == [];
    if more == [] {
      assert frames + more == frames;
    } else {
      var init := more[..|more| - 1];
      TextsFollow(textOf, frames, init, frame);
      assert (frames + more)[..|frames + more| - 1] == frames + init;
    }
  }

  function Assembled(body: string, textOf: string -> string, textOfPartial: string -> string): string {
    var fin := Run(Start, body);
    if fin.objects == [] || fin.stray then ""
    else ConcatMap(textOf, fin.objects) + if fin.frame != "" then textOfPartial(fin.frame) else ""
  }

  /** `textOf` is the text field of a parsed frame ("" if malformed), `textOfPartial` that of a cut one. */
  method AssembleFrames(body: string, textOf: string -> string, textOfPartial: string -> string) returns (text: string)
    ensures text == Assembled(body, textOf, textOfPartial)
  {
    var objects, rest, stray := ScanObjects(body);
    if |objects| == 0 || stray { return ""; }
    text := "";
    for i := 0 to |objects|
      invariant text == ConcatMap(textOf, objects[..i])
    {
      assert objects[..i + 1][..i] == objects[..i];
      text := text + textOf(objects[i]);
    }
    assert objects[..|objects|] == objects;
    if rest != "" { text := text + textOfPartial(rest); }
  }

  /** A body that is not framed, or holds anything stray, reads as nothing. */
  lemma UnframedReadsAsNothing(body: string, textOf: string -> string, textOfPartial: string -> string)
    requires Run(Start, body).stray || Run(Start, body).objects == []
    ensures Assembled(body, textOf, textOfPartial) == ""
  {
  }

  /** A cut framed body reads as its completed frames, then what the start of the cut frame holds. */
  lemma AssembledCut(gaps: seq<string>, vs: seq<JsonText.Value>, body: string,
                     textOf: string -> string, textOfPartial: string -> string)
    requires Framed(gaps, vs) && body <= Interleave(gaps, Texts(vs))
    ensures var cut := Run(Start, body);
            var n := |cut.objects|;
            && FoundFirstFrames(cut, vs)
            && Assembled(body, textOf, textOfPartial) ==
               if n == 0 then ""
               else ConcatMap(textOf, Texts(vs[..n])) + if cut.frame == "" then "" else textOfPartial(cut.frame)
  {
    CutFramedStream(gaps, vs, body);
  }
}
