/** The bounded tee that logs a prefix of a streamed body, and the viewer that splits its note off again. */
module StreamLog {
  import opened Seqs
  import opened Text
  import opened Utf8
  import FieldLines
  import FrameScanner
  import JsonText
  import opened Options

  const MARKER := "[\U{2026} truncated"

  datatype EndState = Complete | Open | Aborted

  datatype Captured = Captured(body: string, truncated: bool, totalBytes: nat, binary: bool)

  // ---------------------------------------------------------------------
  // What the log of a stream is.
  // ---------------------------------------------------------------------

  function Min(a: nat, b: nat): nat {
    if a <= b then a else b
  }

  function EndStateText(state: EndState): string {
    match state
    case Complete => "complete"
    case Open => "stream still open"
    case Aborted => "stream aborted"
  }

  /** What follows the separator in a note. */
  function NoteTail(shown: nat, total: nat, state: EndState): string {
    ": showing first " + Decimal(shown) +
    if state.Complete? then " of " + Decimal(total) + " bytes]" else " bytes, " + EndStateText(state) + "]"
  }

  function Note(shown: nat, total: nat, state: EndState): string {
    "\n\n" + MARKER + NoteTail(shown, total, state)
  }

  /** Drops the replacement characters at the end. */
  function StripReplacements(t: string): string {
    if t != "" && t[|t| - 1] == REPLACEMENT then StripReplacements(t[..|t| - 1]) else t
  }

  /** The text logged of a stream of which `pushed` was seen. */
  function KeptText(pushed: seq<byte>, limit: nat, truncated: bool): string {
    var text := Decode(pushed[..Min(|pushed|, limit)]);
    if truncated then StripReplacements(text) else text
  }

  predicate IsTextByte(b: byte) {
    0x09 <= b <= 0x0d || 0x20 <= b
  }

  predicate LooksLikeText(bytes: seq<byte>) {
    forall i | 0 <= i < Min(|bytes|, 1024) :: IsTextByte(bytes[i])
  }

  /** Binary by its content type, or, when that is missing, by its first bytes. */
  predicate IsBinary(typeIsText: Option<bool>, bytes: seq<byte>) {
    match typeIsText
    case Some(text) => !text
    case None => !LooksLikeText(bytes)
  }

  function Placeholder(kind: string, contentType: Option<string>, total: nat, state: EndState): string {
    "[binary " + kind + ": "
    + (if state.Complete? then Decimal(total) + " bytes" else Decimal(total) + "+ bytes, " + EndStateText(state))
    + (if contentType.Some? && contentType.value != "" then ", " + contentType.value else "") + "]"
  }

  /** The placeholder of a binary body tells its bytes, all or those seen so far, and its type if there is one. */
  lemma PlaceholderTells(kind: string, contentType: Option<string>, total: nat)
    ensures Placeholder(kind, contentType, total, Complete)
            == "[binary " + kind + ": " + (Decimal(total) + " bytes") + TypeTold(contentType) + "]"
    ensures Placeholder(kind, contentType, total, Open)
            == "[binary " + kind + ": " + (Decimal(total) + "+ bytes, " + "stream still open")
               + TypeTold(contentType) + "]"
    ensures Placeholder(kind, contentType, total, Aborted)
            == "[binary " + kind + ": " + (Decimal(total) + "+ bytes, " + "stream aborted")
               + TypeTold(contentType) + "]"
  {
  }

  function TypeTold(contentType: Option<string>): string {
    if contentType == None || contentType == Some("") then "" else ", " + contentType.value
  }

  // ---------------------------------------------------------------------
  // The tee.
  // ---------------------------------------------------------------------

  function Flatten(chunks: seq<seq<byte>>): seq<byte> {
    if chunks == [] then [] else Flatten(chunks[..|chunks| - 1]) + chunks[|chunks| - 1]
  }

  /** A capture of an unencoded stream; `typeIsText` is the verdict on its content type. */
  class StreamCapture {
    var chunks: seq<seq<byte>>
    var captured: nat
    var total: nat
    const limit: nat
    const kind: string
    const contentType: Option<string>
    const typeIsText: Option<bool>
    /** Everything pushed so far. */
    ghost var pushed: seq<byte>

    ghost predicate Valid()
      reads this
    {
      && total == |pushed|
      && captured == Min(total, limit)
      && Flatten(chunks) == pushed[..captured]
    }

    constructor (limit: nat, kind: string, contentType: Option<string>, typeIsText: Option<bool>)
      ensures Valid() && pushed == [] && this.limit == limit
      ensures this.kind == kind && this.contentType == contentType && this.typeIsText == typeIsText
    {
      this.limit, this.kind, this.contentType, this.typeIsText := limit, kind, contentType, typeIsText;
      chunks, captured, total, pushed := [], 0, 0, [];
    }

    method Push(chunk: seq<byte>)
      requires Valid()
      modifies this
      ensures Valid() && pushed == old(pushed) + chunk
      ensures captured <= limit && captured <= |pushed| && (captured == limit || captured == |pushed|)
      ensures Flatten(chunks) == pushed[..captured]
      ensures old(Full()) ==> chunks == old(chunks)
    {
      ghost var before := pushed[..captured];
      total := total + |chunk|;
      pushed := pushed + chunk;
      var remaining := limit - captured;
      if remaining <= 0 {
        assert pushed[..captured] == before;
        return;
      }
      var slice := if |chunk| <= remaining then chunk else chunk[..remaining];
      chunks := chunks + [slice];
      captured := captured + |slice|;
      assert chunks[..|chunks| - 1] == old(chunks);
      assert before + slice == pushed[..captured];
    }

    predicate Full()
      requires Valid()
      reads this
      ensures Full() <==> |pushed| >= limit
    {
      captured >= limit
    }

    method Finish(state: EndState) returns (r: Captured)
      requires Valid()
      ensures r.totalBytes == |pushed|
      ensures pushed == [] ==> r == Captured("", false, 0, false)
      ensures pushed != [] ==> r.binary == IsBinary(typeIsText, pushed[..Min(|pushed|, limit)])
      ensures typeIsText == Some(true) || (typeIsText == None && Printable(pushed)) ==> !r.binary
      ensures pushed != [] && typeIsText == Some(false) ==> r.binary
      ensures r.binary ==> r.body == Placeholder(kind, contentType, |pushed|, state) && !r.truncated
      ensures pushed != [] && !r.binary ==>
                && r.truncated == (!state.Complete? || |pushed| > limit)
                && var text := KeptText(pushed, limit, r.truncated);
                   r.body == text + if r.truncated then Note(|Encode(text)|, |pushed|, state) else ""
    {
      if typeIsText == Some(true) || (typeIsText == None && Printable(pushed)) {
        PrintableIsText(typeIsText, pushed, captured);
      }
      var raw := Flatten(chunks);
      if total == 0 { return Captured("", false, 0, false); }
      var rawTruncated := !state.Complete? || total > captured;
      var maxDecoded := limit * 4;
      var binary: bool;
      if typeIsText.None? {
        var looks := Sniff(raw);
        binary := !looks;
      } else {
        binary := !typeIsText.value;
      }
      if binary {
        return Captured(Placeholder(kind, contentType, total, state), false, total, true);
      }
      var text := Decode(raw);
      var truncated := rawTruncated || |raw| >= maxDecoded;
      UnitsBound(raw);
      if Units(text) > limit {
        assert false; // an unencoded prefix never decodes to more than `limit` code units
      }
      if truncated { text := StripReplacements(text); }
      if truncated {
        var shown := |Encode(text)|;
        text := text + Note(shown, total, state);
      }
      return Captured(text, truncated, total, false);
    }
  }

  /** The first 1024 bytes are tabs, line breaks and other bytes that are not control bytes. */
  predicate Printable(bytes: seq<byte>) {
    forall i | 0 <= i < |bytes| && i < 1024 :: bytes[i] >= 0x20 || bytes[i] in {0x09, 0x0a, 0x0b, 0x0c, 0x0d}
  }

  /** A body with a text content type, or without a type and printable, is text, wherever its log is cut. */
  lemma PrintableIsText(typeIsText: Option<bool>, bytes: seq<byte>, n: nat)
    requires n <= |bytes|
    requires typeIsText == Some(true) || (typeIsText == None && Printable(bytes))
    ensures !IsBinary(typeIsText, bytes[..n])
  {
  }

  /** A content type decides; without one, a body is binary exactly when a control byte is among its first 1024. */
  lemma BinaryIff(bytes: seq<byte>)
    ensures IsBinary(None, bytes) <==>
            exists i | 0 <= i < |bytes| && i < 1024 :: bytes[i] < 0x09 || 0x0d < bytes[i] < 0x20
    ensures IsBinary(Some(false), bytes) && !IsBinary(Some(true), bytes)
  {
    if IsBinary(None, bytes) {
      var i :| 0 <= i < Min(|bytes|, 1024) && !IsTextByte(bytes[i]);
    } else {
      assert forall i | 0 <= i < Min(|bytes|, 1024) :: IsTextByte(bytes[i]);
    }
  }

  method Sniff(bytes: seq<byte>) returns (text: bool)
    ensures text == LooksLikeText(bytes)
  {
    var n := Min(|bytes|, 1024);
    for i := 0 to n
      invariant forall k | 0 <= k < i :: IsTextByte(bytes[k])
    {
      var b := bytes[i];
      if b == 0 { return false; }
      if b < 0x09 || (b > 0x0d && b < 0x20) { return false; }
    }
    return true;
  }

  // ---------------------------------------------------------------------
  // The logged text is a true prefix of the stream, mid-character cuts included.
  // ---------------------------------------------------------------------

  lemma {:induction false} StripIsPrefix(t: string)
    ensures StripReplacements(t) <= t
    ensures StripReplacements(t + [REPLACEMENT]) == StripReplacements(t)
    decreases |t|
  {
    assert (t + [REPLACEMENT])[..|t|] == t;
    if t != "" { StripIsPrefix(t[..|t| - 1]); }
  }

  /** A text that does not end in a replacement character of its own. */
  predicate EndsClean(t: string) {
    t == "" || t[|t| - 1] != '\U{FFFD}'
  }

  /** Stripping takes off the replacement characters at the end, all of them and nothing else. */
  lemma {:induction false} StripTakesReplacements(t: string) returns (dropped: string)
    ensures t == StripReplacements(t) + dropped && EndsClean(StripReplacements(t))
    ensures forall c | c in dropped :: c == '\U{FFFD}'
    decreases |t|
  {
    dropped := "";
    if t != "" && t[|t| - 1] == REPLACEMENT {
      var rest := StripTakesReplacements(t[..|t| - 1]);
      dropped := rest + [REPLACEMENT];
      InitLast(t);
      Associate(StripReplacements(t), rest, [REPLACEMENT]);
    }
  }

  /**
   * `full` is the well-formed text stream, `pushed` the part of it seen when the log is written.
   * What is logged is a prefix of the full text, made of exactly the first bytes of the stream
   * (as many as the note says), and it stops at most at the last character boundary inside the budget.
   */
  lemma KeptTextIsTruePrefix(pushed: seq<byte>, full: seq<byte>, limit: nat)
    requires WellFormed(full) && pushed <= full
    ensures var text := KeptText(pushed, limit, true);
            && text == StripReplacements(Decode(full[..Boundary(full, Min(|pushed|, limit))]))
            && text <= Decode(full)
            && |Encode(text)| <= limit && |Encode(text)| <= |pushed|
            && Encode(text) == full[..|Encode(text)|]
  {
    var k := Min(|pushed|, limit);
    var m := Boundary(full, k);
    var clean := Decode(full[..m]);
    var text := KeptText(pushed, limit, true);
    assert pushed[..k] == full[..k];
    DecodeCut(full, k);
    StripIsPrefix(clean);
    assert clean + "" == clean;
    assert text == StripReplacements(clean);
    PrefixOfPrefix(text, clean, Decode(full));
    EncodedPrefix(text, full[..m]);
    EncodedPrefix(text, full);
  }

  /** It reaches to that boundary, unless the stream itself has replacement characters there. */
  lemma KeptTextReachesBoundary(pushed: seq<byte>, full: seq<byte>, limit: nat, m: nat)
    requires WellFormed(full) && pushed <= full
    requires m == Boundary(full, if |pushed| <= limit then |pushed| else limit) && EndsClean(Decode(full[..m]))
    ensures KeptText(pushed, limit, true) == Decode(full[..m])
  {
    KeptTextIsTruePrefix(pushed, full, limit);
    var dropped := StripTakesReplacements(Decode(full[..m]));
  }

  lemma EncodedPrefix(text: string, s: seq<byte>)
    requires WellFormed(s) && text <= Decode(s)
    ensures |Encode(text)| <= |s| && Encode(text) == s[..|Encode(text)|]
  {
    EncodeDecode(s);
    EncodeOfPrefix(text, Decode(s));
  }

  lemma EncodeOfPrefix(t: string, whole: string)
    requires t <= whole
    ensures |Encode(t)| <= |Encode(whole)| && Encode(t) == Encode(whole)[..|Encode(t)|]
  {
    var rest := whole[|t|..];
    EncodeConcat(t, rest);
    assert t + rest == whole;
    FirstPart(Encode(t), Encode(rest), Encode(whole));
  }

  lemma FirstPart(a: seq<byte>, b: seq<byte>, s: seq<byte>)
    requires s == a + b
    ensures |a| <= |s| && a == s[..|a|]
  {
  }

  lemma PrefixOfPrefix(a: string, b: string, c: string)
    requires a <= b && b <= c
    ensures a <= c
  {
  }

  /** A complete stream within the budget is logged whole. */
  lemma ShortStreamIsKeptWhole(pushed: seq<byte>, limit: nat)
    requires |pushed| <= limit
    ensures KeptText(pushed, limit, false) == Decode(pushed)
    ensures WellFormed(pushed) ==> Encode(KeptText(pushed, limit, false)) == pushed
  {
    assert pushed[..|pushed|] == pushed;
    if WellFormed(pushed) { EncodeDecode(pushed); }
  }

  // ---------------------------------------------------------------------
  // The viewer.
  // ---------------------------------------------------------------------

  datatype SplitBody = SplitBody(body: string, noted: bool)

  const SEPARATOR := "\n\n" + MARKER

  function SplitTruncation(raw: string): SplitBody {
    var at := LastIndexOf(raw, SEPARATOR, |raw|);
    if at < 0 then SplitBody(raw, false) else SplitBody(raw[..at], true)
  }

  predicate OneLine(s: string) {
    forall i | 0 <= i < |s| :: s[i] != '\n'
  }

  lemma DecimalOneLine(n: nat)
    ensures OneLine(Decimal(n))
  {
    DecimalIsDigits(n);
  }

  lemma NoteTailOneLine(shown: nat, total: nat, state: EndState)
    ensures OneLine(NoteTail(shown, total, state))
  {
    DecimalOneLine(shown);
    DecimalOneLine(total);
    if state.Complete? {
      OneLineOfThree(" of ", Decimal(total), " bytes]");
      OneLineOfThree(": showing first ", Decimal(shown), " of " + Decimal(total) + " bytes]");
    } else {
      OneLineOfThree(" bytes, ", EndStateText(state), "]");
      OneLineOfThree(": showing first ", Decimal(shown), " bytes, " + EndStateText(state) + "]");
    }
  }

  lemma OneLineOfThree(a: string, b: string, c: string)
    requires OneLine(a) && OneLine(b) && OneLine(c)
    ensures OneLine(a + b + c)
  {
  }

  lemma NoteShape(shown: nat, total: nat, state: EndState)
    ensures var note := Note(shown, total, state);
            SEPARATOR <= note && forall i | 2 <= i < |note| :: note[i] != '\n'
  {
    NoteTailOneLine(shown, total, state);
    var tail := NoteTail(shown, total, state);
    assert Note(shown, total, state) == SEPARATOR + tail;
    assert forall i | 2 <= i < |SEPARATOR| :: SEPARATOR[i] != '\n';
  }

  /** What follows `opening` in `t`. */
  function Behind(t: string, opening: string): string {
    if opening <= t then t[|opening|..] else ""
  }

  lemma NumberBehind(t: string, opening: string, n: nat, rest: string)
    requires t == opening + (Decimal(n) + rest) && rest != "" && !IsDigit(rest[0])
    ensures opening <= t && Number(DigitHead(Behind(t, opening))) == n
    ensures Behind(t, opening) == DigitHead(Behind(t, opening)) + rest
  {
    NumberOfDecimal(n);
    DigitHeadOfDigits(Decimal(n), rest);
    assert Behind(t, opening) == Decimal(n) + rest;
  }

  /**
   * The note of a complete stream reads back: the number behind its opening words is that of the bytes
   * shown, and the one behind "of" that of all bytes.
   */
  lemma CompleteNoteReadsBack(shown: nat, total: nat) returns (rest: string)
    ensures var said := Behind(NoteTail(shown, total, Complete), ": showing first ");
            Number(DigitHead(said)) == shown && said == DigitHead(said) + rest
    ensures var said := Behind(rest, " of ");
            Number(DigitHead(said)) == total && said == DigitHead(said) + " bytes]"
  {
    rest := " of " + (Decimal(total) + " bytes]");
    Associate(": showing first ", Decimal(shown), rest);
    Associate(" of ", Decimal(total), " bytes]");
    NumberBehind(NoteTail(shown, total, Complete), ": showing first ", shown, rest);
    NumberBehind(rest, " of ", total, " bytes]");
  }

  /** The note of any other stream reads back as the bytes shown and the way the stream ended. */
  lemma OpenNoteReadsBack(shown: nat, total: nat)
    ensures var said := Behind(NoteTail(shown, total, Open), ": showing first ");
            Number(DigitHead(said)) == shown && said == DigitHead(said) + (" bytes, " + "stream still open" + "]")
    ensures var said := Behind(NoteTail(shown, total, Aborted), ": showing first ");
            Number(DigitHead(said)) == shown && said == DigitHead(said) + (" bytes, " + "stream aborted" + "]")
  {
    EndReadsBack(shown, total, Open);
    EndReadsBack(shown, total, Aborted);
  }

  lemma EndReadsBack(shown: nat, total: nat, state: EndState)
    requires !state.Complete?
    ensures var said := Behind(NoteTail(shown, total, state), ": showing first ");
            Number(DigitHead(said)) == shown && said == DigitHead(said) + (" bytes, " + EndStateText(state) + "]")
  {
    var rest := " bytes, " + EndStateText(state) + "]";
    Associate(": showing first ", Decimal(shown), rest);
    NumberBehind(NoteTail(shown, total, state), ": showing first ", shown, rest);
  }

  /** Splitting a noted body gives back exactly the logged text, whatever the text holds. */
  lemma SplitRecoversText(text: string, shown: nat, total: nat, state: EndState)
    ensures SplitTruncation(text + Note(shown, total, state)) == SplitBody(text, true)
  {
    var note := Note(shown, total, state);
    var raw := text + note;
    NoteShape(shown, total, state);
    assert raw[|text|..|text| + |SEPARATOR|] == note[..|SEPARATOR|] == SEPARATOR;
    assert OccursAt(raw, SEPARATOR, |text|);
    forall k | |text| < k <= |raw|
      ensures !OccursAt(raw, SEPARATOR, k)
    {
      if k + 1 < |raw| { assert raw[k + 1] == note[k + 1 - |text|] != '\n'; }
      if OccursAt(raw, SEPARATOR, k) { OccurrenceChar(raw, SEPARATOR, k, 1); }
    }
    assert raw[..|text|] == text;
  }

  /** An un-noted body comes back unchanged exactly when it does not itself hold the separator. */
  lemma SplitOfUncutBody(text: string)
    ensures SplitTruncation(text).body == text <==> forall i :: !OccursAt(text, SEPARATOR, i)
  {
    var at := LastIndexOf(text, SEPARATOR, |text|);
    if at >= 0 { assert |text[..at]| < |text|; }
  }

  /** A complete body that holds the separator is logged whole, without a note, and loses its end in the viewer. */
  lemma UncutBodyLosesItsEnd(limit: nat)
    requires |Encode("a" + SEPARATOR)| <= limit
    ensures var sent := "a" + SEPARATOR;
            && KeptText(Encode(sent), limit, false) == sent
            && SplitTruncation(sent) == SplitBody("a", true)
  {
    var sent := "a" + SEPARATOR;
    DecodeEncode(sent);
    ShortStreamIsKeptWhole(Encode(sent), limit);
    assert OccursAt(sent, SEPARATOR, 1);
    forall k | 1 < k <= |sent| ensures !OccursAt(sent, SEPARATOR, k) {
    }
    assert sent[..1] == "a";
  }

  // ---------------------------------------------------------------------
  // From the wire to the viewer.
  // ---------------------------------------------------------------------

  // ----- A framed stream never holds the separator -----

  const ELLIPSIS := '\U{2026}'

  /** Something other than a line break and a bracket comes before position `i`. */
  predicate TameAt(t: string, i: nat)
    requires i < |t|
  {
    i > 0 && (t[i - 1] != '[' || (i > 1 && t[i - 2] != '\n'))
  }

  /** Every ellipsis is preceded, inside `t`, by something other than a line break and a bracket. */
  predicate Tame(t: string) {
    forall i | 0 <= i < |t| :: t[i] == ELLIPSIS ==> TameAt(t, i)
  }

  lemma TameConcat(a: string, b: string)
    requires Tame(a) && Tame(b)
    ensures Tame(a + b)
  {
    var t := a + b;
    forall i | 0 <= i < |t| && t[i] == ELLIPSIS ensures TameAt(t, i) {
      if i < |a| {
        assert a[i] == ELLIPSIS && TameAt(a, i);
      } else {
        var j := i - |a|;
        assert b[j] == ELLIPSIS && TameAt(b, j);
        assert t[i - 1] == b[j - 1] && (j > 1 ==> t[i - 2] == b[j - 2]);
      }
    }
  }

  lemma TameHoldsNoSeparator(t: string)
    requires Tame(t)
    ensures forall i :: !OccursAt(t, SEPARATOR, i)
  {
    assert SEPARATOR[1] == '\n' && SEPARATOR[2] == '[' && SEPARATOR[3] == ELLIPSIS;
    forall i ensures !OccursAt(t, SEPARATOR, i) {
      if OccursAt(t, SEPARATOR, i) {
        OccurrenceChar(t, SEPARATOR, i, 1);
        OccurrenceChar(t, SEPARATOR, i, 2);
        OccurrenceChar(t, SEPARATOR, i, 3);
      }
    }
  }

  /** The raw text of a string holds no line break. */
  lemma {:induction false} CharsHaveNoBreak(cs: seq<JsonText.StringChar>)
    requires JsonText.ValidChars(cs)
    ensures OneLine(JsonText.CharsText(cs))
    decreases |cs|
  {
    if cs != [] {
      CharsHaveNoBreak(cs[1..]);
      assert OneLine(JsonText.CharText(cs[0]));
    }
  }

  lemma QuotedIsTame(cs: seq<JsonText.StringChar>)
    requires JsonText.ValidChars(cs)
    ensures Tame(JsonText.Quoted(cs))
  {
    CharsHaveNoBreak(cs);
    var t := JsonText.Quoted(cs);
    assert t[0] == '"' && OneLine(t);
  }

  lemma {:induction false} ValueIsTame(v: JsonText.Value)
    requires JsonText.Valid(v)
    ensures Tame(JsonText.Text(v))
    decreases v
  {
    match v
    case Token(_) =>
    case Str(cs) => QuotedIsTame(cs);
    case EmptyArray(ws) =>
    case EmptyObject(ws) =>
    case Array(es) =>
      ElementsAreTame(es);
      TameConcat("[", JsonText.ElementsText(es));
      TameConcat("[" + JsonText.ElementsText(es), "]");
    case Object(ms) =>
      MembersAreTame(ms);
      TameConcat("{", JsonText.MembersText(ms));
      TameConcat("{" + JsonText.MembersText(ms), "}");
  }

  lemma {:induction false} ElementsAreTame(es: JsonText.Elements)
    requires JsonText.ValidElements(es)
    ensures Tame(JsonText.ElementsText(es))
    decreases es
  {
    ValueIsTame(es.value);
    var one := es.before + JsonText.Text(es.value) + es.after;
    TameConcat(es.before, JsonText.Text(es.value));
    TameConcat(es.before + JsonText.Text(es.value), es.after);
    if es.MoreElements? {
      ElementsAreTame(es.rest);
      TameConcat(one, ",");
      TameConcat(one + ",", JsonText.ElementsText(es.rest));
    }
  }

  lemma {:induction false} MembersAreTame(ms: JsonText.Members)
    requires JsonText.ValidMembers(ms)
    ensures Tame(JsonText.MembersText(ms))
    decreases ms
  {
    ValueIsTame(ms.value);
    QuotedIsTame(ms.name);
    var name := ms.before + JsonText.Quoted(ms.name) + ms.mid + ":" + ms.gap;
    TameConcat(ms.before, JsonText.Quoted(ms.name));
    TameConcat(ms.before + JsonText.Quoted(ms.name), ms.mid);
    TameConcat(ms.before + JsonText.Quoted(ms.name) + ms.mid, ":");
    TameConcat(ms.before + JsonText.Quoted(ms.name) + ms.mid + ":", ms.gap);
    TameConcat(name, JsonText.Text(ms.value));
    TameConcat(name + JsonText.Text(ms.value), ms.after);
    if ms.MoreMembers? {
      MembersAreTame(ms.rest);
      var one := name + JsonText.Text(ms.value) + ms.after;
      TameConcat(one, ",");
      TameConcat(one + ",", JsonText.MembersText(ms.rest));
    }
  }

  /** The text logged of a framed stream is a prefix of the text that was sent. */
  lemma LoggedTextOfSent(sent: string, pushed: seq<byte>, limit: nat)
    requires pushed <= Encode(sent)
    ensures KeptText(pushed, limit, true) <= sent
  {
    DecodeEncode(sent);
    KeptTextIsTruePrefix(pushed, Encode(sent), limit);
  }

  lemma {:induction false} FramedIsTame(gaps: seq<string>, vs: seq<JsonText.Value>)
    requires FrameScanner.Framed(gaps, vs)
    ensures Tame(FrameScanner.Interleave(gaps, FrameScanner.Texts(vs)))
    decreases |vs|
  {
    assert Tame(gaps[0]) by { assert AllSpace(gaps[0]); }
    if vs != [] {
      FrameScanner.FramedTail(gaps, vs);
      FramedIsTame(gaps[1..], vs[1..]);
      ValueIsTame(vs[0]);
      TameConcat(gaps[0], JsonText.Text(vs[0]));
      TameConcat(gaps[0] + JsonText.Text(vs[0]), FrameScanner.Interleave(gaps[1..], FrameScanner.Texts(vs[1..])));
    }
  }

  /**
   * A complete framed stream within the budget, logged without a note, split and scanned by the
   * viewer: every frame sent comes back, and nothing else.
   */
  lemma WholeStreamComesBack(gaps: seq<string>, vs: seq<JsonText.Value>, limit: nat)
    requires FrameScanner.Framed(gaps, vs)
    requires |Encode(FrameScanner.Interleave(gaps, FrameScanner.Texts(vs)))| <= limit
    ensures var sent := FrameScanner.Interleave(gaps, FrameScanner.Texts(vs));
            var body := KeptText(Encode(sent), limit, false);
            && SplitTruncation(body) == SplitBody(sent, false)
            && FrameScanner.Run(FrameScanner.Start, sent) == FrameScanner.Start.(objects := FrameScanner.Texts(vs))
  {
    var sent := FrameScanner.Interleave(gaps, FrameScanner.Texts(vs));
    DecodeEncode(sent);
    ShortStreamIsKeptWhole(Encode(sent), limit);
    FramedIsTame(gaps, vs);
    TameHoldsNoSeparator(sent);
    FrameScanner.ScanUndoesPrinting(gaps, vs);
  }

  /**
   * A stream of JSON frames, cut by the log in any way, then split and scanned by the viewer: the
   * frames shown are the first frames sent, and the remainder is the start of the next one.
   */
  lemma LoggedFramesAreFirstFramesSent(gaps: seq<string>, vs: seq<JsonText.Value>, pushed: seq<byte>, limit: nat,
                                       state: EndState)
    requires FrameScanner.Framed(gaps, vs)
    requires pushed <= Encode(FrameScanner.Interleave(gaps, FrameScanner.Texts(vs)))
    ensures var text := KeptText(pushed, limit, true);
            var body := SplitTruncation(text + Note(|Encode(text)|, |pushed|, state)).body;
            FrameScanner.FoundFirstFrames(FrameScanner.Run(FrameScanner.Start, body), vs)
  {
    var text := KeptText(pushed, limit, true);
    LoggedTextOfSent(FrameScanner.Interleave(gaps, FrameScanner.Texts(vs)), pushed, limit);
    SplitRecoversText(text, |Encode(text)|, |pushed|, state);
    FrameScanner.CutFramedStream(gaps, vs, text);
  }

  /** `assembleStreamText`: `sse` is what the SSE branch makes of a body. */
  function AssembleStreamText(raw: string, sse: string -> string, textOf: string -> string,
                              textOfPartial: string -> string): string {
    var body := SplitTruncation(raw).body;
    if FieldLines.HasFieldLine(body) then sse(body) else FrameScanner.Assembled(body, textOf, textOfPartial)
  }

  /**
   * The viewer shows the text of every frame of a complete framed stream within the budget, in order,
   * exactly unless some string in it holds U+2028 or U+2029 directly before a field name and colon.
   */
  lemma ViewerShowsWholeStream(gaps: seq<string>, vs: seq<JsonText.Value>, limit: nat, sse: string -> string,
                               textOf: string -> string, textOfPartial: string -> string)
    requires FrameScanner.Framed(gaps, vs)
    requires |Encode(FrameScanner.Interleave(gaps, FrameScanner.Texts(vs)))| <= limit
    ensures var sent := FrameScanner.Interleave(gaps, FrameScanner.Texts(vs));
            AssembleStreamText(KeptText(Encode(sent), limit, false), sse, textOf, textOfPartial)
            == if FieldLines.AnyMarked(vs) then sse(sent) else FrameScanner.ConcatMap(textOf, FrameScanner.Texts(vs))
  {
    var texts := FrameScanner.Texts(vs);
    WholeStreamComesBack(gaps, vs, limit);
    FieldLines.TakenForSseIff(gaps, vs);
    assert FrameScanner.ConcatMap(textOf, texts) + "" == FrameScanner.ConcatMap(textOf, texts);
  }

  /**
   * Of a framed stream, cut by the log in any way, the viewer shows the text of the first frames sent,
   * and then what the cut frame yields, exactly unless what was logged holds such a mark.
   */
  lemma ViewerShowsLoggedFrames(gaps: seq<string>, vs: seq<JsonText.Value>, pushed: seq<byte>, limit: nat,
                                state: EndState, sse: string -> string,
                                textOf: string -> string, textOfPartial: string -> string)
    requires FrameScanner.Framed(gaps, vs)
    requires pushed <= Encode(FrameScanner.Interleave(gaps, FrameScanner.Texts(vs)))
    ensures var text := KeptText(pushed, limit, true);
            var cut := FrameScanner.Run(FrameScanner.Start, text);
            var n := |cut.objects|;
            && FrameScanner.FoundFirstFrames(cut, vs)
            && AssembleStreamText(text + Note(|Encode(text)|, |pushed|, state), sse, textOf, textOfPartial) ==
               if FieldLines.HoldsMark(text) then sse(text)
               else if n == 0 then ""
               else FrameScanner.ConcatMap(textOf, FrameScanner.Texts(vs[..n]))
                    + if cut.frame == "" then "" else textOfPartial(cut.frame)
  {
    var sent := FrameScanner.Interleave(gaps, FrameScanner.Texts(vs));
    var text := KeptText(pushed, limit, true);
    LoggedTextOfSent(sent, pushed, limit);
    SplitRecoversText(text, |Encode(text)|, |pushed|, state);
    FieldLines.CutTakenForSseIff(gaps, vs, text);
    FrameScanner.AssembledCut(gaps, vs, text, textOf, textOfPartial);
  }
}
