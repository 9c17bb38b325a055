/** The test for SSE field lines that the viewer makes before it looks for JSON frames. */
module FieldLines {
  import opened Options
  import opened Text
  import opened FrameScanner
  import JsonText

  /** What `^` with the `m` flag matches behind (ECMA-262 LineTerminator). */
  predicate IsLineEnd(c: char) {
    c == '\n' || c == '\r' || IsSeparator(c)
  }

  /** The line ends that may stand raw in a JSON string. */
  predicate IsSeparator(c: char) {
    c == '\U{2028}' || c == '\U{2029}'
  }

  predicate IsLetter(c: char) {
    'a' <= c <= 'z'
  }

  /** The name and a colon at position `i`. */
  predicate NameAt(t: string, name: string, i: int) {
    OccursAt(t, name + ":", i)
  }

  predicate FieldAt(t: string, i: int) {
    NameAt(t, "data", i) || NameAt(t, "event", i) || NameAt(t, "id", i) || NameAt(t, "retry", i)
  }

  /** `/^(data|event|id|retry):/m` */
  predicate HasFieldLine(t: string) {
    exists i | 0 <= i < |t| :: (i == 0 || IsLineEnd(t[i - 1])) && FieldAt(t, i)
  }

  /** A body with a field name and colon at its start or behind a line end is taken for SSE. */
  lemma FieldLineIsTaken(before: string, name: string, rest: string)
    requires before == "" || before[|before| - 1] in {'\n', '\r', '\U{2028}', '\U{2029}'}
    requires name in {"data", "event", "id", "retry"}
    ensures HasFieldLine(before + (name + ":") + rest)
  {
    var t, i := before + (name + ":") + rest, |before|;
    assert t[i..i + |name + ":"|] == name + ":";
    assert FieldAt(t, i) && (i == 0 || IsLineEnd(t[i - 1]));
  }

  /** And no other body is. */
  lemma TakenHasFieldLine(t: string) returns (before: string, name: string, rest: string)
    requires HasFieldLine(t)
    ensures t == before + (name + ":") + rest && name in {"data", "event", "id", "retry"}
    ensures before == "" || before[|before| - 1] in {'\n', '\r', '\U{2028}', '\U{2029}'}
  {
    var i :| 0 <= i < |t| && (i == 0 || IsLineEnd(t[i - 1])) && FieldAt(t, i);
    name := if NameAt(t, "data", i) then "data" else if NameAt(t, "event", i) then "event"
            else if NameAt(t, "id", i) then "id" else "retry";
    before, rest := CutOut(t, name + ":", i);
  }

  lemma CutOut(t: string, p: string, i: nat) returns (before: string, rest: string)
    requires OccursAt(t, p, i)
    ensures t == before + p + rest && before == t[..i]
  {
    before, rest := t[..i], t[i + |p|..];
    assert t[..i + |p|] == before + p;
  }

  /** Letters from `i` up to a colon at `j`. */
  predicate WordAt(t: string, i: int, j: int) {
    0 <= i < j < |t| && t[j] == ':' && forall k | i <= k < j :: IsLetter(t[k])
  }

  lemma WordOf(t: string, name: string, i: int)
    requires NameAt(t, name, i) && name != "" && forall k | 0 <= k < |name| :: IsLetter(name[k])
    ensures WordAt(t, i, i + |name|)
  {
    OccurrenceChar(t, name + ":", i, |name|);
    forall k | i <= k < i + |name| ensures IsLetter(t[k]) {
      OccurrenceChar(t, name + ":", i, k - i);
    }
  }

  lemma FieldIsWord(t: string, i: int) returns (j: int)
    requires FieldAt(t, i)
    ensures WordAt(t, i, j)
  {
    if NameAt(t, "data", i) {
      WordOf(t, "data", i);
      j := i + 4;
    } else if NameAt(t, "event", i) {
      WordOf(t, "event", i);
      j := i + 5;
    } else if NameAt(t, "id", i) {
      WordOf(t, "id", i);
      j := i + 2;
    } else {
      WordOf(t, "retry", i);
      j := i + 5;
    }
  }

  // ---------------------------------------------------------------------
  // What keeps a field line out.
  // ---------------------------------------------------------------------

  /** Before every word that ends in a colon there is, inside `t`, something other than a raw line break. */
  ghost predicate Settled(t: string) {
    && (t != "" ==> t[0] != ':')
    && forall i, j | WordAt(t, i, j) :: i > 0 && t[i - 1] != '\n' && t[i - 1] != '\r'
  }

  /** A separator directly before a field name and colon. */
  predicate MarkAt(t: string, i: int) {
    0 <= i < |t| && IsSeparator(t[i]) && FieldAt(t, i + 1)
  }

  predicate HoldsMark(t: string) {
    exists i | 0 <= i < |t| :: MarkAt(t, i)
  }

  /** Behind every separator something in `t` ends the word that may follow it. */
  predicate Sealed(t: string) {
    forall i | 0 <= i < |t| && IsSeparator(t[i]) :: Ended(t, i)
  }

  predicate Ended(t: string, i: nat) {
    exists k | i < k < |t| :: !IsLetter(t[k]) && t[k] != ':'
  }

  lemma MarkIn(t: string) returns (i: nat)
    requires HoldsMark(t)
    ensures MarkAt(t, i) && i < |t| && IsSeparator(t[i]) && FieldAt(t, i + 1)
  {
    i :| i < |t| && MarkAt(t, i);
  }

  /** In a settled text a field line is a mark. */
  lemma FieldLineIsMark(t: string)
    requires Settled(t)
    ensures HasFieldLine(t) <==> HoldsMark(t)
  {
    if HasFieldLine(t) {
      var i :| 0 <= i < |t| && (i == 0 || IsLineEnd(t[i - 1])) && FieldAt(t, i);
      LineIsMark(t, i);
    } else if HoldsMark(t) {
      var i := MarkIn(t);
      MarkIsLine(t, i);
    }
  }

  lemma LineIsMark(t: string, i: nat)
    requires Settled(t) && i < |t| && (i == 0 || IsLineEnd(t[i - 1])) && FieldAt(t, i)
    ensures HoldsMark(t)
  {
    var j := FieldIsWord(t, i);
    assert i > 0 && IsSeparator(t[i - 1]);
    assert MarkAt(t, i - 1);
  }

  lemma MarkIsLine(t: string, i: nat)
    requires i < |t| && IsSeparator(t[i]) && FieldAt(t, i + 1)
    ensures HasFieldLine(t)
  {
    var j := FieldIsWord(t, i + 1);
    var k := i + 1;
    assert k < |t| && IsLineEnd(t[k - 1]) && FieldAt(t, k);
  }

  // ----- Concatenation -----

  lemma NameLeft(a: string, b: string, name: string, i: nat)
    requires i + |name| < |a|
    ensures NameAt(a + b, name, i) == NameAt(a, name, i)
  {
    var p := name + ":";
    assert (a + b)[i..i + |p|] == a[i..i + |p|];
  }

  lemma NameRight(a: string, b: string, name: string, i: nat)
    requires i >= |a|
    ensures NameAt(a + b, name, i) == NameAt(b, name, i - |a|)
  {
    var p := name + ":";
    if i + |p| <= |a + b| { assert (a + b)[i..i + |p|] == b[i - |a|..i - |a| + |p|]; }
  }

  lemma FieldRight(a: string, b: string, i: nat)
    requires i >= |a|
    ensures FieldAt(a + b, i) == FieldAt(b, i - |a|)
  {
    NameRight(a, b, "data", i);
    NameRight(a, b, "event", i);
    NameRight(a, b, "id", i);
    NameRight(a, b, "retry", i);
  }

  lemma NameStays(a: string, b: string, name: string, i: nat)
    requires NameAt(a, name, i)
    ensures NameAt(a + b, name, i)
  {
    NameLeft(a, b, name, i);
  }

  lemma FieldLeft(a: string, b: string, i: nat)
    requires FieldAt(a, i)
    ensures FieldAt(a + b, i)
  {
    if NameAt(a, "data", i) {
      NameStays(a, b, "data", i);
    } else if NameAt(a, "event", i) {
      NameStays(a, b, "event", i);
    } else if NameAt(a, "id", i) {
      NameStays(a, b, "id", i);
    } else {
      NameStays(a, b, "retry", i);
    }
  }

  /** A word cannot pass what ends it. */
  lemma NameEndsBefore(t: string, name: string, i: nat, k: nat)
    requires NameAt(t, name, i) && i <= k < |t| && !IsLetter(t[k]) && t[k] != ':'
    requires forall c | c in name :: IsLetter(c)
    ensures i + |name| < k
  {
    if k <= i + |name| { OccurrenceChar(t, name + ":", i, k - i); }
  }

  lemma NameInFirst(a: string, b: string, name: string, i: nat, k: nat)
    requires NameAt(a + b, name, i) && i <= k < |a| && !IsLetter(a[k]) && a[k] != ':'
    requires forall c | c in name :: IsLetter(c)
    ensures NameAt(a, name, i)
  {
    assert (a + b)[k] == a[k];
    NameEndsBefore(a + b, name, i, k);
    NameLeft(a, b, name, i);
  }

  lemma FieldEndsBefore(a: string, b: string, i: nat, k: nat)
    requires FieldAt(a + b, i) && i <= k < |a| && !IsLetter(a[k]) && a[k] != ':'
    ensures FieldAt(a, i)
  {
    if NameAt(a + b, "data", i) {
      NameInFirst(a, b, "data", i, k);
    } else if NameAt(a + b, "event", i) {
      NameInFirst(a, b, "event", i, k);
    } else if NameAt(a + b, "id", i) {
      NameInFirst(a, b, "id", i, k);
    } else {
      NameInFirst(a, b, "retry", i, k);
    }
  }

  lemma SettledConcat(a: string, b: string)
    requires Settled(a) && Settled(b)
    ensures Settled(a + b)
  {
    var t := a + b;
    if a == "" { assert t == b; }
    forall i, j | WordAt(t, i, j) ensures i > 0 && t[i - 1] != '\n' && t[i - 1] != '\r' {
      if j < |a| {
        WordLeft(a, b, i, j);
      } else {
        WordRight(a, b, i, j);
      }
    }
  }

  lemma WordLeft(a: string, b: string, i: int, j: int)
    requires WordAt(a + b, i, j) && j < |a|
    ensures WordAt(a, i, j)
  {
    assert forall k | i <= k <= j :: (a + b)[k] == a[k];
  }

  /** A word that ends in a settled second part lies in it. */
  lemma WordRight(a: string, b: string, i: int, j: int)
    requires WordAt(a + b, i, j) && j >= |a| && Settled(b)
    ensures i > |a| && WordAt(b, i - |a|, j - |a|)
  {
    var from := if i < |a| then 0 else i - |a|;
    assert forall k | |a| <= k < |a + b| :: (a + b)[k] == b[k - |a|];
    if j > |a| {
      assert forall k | from <= k < j - |a| :: b[k] == (a + b)[k + |a|];
      assert WordAt(b, from, j - |a|);
    }
  }

  lemma SealedConcat(a: string, b: string)
    requires Sealed(a) && Sealed(b)
    ensures Sealed(a + b)
  {
    var t := a + b;
    forall i | 0 <= i < |t| && IsSeparator(t[i]) ensures Ended(t, i) {
      if i < |a| {
        assert Ended(a, i);
        var k :| i < k < |a| && !IsLetter(a[k]) && a[k] != ':';
        assert t[k] == a[k];
      } else {
        assert Ended(b, i - |a|);
        var k :| i - |a| < k < |b| && !IsLetter(b[k]) && b[k] != ':';
        assert t[k + |a|] == b[k];
      }
    }
  }

  lemma MarkHere(t: string, i: nat)
    requires i < |t| && IsSeparator(t[i]) && FieldAt(t, i + 1)
    ensures HoldsMark(t)
  {
    assert MarkAt(t, i);
  }

  lemma MarkLeft(a: string, b: string)
    requires HoldsMark(a)
    ensures HoldsMark(a + b)
  {
    var i := MarkIn(a);
    FieldLeft(a, b, i + 1);
    MarkHere(a + b, i);
  }

  lemma MarkRight(a: string, b: string)
    requires HoldsMark(b)
    ensures HoldsMark(a + b)
  {
    var i := MarkIn(b);
    FieldRight(a, b, i + 1 + |a|);
    MarkHere(a + b, i + |a|);
  }

  lemma MarkInFirst(a: string, b: string, i: nat)
    requires i < |a| && IsSeparator(a[i]) && Ended(a, i) && FieldAt(a + b, i + 1)
    ensures HoldsMark(a)
  {
    var k :| i < k < |a| && !IsLetter(a[k]) && a[k] != ':';
    FieldEndsBefore(a, b, i + 1, k);
    MarkHere(a, i);
  }

  lemma MarkInSecond(a: string, b: string, i: nat)
    requires |a| <= i < |a + b| && IsSeparator((a + b)[i]) && FieldAt(a + b, i + 1)
    ensures HoldsMark(b)
  {
    FieldRight(a, b, i + 1);
    MarkHere(b, i - |a|);
  }

  lemma MarkConcat(a: string, b: string)
    requires Sealed(a)
    ensures HoldsMark(a + b) <==> HoldsMark(a) || HoldsMark(b)
  {
    if HoldsMark(a + b) {
      var i := MarkIn(a + b);
      if i < |a| { MarkInFirst(a, b, i); } else { MarkInSecond(a, b, i); }
    } else {
      if HoldsMark(a) { MarkLeft(a, b); }
      if HoldsMark(b) { MarkRight(a, b); }
    }
  }

  /** Whether a text holds a mark, if it is closed in itself, as pieces of JSON text are. */
  ghost function Reading(t: string): Option<bool> {
    if Settled(t) && Sealed(t) then Some(HoldsMark(t)) else None
  }

  lemma PieceConcat(a: string, x: bool, b: string, y: bool)
    requires Reading(a) == Some(x) && Reading(b) == Some(y)
    ensures Reading(a + b) == Some(x || y)
  {
    SettledConcat(a, b);
    SealedConcat(a, b);
    MarkConcat(a, b);
  }

  /** Nothing of a field in it. */
  predicate Bare(t: string) {
    forall i | 0 <= i < |t| :: t[i] != ':' && !IsSeparator(t[i])
  }

  lemma BarePiece(t: string)
    requires Bare(t)
    ensures Reading(t) == Some(false)
  {
  }

  // ----- JSON texts -----

  predicate NoBreak(s: string) {
    forall i | 0 <= i < |s| :: s[i] != '\n' && s[i] != '\r'
  }

  lemma {:induction false} CharsHaveNoBreak(cs: seq<JsonText.StringChar>)
    requires JsonText.ValidChars(cs)
    ensures NoBreak(JsonText.CharsText(cs))
    decreases |cs|
  {
    if cs != [] {
      CharsHaveNoBreak(cs[1..]);
      assert NoBreak(JsonText.CharText(cs[0]));
    }
  }

  predicate MarkedString(cs: seq<JsonText.StringChar>) {
    HoldsMark(JsonText.Quoted(cs))
  }

  lemma QuotedPiece(cs: seq<JsonText.StringChar>)
    requires JsonText.ValidChars(cs)
    ensures Reading(JsonText.Quoted(cs)) == Some(MarkedString(cs))
  {
    CharsHaveNoBreak(cs);
    QuotedTextPiece(JsonText.Quoted(cs));
  }

  lemma QuotedTextPiece(t: string)
    requires |t| >= 2 && t[0] == '"' && t[|t| - 1] == '"' && NoBreak(t)
    ensures Settled(t) && Sealed(t)
  {
    forall i | 0 <= i < |t| && IsSeparator(t[i]) ensures Ended(t, i) {
      assert !IsLetter(t[|t| - 1]);
    }
  }

  /** A member name up to its colon. */
  lemma KeyPiece(name: seq<JsonText.StringChar>, mid: string)
    requires JsonText.ValidChars(name) && JsonText.AllWs(mid)
    ensures Reading(JsonText.Quoted(name) + mid + ":") == Some(MarkedString(name))
  {
    var key := JsonText.Quoted(name);
    QuotedPiece(name);
    BarePiece(mid);
    PieceConcat(key, MarkedString(name), mid, false);
    ColonPiece(key + mid, MarkedString(name));
  }

  lemma ColonPiece(t: string, marked: bool)
    requires Reading(t) == Some(marked) && t != "" && !IsLetter(t[|t| - 1])
    ensures Reading(t + ":") == Some(marked)
  {
    var u := t + ":";
    MarkConcat(t, ":");
    assert !HoldsMark(":");
    assert u[|t| - 1] == t[|t| - 1];
    forall i, j | WordAt(u, i, j) ensures i > 0 && u[i - 1] != '\n' && u[i - 1] != '\r' {
      if j < |t| { WordLeft(t, ":", i, j); }
    }
    forall i | 0 <= i < |u| && IsSeparator(u[i]) ensures Ended(u, i) {
      assert Ended(t, i);
      var k :| i < k < |t| && !IsLetter(t[k]) && t[k] != ':';
      assert u[k] == t[k];
    }
  }

  /** Some string of the value, name or value, holds a mark. */
  predicate Marked(v: JsonText.Value) {
    match v
    case Str(cs) => MarkedString(cs)
    case Array(es) => MarkedElements(es)
    case Object(ms) => MarkedMembers(ms)
    case _ => false
  }

  predicate MarkedElements(es: JsonText.Elements) {
    Marked(es.value) || (es.MoreElements? && MarkedElements(es.rest))
  }

  predicate MarkedMembers(ms: JsonText.Members) {
    MarkedString(ms.name) || Marked(ms.value) || (ms.MoreMembers? && MarkedMembers(ms.rest))
  }

  lemma {:induction false} ValuePiece(v: JsonText.Value)
    requires JsonText.Valid(v)
    ensures Reading(JsonText.Text(v)) == Some(Marked(v))
    decreases v
  {
    match v
    case Token(text) => BarePiece(text);
    case Str(cs) => QuotedPiece(cs);
    case EmptyArray(ws) => BarePiece("[" + ws + "]");
    case EmptyObject(ws) => BarePiece("{" + ws + "}");
    case Array(es) =>
      ElementsPiece(es);
      Enclosed("[", JsonText.ElementsText(es), MarkedElements(es), "]");
    case Object(ms) =>
      MembersPiece(ms);
      Enclosed("{", JsonText.MembersText(ms), MarkedMembers(ms), "}");
  }

  lemma Enclosed(before: string, t: string, marked: bool, after: string)
    requires Bare(before) && Bare(after) && Reading(t) == Some(marked)
    ensures Reading(before + t + after) == Some(marked)
  {
    BarePiece(before);
    BarePiece(after);
    PieceConcat(before, false, t, marked);
    PieceConcat(before + t, marked, after, false);
  }

  /** One piece, a comma, and more. */
  lemma Followed(one: string, x: bool, more: string, y: bool)
    requires Reading(one) == Some(x) && Reading(more) == Some(y)
    ensures Reading(one + "," + more) == Some(x || y)
  {
    BarePiece(",");
    PieceConcat(one, x, ",", false);
    PieceConcat(one + ",", x, more, y);
  }

  lemma {:induction false} ElementsPiece(es: JsonText.Elements)
    requires JsonText.ValidElements(es)
    ensures Reading(JsonText.ElementsText(es)) == Some(MarkedElements(es))
    decreases es
  {
    ValuePiece(es.value);
    Enclosed(es.before, JsonText.Text(es.value), Marked(es.value), es.after);
    if es.MoreElements? {
      ElementsPiece(es.rest);
      Followed(es.before + JsonText.Text(es.value) + es.after, Marked(es.value),
               JsonText.ElementsText(es.rest), MarkedElements(es.rest));
    }
  }

  /** A member without what follows it. */
  lemma MemberPiece(ms: JsonText.Members)
    requires JsonText.ValidMembers(ms) && Reading(JsonText.Text(ms.value)) == Some(Marked(ms.value))
    ensures Reading(ms.before + JsonText.Quoted(ms.name) + ms.mid + ":" + ms.gap + JsonText.Text(ms.value) + ms.after)
            == Some(MarkedString(ms.name) || Marked(ms.value))
  {
    var key, text := JsonText.Quoted(ms.name) + ms.mid + ":", JsonText.Text(ms.value);
    KeyPiece(ms.name, ms.mid);
    Enclosed(ms.before, key, MarkedString(ms.name), ms.gap);
    BarePiece(ms.after);
    PieceConcat(text, Marked(ms.value), ms.after, false);
    PieceConcat(ms.before + key + ms.gap, MarkedString(ms.name), text + ms.after, Marked(ms.value));
    SameMember(ms.before, JsonText.Quoted(ms.name), ms.mid, ms.gap, text, ms.after);
  }

  lemma SameMember(before: string, name: string, mid: string, gap: string, text: string, after: string)
    ensures before + (name + mid + ":") + gap + (text + after) == before + name + mid + ":" + gap + text + after
  {
  }

  lemma {:induction false} MembersPiece(ms: JsonText.Members)
    requires JsonText.ValidMembers(ms)
    ensures Reading(JsonText.MembersText(ms)) == Some(MarkedMembers(ms))
    decreases ms
  {
    ValuePiece(ms.value);
    MemberPiece(ms);
    if ms.MoreMembers? {
      MembersPiece(ms.rest);
      Followed(ms.before + JsonText.Quoted(ms.name) + ms.mid + ":" + ms.gap + JsonText.Text(ms.value) + ms.after,
               MarkedString(ms.name) || Marked(ms.value), JsonText.MembersText(ms.rest), MarkedMembers(ms.rest));
    }
  }

  // ---------------------------------------------------------------------
  // Framed streams.
  // ---------------------------------------------------------------------

  /** Whitespace before an object: no letter follows a separator in it. */
  lemma GapPiece(gap: string, text: string, marked: bool)
    requires AllSpace(gap) && Reading(text) == Some(marked) && text != "" && text[0] == '{'
    ensures Reading(gap + text) == Some(marked)
  {
    var t := gap + text;
    SpaceIsSettled(gap);
    SettledConcat(gap, text);
    GapIsSealed(gap, text);
    GapHoldsNoMark(gap, text);
  }

  lemma SpaceIsSettled(gap: string)
    requires AllSpace(gap)
    ensures Settled(gap) && !HoldsMark(gap)
  {
    forall i ensures !MarkAt(gap, i) {
      if MarkAt(gap, i) { var j := FieldIsWord(gap, i + 1); }
    }
  }

  lemma GapIsSealed(gap: string, text: string)
    requires AllSpace(gap) && Sealed(text) && text != "" && text[0] == '{'
    ensures Sealed(gap + text)
  {
    var t := gap + text;
    forall i | 0 <= i < |t| && IsSeparator(t[i]) ensures Ended(t, i) {
      if i < |gap| {
        assert t[|gap|] == '{';
      } else {
        assert Ended(text, i - |gap|);
        var k :| i - |gap| < k < |text| && !IsLetter(text[k]) && text[k] != ':';
        assert t[k + |gap|] == text[k];
      }
    }
  }

  lemma GapHoldsNoMark(gap: string, text: string)
    requires AllSpace(gap) && text != "" && text[0] == '{'
    ensures HoldsMark(gap + text) <==> HoldsMark(text)
  {
    if HoldsMark(gap + text) {
      var i := MarkIn(gap + text);
      LetterAfterMark(gap + text, i);
      assert i >= |gap|;
      MarkInSecond(gap, text, i);
    } else if HoldsMark(text) {
      MarkRight(gap, text);
    }
  }

  lemma LetterAfterMark(t: string, i: nat)
    requires FieldAt(t, i + 1)
    ensures i + 1 < |t| && IsLetter(t[i + 1])
  {
    var j := FieldIsWord(t, i + 1);
  }

  ghost predicate AnyMarked(vs: seq<JsonText.Value>) {
    exists v | v in vs :: Marked(v)
  }

  lemma AnyMarkedCons(vs: seq<JsonText.Value>)
    requires vs != []
    ensures AnyMarked(vs) <==> Marked(vs[0]) || AnyMarked(vs[1..])
  {
    assert forall v :: v in vs <==> v == vs[0] || v in vs[1..];
  }

  /** The first frame with the whitespace before it. */
  lemma FirstFramePiece(gap: string, v: JsonText.Value)
    requires AllSpace(gap) && JsonText.IsObject(v)
    ensures Reading(gap + JsonText.Text(v)) == Some(Marked(v))
  {
    ValuePiece(v);
    GapPiece(gap, JsonText.Text(v), Marked(v));
  }

  lemma {:induction false} FramedMarks(gaps: seq<string>, vs: seq<JsonText.Value>)
    requires Framed(gaps, vs)
    ensures Settled(Interleave(gaps, Texts(vs)))
    ensures HoldsMark(Interleave(gaps, Texts(vs))) <==> AnyMarked(vs)
    decreases |vs|
  {
    assert AllSpace(gaps[0]);
    if vs == [] {
      SpaceIsSettled(gaps[0]);
    } else {
      var head, rest := gaps[0] + JsonText.Text(vs[0]), Interleave(gaps[1..], Texts(vs[1..]));
      FramedTail(gaps, vs);
      FramedMarks(gaps[1..], vs[1..]);
      FirstFramePiece(gaps[0], vs[0]);
      SettledConcat(head, rest);
      MarkConcat(head, rest);
      AnyMarkedCons(vs);
    }
  }

  /**
   * A framed stream is taken for SSE exactly when some string in it holds U+2028 or U+2029 directly
   * before a field name and its colon.
   */
  lemma TakenForSseIff(gaps: seq<string>, vs: seq<JsonText.Value>)
    requires Framed(gaps, vs)
    ensures HasFieldLine(Interleave(gaps, Texts(vs))) <==> AnyMarked(vs)
  {
    FramedMarks(gaps, vs);
    FieldLineIsMark(Interleave(gaps, Texts(vs)));
  }

  /** What is settled stays so when it is cut. */
  lemma SettledPrefix(body: string, whole: string)
    requires Settled(whole) && body <= whole
    ensures Settled(body)
  {
    assert forall i | 0 <= i < |body| :: body[i] == whole[i];
    forall i, j | WordAt(body, i, j) ensures i > 0 && body[i - 1] != '\n' && body[i - 1] != '\r' {
      assert WordAt(whole, i, j);
    }
  }

  /** A framed stream, cut anywhere, is taken for SSE exactly when what is left holds a mark. */
  lemma CutTakenForSseIff(gaps: seq<string>, vs: seq<JsonText.Value>, body: string)
    requires Framed(gaps, vs) && body <= Interleave(gaps, Texts(vs))
    ensures HasFieldLine(body) <==> HoldsMark(body)
  {
    FramedMarks(gaps, vs);
    SettledPrefix(body, Interleave(gaps, Texts(vs)));
    FieldLineIsMark(body);
  }

  // ----- A frame that is taken for SSE -----

  /** A string written without escapes. */
  function Plainly(s: string): seq<JsonText.StringChar> {
    if s == "" then [] else [JsonText.Plain(s[0])] + Plainly(s[1..])
  }

  lemma {:induction false} PlainText(s: string)
    requires forall c | c in s :: JsonText.ValidChar(JsonText.Plain(c))
    ensures JsonText.CharsText(Plainly(s)) == s && JsonText.ValidChars(Plainly(s))
    decreases |s|
  {
    if s != "" {
      PlainText(s[1..]);
      assert [s[0]] + s[1..] == s && Plainly(s)[1..] == Plainly(s[1..]);
    }
  }

  const FIELD_TEXT := "\U{2028}data:"

  /** The object with the one member "x", a string that starts with U+2028 and goes on `data:`. */
  function SeparatedField(): JsonText.Value {
    JsonText.Object(JsonText.LastMember("", Plainly("x"), "", "", JsonText.Str(Plainly(FIELD_TEXT)), ""))
  }

  lemma FieldTextIsMarked()
    ensures JsonText.ValidChars(Plainly(FIELD_TEXT)) && MarkedString(Plainly(FIELD_TEXT))
  {
    PlainText(FIELD_TEXT);
    QuotedMark(JsonText.Quoted(Plainly(FIELD_TEXT)));
  }

  lemma QuotedMark(quoted: string)
    requires quoted == "\"" + FIELD_TEXT + "\""
    ensures HoldsMark(quoted)
  {
    assert quoted[1] == '\U{2028}' && quoted[2..7] == "data" + ":";
    assert NameAt(quoted, "data", 2);
    MarkHere(quoted, 1);
  }

  lemma SeparatedFieldIsFramed()
    ensures Framed(["", ""], [SeparatedField()]) && Marked(SeparatedField())
  {
    PlainText("x");
    FieldTextIsMarked();
  }

  /** It is a frame of a framed stream, and takes the SSE branch. */
  lemma SeparatorTakesSseBranch()
    ensures var gaps, vs := ["", ""], [SeparatedField()];
            Framed(gaps, vs) && HasFieldLine(Interleave(gaps, Texts(vs)))
  {
    var v := SeparatedField();
    SeparatedFieldIsFramed();
    assert v in [v];
    TakenForSseIff(["", ""], [v]);
  }
}
