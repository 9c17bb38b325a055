/** Percent-decoding as `decodeURIComponent` does it, and dot-segment removal (RFC 3986 section 5.2.4). */
module UriPath {
  import opened Options
  import opened Seqs
  import opened Text
  import Utf8

  // ---------------------------------------------------------------------
  // Percent-decoding.
  // ---------------------------------------------------------------------

  predicate StartsEscape(s: string) {
    |s| >= 3 && s[0] == '%' && IsHex(s[1]) && IsHex(s[2])
  }

  /** The bytes of the escapes at the head of `s`, at most `max` of them. */
  function Escapes(s: string, max: nat): (bytes: seq<Utf8.byte>)
    ensures |bytes| <= max && 3 * |bytes| <= |s|
  {
    if max == 0 || !StartsEscape(s) then []
    else [HexValue(s[1]) * 16 + HexValue(s[2])] + Escapes(s[3..], max - 1)
  }

  /** `decodeURIComponent(s)`, or None when it throws: every escape must belong to a well-formed character. */
  function Decode(s: string): Option<string>
    decreases |s|
  {
    if s == "" then Some("")
    else if s[0] != '%' then Prepend([s[0]], Decode(s[1..]))
    else
      var bytes := Escapes(s, 4);
      var n := Utf8.HeadLength(bytes);
      if n == 0 then None else Prepend([Utf8.Scalar(bytes)], Decode(s[3 * n..]))
  }

  function Prepend(head: string, tail: Option<string>): Option<string> {
    if tail.Some? then Some(head + tail.value) else None
  }

  lemma PrependTwice(a: string, b: string, t: Option<string>)
    ensures Prepend(a, Prepend(b, t)) == Prepend(a + b, t)
  {
    if t.Some? { assert a + (b + t.value) == a + b + t.value; }
  }

  lemma {:induction false} EscapesOfMore(s: string, t: string, max: nat)
    ensures Escapes(s, max) <= Escapes(s + t, max)
    decreases max
  {
    if max > 0 && StartsEscape(s) {
      EscapesOfMore(s[3..], t, max - 1);
      assert (s + t)[3..] == s[3..] + t;
    }
  }

  /** The characters that the head of `s` stands for: how many, and the decoded one. */
  function HeadSpan(s: string): (n: nat)
    requires s != ""
    ensures n <= |s|
  {
    if s[0] != '%' then 1 else 3 * Utf8.HeadLength(Escapes(s, 4))
  }

  function HeadChar(s: string): char
    requires s != "" && HeadSpan(s) > 0
  {
    if s[0] != '%' then s[0] else Utf8.Scalar(Escapes(s, 4))
  }

  lemma DecodeByHead(s: string)
    requires s != ""
    ensures Decode(s) == if HeadSpan(s) == 0 then None else Prepend([HeadChar(s)], Decode(s[HeadSpan(s)..]))
  {
  }

  lemma HeadOfMore(s: string, t: string)
    requires s != "" && HeadSpan(s) > 0
    ensures HeadSpan(s + t) == HeadSpan(s) && HeadChar(s + t) == HeadChar(s)
  {
    if s[0] == '%' {
      EscapesOfMore(s, t, 4);
      SameHead(Escapes(s, 4), Escapes(s + t, 4));
    }
  }

  /** Decoding a decodable text does not look at what follows it. */
  lemma {:induction false} DecodeConcat(s: string, t: string)
    requires Decode(s).Some?
    ensures Decode(s + t) == Prepend(Decode(s).value, Decode(t))
    decreases |s|
  {
    if s == "" {
      assert s + t == t;
      if Decode(t).Some? { assert "" + Decode(t).value == Decode(t).value; }
    } else {
      var n := HeadSpan(s);
      DecodeByHead(s);
      DecodeByHead(s + t);
      HeadOfMore(s, t);
      DecodeConcat(s[n..], t);
      assert (s + t)[n..] == s[n..] + t;
      PrependTwice([HeadChar(s)], Decode(s[n..]).value, Decode(t));
    }
  }

  lemma SameHead(few: seq<Utf8.byte>, bytes: seq<Utf8.byte>)
    requires few <= bytes && Utf8.HeadLength(few) > 0
    ensures Utf8.HeadLength(bytes) == Utf8.HeadLength(few) && Utf8.Scalar(bytes) == Utf8.Scalar(few)
  {
  }

  /** `s` is a percent sign and two hexadecimal digits, small or capital, for each of the bytes. */
  predicate Escaped(s: string, bytes: seq<Utf8.byte>)
    decreases |bytes|
  {
    if bytes == [] then s == ""
    else
      && |s| >= 3 && s[0] == '%' && IsHex(s[1]) && IsHex(s[2]) && 16 * HexValue(s[1]) + HexValue(s[2]) == bytes[0]
      && Escaped(s[3..], bytes[1..])
  }

  /** In `s` each character of `t` is written as itself, unless it is a percent sign, or by the escapes of its bytes. */
  predicate Spells(s: string, t: string)
    decreases |t|
  {
    if t == "" then s == ""
    else
      || (s != "" && s[0] == t[0] != '%' && Spells(s[1..], t[1..]))
      || (var n := 3 * |Utf8.EncodeChar(t[0])|;
          n <= |s| && Escaped(s[..n], Utf8.EncodeChar(t[0])) && Spells(s[n..], t[1..]))
  }

  /** Escapes are read for what they are. */
  lemma {:induction false} EscapesRead(s: string, bytes: seq<Utf8.byte>, max: nat)
    requires 3 * |bytes| <= |s| && Escaped(s[..3 * |bytes|], bytes) && |bytes| <= max
    ensures bytes <= Escapes(s, max)
    decreases |bytes|
  {
    if bytes != [] {
      assert s[..3 * |bytes|][3..] == s[3..][..3 * |bytes[1..]|];
      EscapesRead(s[3..], bytes[1..], max - 1);
    }
  }

  lemma {:induction false} EscapesAreEscaped(s: string, max: nat)
    ensures Escaped(s[..3 * |Escapes(s, max)|], Escapes(s, max))
    decreases max
  {
    if max > 0 && StartsEscape(s) {
      var rest := Escapes(s[3..], max - 1);
      EscapesAreEscaped(s[3..], max - 1);
      assert s[..3 * |Escapes(s, max)|][3..] == s[3..][..3 * |rest|];
    }
  }

  lemma {:induction false} EscapedPrefix(s: string, bytes: seq<Utf8.byte>, n: nat)
    requires Escaped(s, bytes) && n <= |bytes|
    ensures 3 * n <= |s| && Escaped(s[..3 * n], bytes[..n])
    decreases n
  {
    if n > 0 {
      EscapedPrefix(s[3..], bytes[1..], n - 1);
      assert s[..3 * n][3..] == s[3..][..3 * (n - 1)] && bytes[..n][1..] == bytes[1..][..n - 1];
    }
  }

  /** Escaped bytes of a character decode to it. */
  lemma DecodeEscaped(s: string, c: char)
    requires var n := 3 * |Utf8.EncodeChar(c)|; n <= |s| && Escaped(s[..n], Utf8.EncodeChar(c))
    ensures s != "" && s[0] == '%' && HeadSpan(s) == 3 * |Utf8.EncodeChar(c)| && HeadChar(s) == c
  {
    var bytes := Utf8.EncodeChar(c);
    EscapesRead(s, bytes, 4);
    var read := Escapes(s, 4);
    assert read == bytes + read[|bytes|..];
    Utf8.ScalarEncode(c, read[|bytes|..]);
  }

  /** A text decodes exactly to what it spells; one that spells nothing makes `decodeURIComponent` throw. */
  lemma {:induction false} DecodesWhatItSpells(s: string, t: string)
    ensures Decode(s) == Some(t) <==> Spells(s, t)
    decreases |s|, |t|
  {
    if s != "" && t != "" {
      var c, k := t[0], 3 * |Utf8.EncodeChar(t[0])|;
      DecodeByHead(s);
      if s[0] != '%' {
        DecodesWhatItSpells(s[1..], t[1..]);
        if k <= |s| && Escaped(s[..k], Utf8.EncodeChar(c)) { DecodeEscaped(s, c); }
        HeadTail(t);
      } else if k <= |s| && Escaped(s[..k], Utf8.EncodeChar(c)) {
        DecodeEscaped(s, c);
        DecodesWhatItSpells(s[k..], t[1..]);
        HeadTail(t);
      } else if HeadSpan(s) > 0 && HeadChar(s) == c {
        HeadIsEscaped(s);
      }
    } else if s != "" {
      DecodeByHead(s);
    }
  }

  lemma HeadIsEscaped(s: string)
    requires s != "" && s[0] == '%' && HeadSpan(s) > 0
    ensures var n := 3 * |Utf8.EncodeChar(HeadChar(s))|; n <= |s| && Escaped(s[..n], Utf8.EncodeChar(HeadChar(s)))
  {
    var bytes := Escapes(s, 4);
    EscapesAreEscaped(s, 4);
    Utf8.EncodeScalar(bytes);
    var n := Utf8.HeadLength(bytes);
    EscapedPrefix(s[..3 * |bytes|], bytes, n);
    assert s[..3 * |bytes|][..3 * n] == s[..3 * n];
  }

  /** Decode each part, if all can be decoded. */
  function DecodeAll(parts: seq<string>): (r: Option<seq<string>>)
    ensures r.Some? ==> |r.value| == |parts|
  {
    if parts == [] then Some([])
    else
      var head, tail := Decode(parts[0]), DecodeAll(parts[1..]);
      if head.Some? && tail.Some? then Some([head.value] + tail.value) else None
  }

  lemma {:induction false} DecodeSeparated(parts: seq<string>)
    requires DecodeAll(parts).Some?
    ensures Decode(Separated(parts, '/')) == Some(Separated(DecodeAll(parts).value, '/'))
    decreases |parts|
  {
    if parts != [] {
      var head, tail := Decode(parts[0]).value, DecodeAll(parts[1..]).value;
      DecodeSeparated(parts[1..]);
      var rest := Separated(parts[1..], '/');
      DecodeConcat(parts[0], rest);
      DecodeAfterSlash(parts[0] + rest);
      HeadTail(parts);
      SeparatedOf(parts[0], parts[1..], '/');
      SeparatedOf(head, tail, '/');
    }
  }

  lemma DecodeAfterSlash(s: string)
    ensures Decode("/" + s) == Prepend("/", Decode(s))
  {
    assert ("/" + s)[1..] == s;
  }

  // ---------------------------------------------------------------------
  // Dot segments.
  // ---------------------------------------------------------------------

  /** Length of the first segment of `input`, with its leading slash. */
  function FirstSegment(input: string): (n: nat)
    requires input != ""
    ensures 1 <= n <= |input|
  {
    1 + SlashFree(input[1..])
  }

  /** Length of the slash-free head of `s`. */
  function SlashFree(s: string): (n: nat)
    ensures n <= |s|
  {
    if s == "" || s[0] == '/' then 0 else 1 + SlashFree(s[1..])
  }

  /** The output buffer without its last segment. */
  function DropLast(out: string): (r: string) {
    if out == "" || out[|out| - 1] == '/' then (if out == "" then "" else out[..|out| - 1])
    else DropLast(out[..|out| - 1])
  }

  /** Steps 2A to 2E, in their order, on the input and output buffers. */
  function RemoveDots(input: string, out: string): string
    decreases |input|
  {
    if input == "" then out
    else if "../" <= input then RemoveDots(input[3..], out)
    else if "./" <= input then RemoveDots(input[2..], out)
    else if "/./" <= input then RemoveDots(input[2..], out)
    else if input == "/." then RemoveDots("/", out)
    else if "/../" <= input then RemoveDots(input[3..], DropLast(out))
    else if input == "/.." then RemoveDots("/", DropLast(out))
    else if input == "." || input == ".." then out
    else RemoveDots(input[FirstSegment(input)..], out + input[..FirstSegment(input)])
  }

  predicate IsDot(segment: string) {
    segment == "." || segment == ".."
  }

  predicate NoDots(segments: seq<string>) {
    forall i | 0 <= i < |segments| :: !IsDot(segments[i])
  }

  lemma {:induction false} SlashFreeIsHead(head: string, rest: string)
    requires Free(head, '/') && (rest == "" || rest[0] == '/')
    ensures SlashFree(head + rest) == |head|
    decreases |head|
  {
    if head == "" {
      assert head + rest == rest;
    } else {
      SlashFreeIsHead(head[1..], rest);
      assert (head + rest)[1..] == head[1..] + rest;
    }
  }

  /** A segment other than a dot segment is moved to the output as it is. */
  lemma MoveSegment(segment: string, rest: string, out: string)
    requires Free(segment, '/') && !IsDot(segment) && (rest == "" || rest[0] == '/')
    ensures RemoveDots("/" + segment + rest, out) == RemoveDots(rest, out + ("/" + segment))
  {
    var input := "/" + segment + rest;
    SlashFreeIsHead(segment, rest);
    DotStepsAreDots(segment, rest, input);
    SegmentParts(segment, rest, input);
    assert FirstSegment(input) == 1 + |segment|;
  }

  lemma SegmentParts(segment: string, rest: string, input: string)
    requires input == "/" + segment + rest
    ensures input[0] == '/' && input[1..] == segment + rest
    ensures input[..1 + |segment|] == "/" + segment && input[1 + |segment|..] == rest
  {
  }

  /** Only a dot segment triggers the steps that remove one. */
  lemma DotStepsAreDots(segment: string, rest: string, input: string)
    requires Free(segment, '/') && (rest == "" || rest[0] == '/') && input == "/" + segment + rest
    ensures "/./" <= input || input == "/." ==> segment == "."
    ensures "/../" <= input || input == "/.." ==> segment == ".."
  {
    assert forall i | 0 <= i < |segment| :: input[i + 1] == segment[i] != '/';
    if rest != "" { assert input[|segment| + 1] == '/'; }
    if "/./" <= input || input == "/." {
      assert input[1] == '.' && (|input| > 2 ==> input[2] == '/');
      assert |segment| == 1;
    }
    if "/../" <= input || input == "/.." {
      assert input[1] == '.' && input[2] == '.' && (|input| > 3 ==> input[3] == '/');
      assert |segment| == 2;
    }
  }

  lemma {:induction false} NothingToRemove(segments: seq<string>, out: string)
    requires AllFree(segments, '/') && NoDots(segments)
    ensures RemoveDots(Separated(segments, '/'), out) == out + Separated(segments, '/')
    decreases |segments|
  {
    if segments == [] {
      assert out + "" == out;
    } else {
      var head, tail := segments[0], segments[1..];
      var rest := Separated(tail, '/');
      MoveSegment(head, rest, out);
      TailIsPlain(segments);
      NothingToRemove(tail, out + ("/" + head));
      Associate(out, "/" + head, rest);
    }
  }

  lemma TailIsPlain(segments: seq<string>)
    requires segments != [] && AllFree(segments, '/') && NoDots(segments)
    ensures AllFree(segments[1..], '/') && NoDots(segments[1..])
  {
  }

  // ----- What the steps come to -----

  /**
   * Segments resolved one after the other, `kept` being those kept so far: one dot stays, two dots go
   * back by one, and either leaves an open end when it comes last.
   */
  function Resolved(segments: seq<string>, kept: seq<string>): seq<string>
    decreases |segments|
  {
    if segments == [] then kept
    else if !IsDot(segments[0]) then Resolved(segments[1..], kept + [segments[0]])
    else
      var back := if segments[0] == ".." && kept != [] then kept[..|kept| - 1] else kept;
      if |segments| == 1 then back + [""] else Resolved(segments[1..], back)
  }

  lemma {:induction false} SeparatedAppend(parts: seq<string>, last: string, sep: char)
    ensures Separated(parts + [last], sep) == Separated(parts, sep) + ([sep] + last)
    decreases |parts|
  {
    if parts == [] {
      assert [last][1..] == [] && [] + [last] == [last];
    } else {
      SeparatedAppend(parts[1..], last, sep);
      assert (parts + [last])[1..] == parts[1..] + [last];
      Associate([sep] + parts[0], Separated(parts[1..], sep), [sep] + last);
    }
  }

  lemma {:induction false} DropLastSegment(out: string, segment: string)
    requires Free(segment, '/')
    ensures DropLast(out + ("/" + segment)) == out
    decreases |segment|
  {
    var whole := out + ("/" + segment);
    if segment == "" {
      assert whole[..|whole| - 1] == out;
    } else {
      var init := segment[..|segment| - 1];
      DropLastSegment(out, init);
      assert whole[..|whole| - 1] == out + ("/" + init);
    }
  }

  /** The output buffer after two dots. */
  lemma GoBack(kept: seq<string>)
    requires AllFree(kept, '/')
    ensures DropLast(Separated(kept, '/')) == Separated(if kept == [] then [] else kept[..|kept| - 1], '/')
  {
    if kept != [] {
      SeparatedAppend(kept[..|kept| - 1], kept[|kept| - 1], '/');
      InitLast(kept);
      DropLastSegment(Separated(kept[..|kept| - 1], '/'), kept[|kept| - 1]);
    }
  }

  lemma DotStep(segment: string, rest: string, out: string)
    requires IsDot(segment) && rest != "" && rest[0] == '/'
    ensures RemoveDots("/" + segment + rest, out) == RemoveDots(rest, if segment == ".." then DropLast(out) else out)
  {
    var input := "/" + segment + rest;
    assert input[|segment| + 1..] == rest;
    if segment == "." {
      assert input[..3] == "/./";
    } else {
      assert input[..4] == "/../" && input[1] == '.' && input[2] == '.';
    }
  }

  lemma LastDotStep(segment: string, out: string)
    requires IsDot(segment)
    ensures RemoveDots("/" + segment, out) == (if segment == ".." then DropLast(out) else out) + "/"
  {
    var input, dot, dots := "/" + segment, "./", "../";
    RootStep(if segment == ".." then DropLast(out) else out);
    assert input[0] == '/' && dot[0] == '.' && dots[0] == '.';
    if segment == ".." {
      var here := "/./";
      assert input == "/.." && input[2] == '.' && here[2] == '/';
      assert RemoveDots(input, out) == RemoveDots("/", DropLast(out));
    } else {
      assert input == "/.";
      assert RemoveDots(input, out) == RemoveDots("/", out);
    }
  }

  lemma RootStep(out: string)
    ensures RemoveDots("/", out) == out + "/"
  {
    var root := "/";
    assert root[1..] == "" && SlashFree("") == 0 && FirstSegment(root) == 1;
    assert root[..1] == root;
  }

  /** The steps resolve the segments of a rooted path, whatever dots are in it. */
  lemma {:induction false} DotsAreResolved(segments: seq<string>, kept: seq<string>)
    requires AllFree(segments, '/') && AllFree(kept, '/')
    ensures RemoveDots(Separated(segments, '/'), Separated(kept, '/')) == Separated(Resolved(segments, kept), '/')
    decreases |segments|
  {
    if segments != [] {
      var head, tail, out := segments[0], segments[1..], Separated(kept, '/');
      var rest := Separated(tail, '/');
      assert AllFree(tail, '/') && Free(head, '/');
      if tail != [] { SeparatedCons(tail, '/'); }
      if !IsDot(head) {
        MoveSegment(head, rest, out);
        SeparatedAppend(kept, head, '/');
        DotsAreResolved(tail, kept + [head]);
      } else {
        var back := if head == ".." && kept != [] then kept[..|kept| - 1] else kept;
        GoBack(kept);
        if tail == [] {
          LastDotStep(head, out);
          SeparatedAppend(back, "", '/');
          assert "/" + head + "" == "/" + head;
        } else {
          DotStep(head, rest, out);
          DotsAreResolved(tail, back);
        }
      }
    }
  }

  lemma {:induction false} ResolvedIsPlain(segments: seq<string>, kept: seq<string>)
    requires AllFree(segments, '/') && AllFree(kept, '/') && NoDots(kept)
    ensures AllFree(Resolved(segments, kept), '/') && NoDots(Resolved(segments, kept))
    decreases |segments|
  {
    if segments != [] {
      var head, tail := segments[0], segments[1..];
      assert AllFree(tail, '/') && Free(head, '/');
      if !IsDot(head) {
        ResolvedIsPlain(tail, kept + [head]);
      } else {
        ResolvedIsPlain(tail, if head == ".." && kept != [] then kept[..|kept| - 1] else kept);
      }
    }
  }

  lemma SeparatedIsInjective(parts: seq<string>, others: seq<string>, sep: char)
    requires AllFree(parts, sep) && AllFree(others, sep) && Separated(parts, sep) == Separated(others, sep)
    ensures parts == others
  {
    if parts != [] { SeparatedCons(parts, sep); }
    if others != [] { SeparatedCons(others, sep); }
    if parts != [] && others != [] {
      SplitSeparated(parts, sep);
      SplitSeparated(others, sep);
      SameTail("", parts, others);
    }
  }

  lemma SameTail(head: string, parts: seq<string>, others: seq<string>)
    requires [head] + parts == [head] + others
    ensures parts == others
  {
    assert ([head] + parts)[1..] == parts && ([head] + others)[1..] == others;
  }

  /** Dot-segment removal leaves a rooted path as it is exactly when it has no dot segments. */
  lemma NothingToRemoveIff(segments: seq<string>)
    requires AllFree(segments, '/')
    ensures RemoveDots(Separated(segments, '/'), "") == Separated(segments, '/') <==> NoDots(segments)
  {
    if NoDots(segments) {
      NothingToRemove(segments, "");
      assert "" + Separated(segments, '/') == Separated(segments, '/');
    } else {
      DotsAreResolved(segments, []);
      ResolvedIsPlain(segments, []);
      if Separated(Resolved(segments, []), '/') == Separated(segments, '/') {
        SeparatedIsInjective(Resolved(segments, []), segments, '/');
      }
    }
  }

  /** Dots at the head of a path that is not rooted are dropped. */
  lemma LeadingDotsGo(rest: string, out: string)
    ensures RemoveDots("../" + rest, out) == RemoveDots(rest, out)
    ensures RemoveDots("./" + rest, out) == RemoveDots(rest, out)
    ensures RemoveDots("..", out) == out && RemoveDots(".", out) == out
  {
    var two, one := "../" + rest, "./" + rest;
    assert two[3..] == rest && one[2..] == rest;
    assert one[..2] == "./" && one[1] == '/' && two[1] == '.';
  }
}
