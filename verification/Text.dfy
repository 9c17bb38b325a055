/** String operations of the JavaScript library that several files use. */
module Text {
  import opened Seqs

  /** The characters `\s` matches and `trim` removes (ECMA-262 WhiteSpace and LineTerminator). */
  predicate IsSpace(c: char) {
    || '\t' <= c <= '\r'
    || c == ' ' || c == '\U{A0}' || c == '\U{1680}'
    || '\U{2000}' <= c <= '\U{200A}'
    || c == '\U{2028}' || c == '\U{2029}' || c == '\U{202F}' || c == '\U{205F}' || c == '\U{3000}' || c == '\U{FEFF}'
  }

  predicate AllSpace(s: string) {
    forall i | 0 <= i < |s| :: IsSpace(s[i])
  }

  function TrimStart(s: string): string {
    if s != "" && IsSpace(s[0]) then TrimStart(s[1..]) else s
  }

  function TrimEnd(s: string): string {
    if s != "" && IsSpace(s[|s| - 1]) then TrimEnd(s[..|s| - 1]) else s
  }

  /** Trimming takes whitespace off both ends, and all of it. */
  lemma {:induction false} TrimStartSplits(s: string) returns (before: string)
    ensures s == before + TrimStart(s) && AllSpace(before) && (TrimStart(s) != "" ==> !IsSpace(TrimStart(s)[0]))
    decreases |s|
  {
    before := "";
    if s != "" && IsSpace(s[0]) {
      var rest := TrimStartSplits(s[1..]);
      before := [s[0]] + rest;
      HeadTail(s);
      Associate([s[0]], rest, TrimStart(s));
    }
  }

  lemma {:induction false} TrimEndSplits(s: string) returns (after: string)
    ensures s == TrimEnd(s) + after && AllSpace(after)
    ensures TrimEnd(s) != "" ==> !IsSpace(TrimEnd(s)[|TrimEnd(s)| - 1]) && TrimEnd(s)[0] == s[0]
    decreases |s|
  {
    after := "";
    if s != "" && IsSpace(s[|s| - 1]) {
      var rest := TrimEndSplits(s[..|s| - 1]);
      after := rest + [s[|s| - 1]];
      InitLast(s);
      Associate(TrimEnd(s), rest, [s[|s| - 1]]);
    }
  }

  predicate OccursAt(s: string, p: string, i: int) {
    0 <= i <= i + |p| <= |s| && s[i..i + |p|] == p
  }

  lemma OccurrenceChar(s: string, p: string, i: int, j: nat)
    requires OccursAt(s, p, i) && j < |p|
    ensures s[i + j] == p[j]
  {
    assert s[i..i + |p|][j] == s[i + j];
  }

  /** `s.indexOf(p)`, searching from `from`: the first occurrence, or -1. */
  function IndexOf(s: string, p: string, from: nat): (i: int)
    ensures i >= 0 ==> from <= i && OccursAt(s, p, i)
    ensures forall k | from <= k && (i < 0 || k < i) :: !OccursAt(s, p, k)
    decreases |s| - from
  {
    if from > |s| then -1
    else if OccursAt(s, p, from) then from
    else IndexOf(s, p, from + 1)
  }

  /** `s.lastIndexOf(p)`, searching down from `from`: the last occurrence, or -1. */
  function LastIndexOf(s: string, p: string, from: nat): (i: int)
    ensures i >= 0 ==> i <= from && OccursAt(s, p, i)
    ensures forall k | i < k <= from :: !OccursAt(s, p, k)
  {
    if OccursAt(s, p, from) then from
    else if from == 0 then -1
    else LastIndexOf(s, p, from - 1)
  }

  /** `s.split(sep)`. */
  function Split(s: string, sep: char): (parts: seq<string>)
    ensures parts != []
  {
    if s == "" then [""]
    else
      var rest := Split(s[1..], sep);
      if s[0] == sep then [""] + rest else [[s[0]] + rest[0]] + rest[1..]
  }

  /** Each part after a separator. */
  function Separated(parts: seq<string>, sep: char): string {
    if parts == [] then "" else [sep] + parts[0] + Separated(parts[1..], sep)
  }

  predicate Free(s: string, c: char) {
    forall i | 0 <= i < |s| :: s[i] != c
  }

  predicate AllFree(parts: seq<string>, c: char) {
    forall i | 0 <= i < |parts| :: Free(parts[i], c)
  }

  lemma {:induction false} SplitIsFree(s: string, sep: char)
    ensures AllFree(Split(s, sep), sep)
    decreases |s|
  {
    if s != "" { SplitIsFree(s[1..], sep); }
  }

  lemma SeparatedCons(parts: seq<string>, sep: char)
    requires parts != []
    ensures Separated(parts, sep)[0] == sep
    ensures Separated(parts, sep)[1..] == parts[0] + Separated(parts[1..], sep)
  {
    assert Separated(parts, sep) == [sep] + (parts[0] + Separated(parts[1..], sep));
  }

  lemma SeparatedOf(head: string, tail: seq<string>, sep: char)
    ensures Separated([head] + tail, sep) == [sep] + (head + Separated(tail, sep))
  {
    assert ([head] + tail)[1..] == tail;
  }

  lemma SeparatedAfterSep(rest: seq<string>, tail: string, sep: char)
    requires Separated(rest, sep) == [sep] + tail
    ensures Separated([""] + rest, sep) == [sep] + ([sep] + tail)
  {
    SeparatedOf("", rest, sep);
    assert "" + ([sep] + tail) == [sep] + tail;
  }

  lemma SeparatedAfterChar(c: char, rest: seq<string>, tail: string, sep: char)
    requires rest != [] && Separated(rest, sep) == [sep] + tail
    ensures Separated([[c] + rest[0]] + rest[1..], sep) == [sep] + ([c] + tail)
  {
    var more := Separated(rest[1..], sep);
    SeparatedOf([c] + rest[0], rest[1..], sep);
    SeparatedCons(rest, sep);
    TailAfterSep(sep, tail);
    Associate([c], rest[0], more);
  }

  lemma TailAfterSep(sep: char, tail: string)
    ensures ([sep] + tail)[1..] == tail
  {
  }

  lemma {:induction false} SeparatedSplit(s: string, sep: char)
    ensures Separated(Split(s, sep), sep) == [sep] + s
    decreases |s|
  {
    if s == "" {
      SeparatedOf("", [], sep);
      assert [""] + [] == [""];
    } else {
      var rest := Split(s[1..], sep);
      SeparatedSplit(s[1..], sep);
      HeadTail(s);
      if s[0] == sep {
        SeparatedAfterSep(rest, s[1..], sep);
      } else {
        SeparatedAfterChar(s[0], rest, s[1..], sep);
      }
    }
  }

  lemma {:induction false} SplitHead(head: string, rest: string, sep: char)
    requires Free(head, sep)
    ensures Split(head + [sep] + rest, sep) == [head] + Split(rest, sep)
    ensures Split(head, sep) == [head]
    decreases |head|
  {
    var s := head + [sep] + rest;
    if head == "" {
      assert s[1..] == rest;
    } else {
      SplitHead(head[1..], rest, sep);
      assert s[1..] == head[1..] + [sep] + rest;
      assert head == [head[0]] + head[1..];
    }
  }

  lemma {:induction false} SplitAfterFirstSeparator(parts: seq<string>, sep: char)
    requires parts != [] && AllFree(parts, sep)
    ensures Separated(parts, sep) != "" && Split(Separated(parts, sep)[1..], sep) == parts
    decreases |parts|
  {
    var head, tail := parts[0], parts[1..];
    SeparatedCons(parts, sep);
    if tail == [] {
      SplitHead(head, "", sep);
      assert head + "" == head;
    } else {
      var after := Separated(tail, sep);
      SplitAfterFirstSeparator(tail, sep);
      SeparatedCons(tail, sep);
      SplitHead(head, after[1..], sep);
      HeadTail(after);
      Associate(head, [sep], after[1..]);
    }
    HeadTail(parts);
  }

  lemma SplitSeparated(parts: seq<string>, sep: char)
    requires parts != [] && AllFree(parts, sep)
    ensures Split(Separated(parts, sep), sep) == [""] + parts
  {
    SeparatedCons(parts, sep);
    SplitAfterFirstSeparator(parts, sep);
  }

  // ---------------------------------------------------------------------
  // Numbers.
  // ---------------------------------------------------------------------

  predicate IsDigit(c: char) {
    '0' <= c <= '9'
  }

  predicate IsHex(c: char) {
    IsDigit(c) || 'a' <= c <= 'f' || 'A' <= c <= 'F'
  }

  function HexValue(c: char): (v: int)
    requires IsHex(c)
    ensures 0 <= v < 16
  {
    if c <= '9' then c as int - '0' as int
    else if c <= 'F' then c as int - 'A' as int + 10
    else c as int - 'a' as int + 10
  }

  function DigitValue(c: char): (d: nat)
    requires IsDigit(c)
    ensures d < 10
  {
    c as int - '0' as int
  }

  function DigitChar(d: nat): (c: char)
    requires d < 10
    ensures IsDigit(c) && DigitValue(c) == d
  {
    ('0' as int + d) as char
  }

  predicate AllDigits(s: string) {
    forall i | 0 <= i < |s| :: IsDigit(s[i])
  }

  function Decimal(n: nat): (s: string)
    ensures s != ""
  {
    if n < 10 then [DigitChar(n)] else Decimal(n / 10) + [DigitChar(n % 10)]
  }

  lemma {:induction false} DecimalIsDigits(n: nat)
    ensures AllDigits(Decimal(n))
  {
    if n >= 10 { DecimalIsDigits(n / 10); }
  }

  function Number(digits: string): nat
    requires AllDigits(digits)
  {
    if digits == "" then 0 else 10 * Number(digits[..|digits| - 1]) + DigitValue(digits[|digits| - 1])
  }

  lemma {:induction false} NumberOfDecimal(n: nat)
    ensures AllDigits(Decimal(n)) && Number(Decimal(n)) == n
  {
    DecimalIsDigits(n);
    if n >= 10 {
      NumberOfDecimal(n / 10);
      assert Decimal(n)[..|Decimal(n)| - 1] == Decimal(n / 10);
    } else {
      assert Decimal(n)[..0] == "";
    }
  }

  /** The digits at the head of a text. */
  function DigitHead(s: string): (d: string)
    ensures AllDigits(d) && d <= s
  {
    if s == "" || !IsDigit(s[0]) then "" else [s[0]] + DigitHead(s[1..])
  }

  lemma {:induction false} DigitHeadOfDigits(digits: string, rest: string)
    requires AllDigits(digits) && (rest == "" || !IsDigit(rest[0]))
    ensures DigitHead(digits + rest) == digits
    decreases |digits|
  {
    if digits == "" {
      assert digits + rest == rest;
    } else {
      DigitHeadOfDigits(digits[1..], rest);
      assert (digits + rest)[1..] == digits[1..] + rest;
      HeadTail(digits);
    }
  }
}
