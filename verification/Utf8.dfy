/** UTF-8 (RFC 3629): strict well-formedness, decoding with replacement, and encoding. */
module Utf8 {
  import opened Seqs

  type byte = b: int | 0 <= b < 256

  const REPLACEMENT := '\U{FFFD}'

  predicate Continuation(b: byte) {
    0x80 <= b < 0xC0
  }

  /** The first two bytes of a three-byte sequence (section 4). */
  predicate Lead3(b0: byte, b1: byte) {
    || (b0 == 0xE0 && 0xA0 <= b1 < 0xC0)
    || (b0 == 0xED && 0x80 <= b1 < 0xA0)
    || (0xE1 <= b0 <= 0xEF && b0 != 0xED && Continuation(b1))
  }

  /** The first two bytes of a four-byte sequence (section 4). */
  predicate Lead4(b0: byte, b1: byte) {
    || (b0 == 0xF0 && 0x90 <= b1 < 0xC0)
    || (b0 == 0xF4 && 0x80 <= b1 < 0x90)
    || (0xF1 <= b0 <= 0xF3 && Continuation(b1))
  }

  /** Length of the well-formed character at the head of `s`, or 0 if there is none. */
  function HeadLength(s: seq<byte>): (n: nat)
    ensures n <= 4 && n <= |s|
  {
    if |s| >= 1 && s[0] < 0x80 then 1
    else if |s| >= 2 && 0xC2 <= s[0] < 0xE0 && Continuation(s[1]) then 2
    else if |s| >= 3 && Lead3(s[0], s[1]) && Continuation(s[2]) then 3
    else if |s| >= 4 && Lead4(s[0], s[1]) && Continuation(s[2]) && Continuation(s[3]) then 4
    else 0
  }

  /** Six more bits. */
  function Shift6(v: int, b: byte): int {
    v * 64 + (b - 0x80)
  }

  function Scalar(s: seq<byte>): (c: char)
    requires HeadLength(s) > 0
  {
    var n, b0: int := HeadLength(s), s[0];
    if n == 1 then b0 as char
    else if n == 2 then Shift6(b0 - 0xC0, s[1]) as char
    else if n == 3 then Shift6(Shift6(b0 - 0xE0, s[1]), s[2]) as char
    else Shift6(Shift6(Shift6(b0 - 0xF0, s[1]), s[2]), s[3]) as char
  }

  /** Bytes that one replacement character stands for: the longest start of a character, at least one. */
  function BadLength(s: seq<byte>): (n: nat)
    requires s != [] && HeadLength(s) == 0
    ensures 1 <= n <= |s|
  {
    if |s| >= 2 && Lead3(s[0], s[1]) then 2
    else if |s| >= 3 && Lead4(s[0], s[1]) && Continuation(s[2]) then 3
    else if |s| >= 2 && Lead4(s[0], s[1]) then 2
    else 1
  }

  function Decode(s: seq<byte>): string {
    if s == [] then ""
    else if HeadLength(s) > 0 then [Scalar(s)] + Decode(s[HeadLength(s)..])
    else [REPLACEMENT] + Decode(s[BadLength(s)..])
  }

  predicate WellFormed(s: seq<byte>) {
    s == [] || (HeadLength(s) > 0 && WellFormed(s[HeadLength(s)..]))
  }

  function EncodeChar(c: char): (s: seq<byte>)
    ensures 1 <= |s| <= 4
  {
    var v := c as int;
    if v < 0x80 then [v]
    else if v < 0x800 then [0xC0 + v / 64, 0x80 + v % 64]
    else if v < 0x10000 then [0xE0 + v / 64 / 64, 0x80 + v / 64 % 64, 0x80 + v % 64]
    else [0xF0 + v / 64 / 64 / 64, 0x80 + v / 64 / 64 % 64, 0x80 + v / 64 % 64, 0x80 + v % 64]
  }

  function Encode(t: string): seq<byte> {
    if t == "" then [] else EncodeChar(t[0]) + Encode(t[1..])
  }

  /** UTF-16 code units, the length JavaScript reports. */
  function Units(t: string): nat {
    if t == "" then 0 else (if t[0] as int >= 0x10000 then 2 else 1) + Units(t[1..])
  }

  // ---------------------------------------------------------------------
  // One character.
  // ---------------------------------------------------------------------

  lemma Unshift6(v: nat, b: byte)
    requires Continuation(b)
    ensures Shift6(v, b) / 64 == v && 0x80 + Shift6(v, b) % 64 == b
  {
  }

  lemma EncodeScalar(s: seq<byte>)
    requires HeadLength(s) > 0
    ensures EncodeChar(Scalar(s)) == s[..HeadLength(s)]
  {
    var n, b0: int := HeadLength(s), s[0];
    if n == 2 {
      Unshift6(b0 - 0xC0, s[1]);
    } else if n == 3 {
      var v1 := Shift6(b0 - 0xE0, s[1]);
      Unshift6(b0 - 0xE0, s[1]);
      Unshift6(v1, s[2]);
      assert 0x800 <= Shift6(v1, s[2]) < 0x10000;
    } else if n == 4 {
      var v1 := Shift6(b0 - 0xF0, s[1]);
      var v2 := Shift6(v1, s[2]);
      Unshift6(b0 - 0xF0, s[1]);
      Unshift6(v1, s[2]);
      Unshift6(v2, s[3]);
      assert 0x10000 <= Shift6(v2, s[3]);
    }
  }

  lemma ScalarEncode(c: char, rest: seq<byte>)
    ensures HeadLength(EncodeChar(c) + rest) == |EncodeChar(c)|
    ensures Scalar(EncodeChar(c) + rest) == c
  {
    var v := c as int;
    var s := EncodeChar(c) + rest;
    if 0x800 <= v < 0x10000 {
      ScalarEncode3(v, s);
    } else if v >= 0x10000 {
      ScalarEncode4(v, s);
    }
  }

  lemma ScalarEncode3(v: int, s: seq<byte>)
    requires 0x800 <= v < 0x10000 && !(0xD800 <= v < 0xE000)
    requires |s| >= 3 && s[0] == 0xE0 + v / 64 / 64 && s[1] == 0x80 + v / 64 % 64 && s[2] == 0x80 + v % 64
    ensures HeadLength(s) == 3 && Scalar(s) as int == v
  {
    var b0: int := s[0];
    assert Shift6(b0 - 0xE0, s[1]) == v / 64;
    assert Lead3(s[0], s[1]);
  }

  lemma ScalarEncode4(v: int, s: seq<byte>)
    requires 0x10000 <= v < 0x110000
    requires |s| >= 4 && s[0] == 0xF0 + v / 64 / 64 / 64 && s[1] == 0x80 + v / 64 / 64 % 64
    requires s[2] == 0x80 + v / 64 % 64 && s[3] == 0x80 + v % 64
    ensures HeadLength(s) == 4 && Scalar(s) as int == v
  {
    var b0: int := s[0];
    var v1 := Shift6(b0 - 0xF0, s[1]);
    assert v1 == v / 64 / 64;
    assert Shift6(v1, s[2]) == v / 64;
    assert Lead4(s[0], s[1]);
  }

  /** A character is recognised by its own bytes, whatever follows. */
  lemma HeadIsLocal(s: seq<byte>, k: nat)
    requires HeadLength(s) > 0 && HeadLength(s) <= k <= |s|
    ensures HeadLength(s[..k]) == HeadLength(s) && Scalar(s[..k]) == Scalar(s)
  {
  }

  /** A started character is not a character, and is replaced as a whole. */
  lemma CutHead(s: seq<byte>, k: nat)
    requires 0 < k < HeadLength(s)
    ensures HeadLength(s[..k]) == 0 && BadLength(s[..k]) == k
  {
  }

  // ---------------------------------------------------------------------
  // Texts.
  // ---------------------------------------------------------------------

  lemma EncodeCons(c: char, t: string)
    ensures Encode([c] + t) == EncodeChar(c) + Encode(t)
  {
    assert ([c] + t)[1..] == t;
  }

  lemma {:induction false} EncodeDecode(s: seq<byte>)
    requires WellFormed(s)
    ensures Encode(Decode(s)) == s
    decreases |s|
  {
    if s != [] {
      var n := HeadLength(s);
      EncodeDecode(s[n..]);
      EncodeScalar(s);
      DecodeFirst(s);
      EncodeCons(Scalar(s), Decode(s[n..]));
      TakeDrop(s, n);
    }
  }

  lemma DecodeFirst(s: seq<byte>)
    requires HeadLength(s) > 0
    ensures Decode(s) == [Scalar(s)] + Decode(s[HeadLength(s)..])
  {
  }

  lemma {:induction false} DecodeEncode(t: string)
    ensures WellFormed(Encode(t)) && Decode(Encode(t)) == t
    decreases |t|
  {
    if t != "" {
      DecodeEncode(t[1..]);
      ScalarEncode(t[0], Encode(t[1..]));
      assert Encode(t)[|EncodeChar(t[0])|..] == Encode(t[1..]);
    }
  }

  lemma {:induction false} EncodeConcat(s: string, t: string)
    ensures Encode(s + t) == Encode(s) + Encode(t)
    decreases |s|
  {
    if s == "" {
      assert s + t == t;
    } else {
      EncodeConcat(s[1..], t);
      EncodeCons(s[0], s[1..] + t);
      assert [s[0]] + (s[1..] + t) == s + t;
      Associate(EncodeChar(s[0]), Encode(s[1..]), Encode(t));
    }
  }

  /** No text is longer than its bytes, whatever the bytes are. */
  lemma {:induction false} UnitsBound(s: seq<byte>)
    ensures Units(Decode(s)) <= |s|
    decreases |s|
  {
    if s != [] {
      var n := if HeadLength(s) > 0 then HeadLength(s) else BadLength(s);
      UnitsBound(s[n..]);
      assert Decode(s)[1..] == Decode(s[n..]);
    }
  }

  /** The units of two texts add up; a character above the basic plane has two, any other one. */
  lemma {:induction false} UnitsAdd(s: string, t: string, c: char)
    ensures Units(s + t) == Units(s) + Units(t)
    ensures Units([c]) == if c as int <= 0xFFFF then 1 else 2
    decreases |s|
  {
    assert [c][1..] == "";
    if s == "" {
      assert s + t == t;
    } else {
      UnitsAdd(s[1..], t, c);
      assert (s + t)[1..] == s[1..] + t;
    }
  }

  /** `p` and at least one byte more are a character. */
  ghost predicate StartsCharacter(p: seq<byte>) {
    exists more: seq<byte> :: HeadLength(p + more) == |p| + |more| && more != []
  }

  /** One replacement stands for the longest start of a character there is, or for a single byte. */
  lemma BadIsLongestStart(s: seq<byte>, k: nat)
    requires s != [] && HeadLength(s) == 0 && 1 < k <= |s|
    ensures BadLength(s) > 1 ==> StartsCharacter(s[..BadLength(s)])
    ensures StartsCharacter(s[..k]) ==> k <= BadLength(s)
  {
    var n := BadLength(s);
    if n > 1 {
      var more: seq<byte> := if n == 2 && Lead4(s[0], s[1]) then [0x80, 0x80] else [0x80];
      assert HeadLength(s[..n] + more) == n + |more|;
    }
    if StartsCharacter(s[..k]) {
      var more: seq<byte> :| HeadLength(s[..k] + more) == k + |more| && more != [];
      var whole := s[..k] + more;
      assert forall i | 0 <= i < k :: whole[i] == s[i];
    }
  }

  /** The last character boundary of `s` at or before byte `k`. */
  function Boundary(s: seq<byte>, k: nat): (m: nat)
    requires k <= |s|
    ensures m <= k
  {
    if HeadLength(s) == 0 || k < HeadLength(s) then 0
    else HeadLength(s) + Boundary(s[HeadLength(s)..], k - HeadLength(s))
  }

  /** Cutting `s` after `k` bytes leaves the text up to byte `m`, then one replacement if a character was cut. */
  predicate CutAt(s: seq<byte>, k: nat, m: nat)
    requires k <= |s|
  {
    && m <= k < m + 4
    && WellFormed(s[..m])
    && CutText(Decode(s), Decode(s[..k]), Decode(s[..m]), CutMark(k, m))
  }

  predicate CutText(whole: string, cut: string, kept: string, mark: string) {
    kept <= whole && cut == kept + mark
  }

  function CutMark(k: nat, m: nat): string {
    if m < k then [REPLACEMENT] else ""
  }

  // The induction carries `CutAt` as a whole, hence the comparison with `true`.
  lemma {:induction false} DecodeCutAt(s: seq<byte>, k: nat, m: nat)
    requires WellFormed(s) && k <= |s| && m == Boundary(s, k)
    ensures CutAt(s, k, m) == true
    decreases |s|
  {
    if k == 0 || k < HeadLength(s) {
      CutBeforeEnd(s, k, m);
    } else {
      var n, rest := FirstAndRest(s, k);
      DecodeCutAt(rest, k - n, m - n);
      DecodeCutStep(s, n, rest, k, m);
    }
  }

  /** The first character and the rest, as far as the boundary is concerned. */
  lemma FirstAndRest(s: seq<byte>, k: nat) returns (n: nat, rest: seq<byte>)
    requires WellFormed(s) && 0 < k <= |s| && k >= HeadLength(s)
    ensures 0 < n == HeadLength(s) && n <= k && rest == s[n..] && WellFormed(rest)
    ensures Boundary(s, k) == n + Boundary(rest, k - n)
  {
    n, rest := HeadLength(s), s[HeadLength(s)..];
  }

  lemma CutBeforeEnd(s: seq<byte>, k: nat, m: nat)
    requires WellFormed(s) && k <= |s| && m == Boundary(s, k) && (k == 0 || k < HeadLength(s))
    ensures CutAt(s, k, m)
  {
    SmallBoundary(s, k);
    if k == 0 { CutAtStart(s); } else { CutInHead(s, k); }
  }

  /** Decoding a cut stream stops at the last boundary before the cut. */
  lemma DecodeCut(s: seq<byte>, k: nat)
    requires WellFormed(s) && k <= |s|
    ensures CutAt(s, k, Boundary(s, k))
  {
    DecodeCutAt(s, k, Boundary(s, k));
  }

  lemma SmallBoundary(s: seq<byte>, k: nat)
    requires WellFormed(s) && k <= |s| && (k == 0 || k < HeadLength(s))
    ensures Boundary(s, k) == 0
  {
  }

  lemma CutAtStart(s: seq<byte>)
    ensures CutAt(s, 0, 0)
  {
    assert s[..0] == [];
  }

  lemma CutInHead(s: seq<byte>, k: nat)
    requires 0 < k < HeadLength(s)
    ensures CutAt(s, k, 0)
  {
    CutHead(s, k);
    var cut := s[..k];
    assert cut[k..] == [] && s[..0] == [];
    assert Decode(cut) == [REPLACEMENT];
  }

  lemma DecodeCutStep(s: seq<byte>, n: nat, rest: seq<byte>, k: nat, m: nat)
    requires 0 < n == HeadLength(s) && rest == s[n..] && n <= m <= k <= |s| && CutAt(rest, k - n, m - n) == true
    ensures CutAt(s, k, m)
  {
    DecodeHead(s, n, rest, k);
    DecodeHead(s, n, rest, m);
    DecodeFirst(s);
    CutUnder([Scalar(s)], Decode(rest), Decode(rest[..k - n]), Decode(rest[..m - n]), CutMark(k - n, m - n));
  }

  lemma CutUnder(head: string, whole: string, cut: string, kept: string, mark: string)
    requires CutText(whole, cut, kept, mark)
    ensures CutText(head + whole, head + cut, head + kept, mark)
  {
  }

  lemma DecodeHead(s: seq<byte>, n: nat, rest: seq<byte>, k: nat)
    requires 0 < n == HeadLength(s) && rest == s[n..] && n <= k <= |s|
    ensures Decode(s[..k]) == [Scalar(s)] + Decode(rest[..k - n])
    ensures WellFormed(s[..k]) == WellFormed(rest[..k - n])
  {
    HeadIsLocal(s, k);
    CutRest(s, n, k);
    DecodeFirst(s[..k]);
  }

  lemma CutRest(s: seq<byte>, n: nat, k: nat)
    requires n <= k <= |s|
    ensures s[..k][n..] == s[n..][..k - n]
  {
  }
}
