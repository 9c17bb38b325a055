/** The IP allowlist of a route, as text: client address and entries are strings, read by `parseInt`. */
module IpAllowlist {
  import opened Cidr
  import opened Division
  import opened Doubles
  import opened Options
  import opened Seqs
  import opened Text

  // ---------------------------------------------------------------------
  // JavaScript numbers; None is NaN. There is no infinity: a rounded number of that size ends in as many
  // zero bits as a bit operator looks at, so it is used as infinity would be.
  // ---------------------------------------------------------------------

  function HexHead(s: string): (d: string)
    ensures forall i | 0 <= i < |d| :: IsHex(d[i])
  {
    if s == "" || !IsHex(s[0]) then "" else [s[0]] + HexHead(s[1..])
  }

  function HexNumber(digits: string): nat
    requires forall i | 0 <= i < |digits| :: IsHex(digits[i])
  {
    if digits == "" then 0 else 16 * HexNumber(digits[..|digits| - 1]) + HexValue(digits[|digits| - 1])
  }

  function Unsigned(s: string): Option<int> {
    if |s| >= 2 && s[0] == '0' && (s[1] == 'x' || s[1] == 'X')
    then (if HexHead(s[2..]) == "" then None else Some(Round(HexNumber(HexHead(s[2..])), PRECISION)))
    else (if DigitHead(s) == "" then None else Some(Round(Number(DigitHead(s)), PRECISION)))
  }

  /** `parseInt(s)`: the number at the head of `s`, behind whitespace and a sign, rounded to a double. */
  function ParseInt(s: string): Option<int> {
    var t := TrimStart(s);
    if t != "" && t[0] == '-' then Negated(Unsigned(t[1..]))
    else if t != "" && t[0] == '+' then Unsigned(t[1..])
    else Unsigned(t)
  }

  function Negated(n: Option<int>): Option<int> {
    if n.Some? then Some(-n.value) else None
  }

  /** What a bit operator makes of its operand. */
  function Bits(n: Option<int>): int {
    if n.Some? then n.value else 0
  }

  // ---------------------------------------------------------------------
  // The test.
  // ---------------------------------------------------------------------

  /** `(acc << 8) + octet` */
  function Appended(acc: Option<int>, octet: Option<int>): Option<int> {
    if octet.Some? then Some(Rounded(Shl8(Bits(acc)) + octet.value, PRECISION)) else None
  }

  function FoldOctets(octets: seq<Option<int>>, acc: Option<int>): Option<int> {
    if octets == [] then acc else FoldOctets(octets[1..], Appended(acc, octets[0]))
  }

  /** Every part read by `parseInt`. */
  function Parsed(parts: seq<string>): seq<Option<int>> {
    seq(|parts|, i requires 0 <= i < |parts| => ParseInt(parts[i]))
  }

  /** `ipToNum(ip)` */
  function IpNumber(ip: string): int {
    ToUint32(Bits(FoldOctets(Parsed(Split(ip, '.')), Some(0))))
  }

  /**
   * `~(2 ** (32 - bits) - 1)`, in double arithmetic. (Where the power is no double any more, infinity and
   * zero give the same mask.)
   */
  function MaskFor(bits: Option<int>): int {
    Not(if bits.Some? then PowerLessOne(Rounded(32 - bits.value, PRECISION), PRECISION) else 0)
  }

  /** The length an entry gives behind its first slash. */
  function LengthOf(parts: seq<string>): Option<int> {
    if |parts| > 1 then ParseInt(parts[1]) else None
  }

  /** `ipInCidr(ip, cidr)` */
  predicate InCidr(ip: string, cidr: string) {
    var parts := Split(cidr, '/');
    SameMasked(IpNumber(ip), IpNumber(parts[0]), MaskFor(LengthOf(parts)))
  }

  predicate EntryAdmits(entry: string, ip: string) {
    entry == ip || ('/' in entry && InCidr(ip, entry))
  }

  /** Without the prefix of an IPv4 address mapped to IPv6. */
  function Unmapped(clientIp: string): string {
    if "::ffff:" <= clientIp then clientIp[7..] else clientIp
  }

  lemma UnmappedIsBehindPrefix(ip: string)
    ensures Unmapped("::ffff:" + ip) == ip && (!("::ffff:" <= ip) ==> Unmapped(ip) == ip)
  {
  }

  predicate Admitted(clientIp: string, allowlist: seq<string>) {
    exists i | 0 <= i < |allowlist| :: EntryAdmits(allowlist[i], Unmapped(clientIp))
  }

  method IsIpAllowed(clientIp: string, allowlist: seq<string>) returns (allowed: bool)
    ensures allowed <==> Admitted(clientIp, allowlist)
  {
    var ip := Unmapped(clientIp);
    for i := 0 to |allowlist|
      invariant forall j | 0 <= j < i :: !EntryAdmits(allowlist[j], ip)
    {
      var entry := allowlist[i];
      if entry == ip { return true; }
      if '/' in entry {
        if InCidr(ip, entry) { return true; }
      }
    }
    return false;
  }

  // ---------------------------------------------------------------------
  // Well-formed addresses and entries.
  // ---------------------------------------------------------------------

  function Dotted(ip: Ipv4): string {
    Decimal(ip.a) + ['.'] + (Decimal(ip.b) + ['.'] + (Decimal(ip.c) + ['.'] + Decimal(ip.d)))
  }

  function EntryText(e: Entry): string {
    match e
    case Exact(address) => Dotted(address)
    case Block(range, bits) => Dotted(range) + ['/'] + Decimal(bits)
  }

  lemma UnsignedDigits(s: string)
    requires AllDigits(s) && s != ""
    ensures Unsigned(s) == Some(Round(Number(s), PRECISION))
  {
    DigitHeadOfDigits(s, "");
    assert s + "" == s;
    if |s| >= 2 { assert IsDigit(s[1]); }
  }

  /** Reading a printed number gives it back, rounded. */
  lemma ParseDecimal(n: nat)
    ensures ParseInt(Decimal(n)) == Some(Round(n, PRECISION))
  {
    var s := Decimal(n);
    NumberOfDecimal(n);
    UnsignedDigits(s);
    assert IsDigit(s[0]) && TrimStart(s) == s;
  }

  lemma {:induction false} HexHeadOfDigits(digits: string, rest: string)
    requires (forall i | 0 <= i < |digits| :: IsHex(digits[i])) && (rest == "" || !IsHex(rest[0]))
    ensures HexHead(digits + rest) == digits
    decreases |digits|
  {
    if digits == "" {
      assert digits + rest == rest;
    } else {
      HexHeadOfDigits(digits[1..], rest);
      assert (digits + rest)[1..] == digits[1..] + rest;
      HeadTail(digits);
    }
  }

  /** `parseInt` reads hexadecimal digits behind 0x, up to 255 for two of them, and nothing when there are none. */
  lemma ParseHex(x: char, y: char, rest: string)
    requires IsHex(x) && IsHex(y) && (rest == "" || !IsHex(rest[0]))
    ensures ParseInt("0x" + ([x, y] + rest)) == Some(16 * HexValue(x) + HexValue(y)) && ParseInt("0x") == None
  {
    var s, none := "0x" + ([x, y] + rest), "0x";
    assert s[2..] == [x, y] + rest && none[2..] == "";
    HexHeadOfDigits([x, y], rest);
    assert [x, y][..1] == [x] && [x][..0] == "";
    assert HexNumber([x]) == HexValue(x);
    assert HexNumber([x, y]) == 16 * HexValue(x) + HexValue(y);
    RoundedSmall(HexNumber([x, y]));
    assert TrimStart(s) == s && TrimStart(none) == none;
  }

  /** `parseInt` reads a sign. */
  lemma ParseSigned(s: string)
    ensures ParseInt("-" + s) == Negated(Unsigned(s)) && ParseInt("+" + s) == Unsigned(s)
    ensures forall n :: Negated(Some(n)) == Some(-n)
  {
    var minus, plus := "-" + s, "+" + s;
    assert minus[1..] == s && plus[1..] == s;
  }

  lemma RoundedSmall(n: int)
    requires -2 * TWO32 < n < 2 * TWO32
    ensures Rounded(n, PRECISION) == n
  {
    Pow2Values();
    Pow2Monotone(33, PRECISION);
    RoundFits(if n >= 0 then n else -n, PRECISION);
  }

  lemma DigitsAreFree(n: nat, c: char)
    requires !IsDigit(c)
    ensures Free(Decimal(n), c)
  {
    DecimalIsDigits(n);
  }

  lemma DottedParts(ip: Ipv4)
    ensures Split(Dotted(ip), '.') == [Decimal(ip.a), Decimal(ip.b), Decimal(ip.c), Decimal(ip.d)]
  {
    var c := Decimal(ip.c) + ['.'] + Decimal(ip.d);
    var b := Decimal(ip.b) + ['.'] + c;
    DigitsAreFree(ip.a, '.');
    DigitsAreFree(ip.b, '.');
    DigitsAreFree(ip.c, '.');
    DigitsAreFree(ip.d, '.');
    SplitHead(Decimal(ip.a), b, '.');
    SplitHead(Decimal(ip.b), c, '.');
    SplitHead(Decimal(ip.c), Decimal(ip.d), '.');
    SplitHead(Decimal(ip.d), "", '.');
  }

  lemma ParseOctet(octet: Octet)
    ensures ParseInt(Decimal(octet)) == Some(octet)
  {
    ParseDecimal(octet);
    RoundedSmall(octet);
  }

  function Numbers(octets: seq<Octet>): seq<Option<int>> {
    seq(|octets|, i requires 0 <= i < |octets| => Some(octets[i]))
  }

  lemma ParsedDecimals(parts: seq<string>, octets: seq<Octet>)
    requires |parts| == |octets| && forall i | 0 <= i < |parts| :: parts[i] == Decimal(octets[i])
    ensures Parsed(parts) == Numbers(octets)
  {
    forall i | 0 <= i < |parts| ensures Parsed(parts)[i] == Numbers(octets)[i] {
      ParseOctet(octets[i]);
    }
  }

  lemma AppendedOctet(acc: int, octet: Octet)
    ensures Appended(Some(acc), Some(octet)) == Some(Shl8(acc) + octet)
  {
    RoundedSmall(Shl8(acc) + octet);
  }

  lemma NumbersOctet(octets: seq<Octet>)
    requires octets != []
    ensures Numbers(octets)[0] == Some(octets[0]) && Numbers(octets)[1..] == Numbers(octets[1..])
  {
  }

  lemma {:induction false} FoldOfNumbers(octets: seq<Octet>, acc: int)
    ensures FoldOctets(Numbers(octets), Some(acc)) == Some(Fold(octets, acc))
    decreases |octets|
  {
    if octets != [] {
      FoldOfNumbers(octets[1..], Shl8(acc) + octets[0]);
      AppendedOctet(acc, octets[0]);
      NumbersOctet(octets);
    }
  }

  /** The text of an address is read as its number. */
  lemma DottedNumber(ip: Ipv4)
    ensures IpNumber(Dotted(ip)) == IpToNum(ip)
  {
    DottedParts(ip);
    ParsedDecimals(Split(Dotted(ip), '.'), [ip.a, ip.b, ip.c, ip.d]);
    FoldOfNumbers([ip.a, ip.b, ip.c, ip.d], 0);
  }

  /** Different addresses have different texts. */
  lemma DottedIsInjective(x: Ipv4, y: Ipv4)
    requires Dotted(x) == Dotted(y)
    ensures x == y
  {
    DottedParts(x);
    DottedParts(y);
    NumberOfDecimal(x.a);
    NumberOfDecimal(x.b);
    NumberOfDecimal(x.c);
    NumberOfDecimal(x.d);
    NumberOfDecimal(y.a);
    NumberOfDecimal(y.b);
    NumberOfDecimal(y.c);
    NumberOfDecimal(y.d);
    var xs, ys := Split(Dotted(x), '.'), Split(Dotted(y), '.');
    assert xs[0] == ys[0] && xs[1] == ys[1] && xs[2] == ys[2] && xs[3] == ys[3];
  }

  lemma DottedIsFree(ip: Ipv4, c: char)
    requires !IsDigit(c) && c != '.'
    ensures Free(Dotted(ip), c)
  {
    DigitsAreFree(ip.a, c);
    DigitsAreFree(ip.b, c);
    DigitsAreFree(ip.c, c);
    DigitsAreFree(ip.d, c);
  }

  lemma BlockParts(range: string, bits: nat)
    requires Free(range, '/')
    ensures Split(range + ['/'] + Decimal(bits), '/') == [range, Decimal(bits)]
  {
    DigitsAreFree(bits, '/');
    SplitHead(range, Decimal(bits), '/');
    SplitHead(Decimal(bits), "", '/');
  }

  // ----- The mask in double arithmetic -----

  /** A high power of two has no low bits, and one less has all of them. */
  lemma HighPower(e: nat)
    requires e >= 32
    ensures Not(Pow2(e)) == -1 && Not(Pow2(e) - 1) == 0
  {
    HighPowerIsMultiple(e);
    var q := Pow2(e - 32);
    LowWord(q);
  }

  lemma {:induction false} HighPowerIsMultiple(e: nat)
    requires e >= 32
    ensures Pow2(e) == TWO32 * Pow2(e - 32)
  {
    if e == 32 { Pow2Values(); } else { HighPowerIsMultiple(e - 1); }
  }

  lemma LowWord(q: nat)
    requires q >= 1
    ensures Not(TWO32 * q) == -1 && Not(TWO32 * q - 1) == 0
  {
    Quotient(TWO32 * q, TWO32, q, 0);
    Quotient(TWO32 * q - 1, TWO32, q - 1, TWO32 - 1);
  }

  lemma MaskOfPower(bits: int, power: int)
    requires PowerLessOne(Rounded(32 - bits, PRECISION), PRECISION) == power
    ensures MaskFor(Some(bits)) == Not(power)
  {
  }

  /** Rounding leaves an exponent on its side of all that matters. */
  lemma RoundedExponent(e: int)
    ensures var r := Rounded(e, PRECISION);
            && (-PRECISION <= e <= PRECISION ==> r == e)
            && (e > PRECISION ==> r > PRECISION) && (e < -PRECISION ==> r < -PRECISION)
  {
    var n := if e >= 0 then e else -e;
    assert Pow2(6) == 64;
    Pow2Monotone(6, PRECISION);
    if n < Pow2(PRECISION) { RoundFits(n, PRECISION); } else { RoundStaysLarge(n, PRECISION); }
  }

  /** For the lengths of IPv4 the mask is that of the value-level test. */
  lemma MaskForLength(bits: nat)
    requires bits <= 32
    ensures MaskFor(Some(bits)) == Mask(bits)
  {
    RoundedExponent(32 - bits);
    HighPowerLessOne(32 - bits, PRECISION);
    MaskOfPower(bits, Pow2(32 - bits) - 1);
  }

  lemma MaskForNegative(bits: int)
    requires bits < 0
    ensures MaskFor(Some(bits)) == if bits < -21 then -1 else 0
  {
    RoundedExponent(32 - bits);
    var e := Rounded(32 - bits, PRECISION);
    HighPowerLessOne(e, PRECISION);
    MaskOfPower(bits, if e <= PRECISION then Pow2(e) - 1 else Pow2(e));
    HighPower(e);
  }

  lemma MaskForLong(bits: int)
    requires bits > 32
    ensures MaskFor(Some(bits)) == if bits <= 85 then -1 else 0
  {
    RoundedExponent(32 - bits);
    LowPowerLessOne(Rounded(32 - bits, PRECISION), PRECISION);
    MaskOfPower(bits, if bits <= 85 then 0 else -1);
    SmallNot();
  }

  lemma SmallNot()
    ensures Not(0) == -1 && Not(-1) == 0
  {
  }

  lemma {:induction false} NothingInCommon(x: nat, n: nat)
    ensures CommonBits(x, 0, n) == 0
    decreases n
  {
    if n > 0 { NothingInCommon(x / 2, n - 1); }
  }

  lemma EmptyMask(x: int, y: int)
    ensures SameMasked(x, y, 0)
  {
    NothingInCommon(ToUint32(x), 32);
    NothingInCommon(ToUint32(y), 32);
    assert ToUint32(0) == 0;
  }

  lemma FullMask(x: int, y: int)
    requires 0 <= x < TWO32 && 0 <= y < TWO32
    ensures SameMasked(x, y, -1) <==> x == y
  {
    MaskTestIff(x, y, 32);
    assert Pow2(0) == 1;
    SmallNot();
  }

  /** What a block of a given length does with two numbers, for every length and none. */
  predicate AdmitsByLength(x: int, y: int, bits: Option<int>) {
    if bits.Some? && 0 <= bits.value <= 32 then SameBlock(x, y, bits.value)
    else if bits.None? || bits.value < -21 || 32 < bits.value <= 85 then x == y
    else true
  }

  lemma MaskAdmits(x: int, y: int, bits: Option<int>)
    requires 0 <= x < TWO32 && 0 <= y < TWO32
    ensures SameMasked(x, y, MaskFor(bits)) <==> AdmitsByLength(x, y, bits)
  {
    if bits.None? {
      SmallNot();
      FullMask(x, y);
    } else if 0 <= bits.value <= 32 {
      MaskForLength(bits.value);
      MaskTestIff(x, y, bits.value);
    } else {
      if bits.value < 0 { MaskForNegative(bits.value); } else { MaskForLong(bits.value); }
      EmptyMask(x, y);
      FullMask(x, y);
    }
  }

  /**
   * On any two texts: the numbers they are read as agree in the leading bits for lengths 0 to 32, are
   * the same for lengths 33 to 85, below -21 and for none, and anything goes for all other lengths,
   * where the mask is empty.
   */
  lemma InCidrIff(ip: string, cidr: string)
    ensures var parts := Split(cidr, '/');
            InCidr(ip, cidr) <==> AdmitsByLength(IpNumber(ip), IpNumber(parts[0]), LengthOf(parts))
  {
    var parts := Split(cidr, '/');
    MaskAdmits(IpNumber(ip), IpNumber(parts[0]), LengthOf(parts));
  }

  lemma RoundedLength(bits: nat)
    ensures bits <= 85 ==> Round(bits, PRECISION) == bits
    ensures bits > 85 ==> Round(bits, PRECISION) > 85
  {
    assert Pow2(7) == 128;
    Pow2Monotone(7, PRECISION);
    if bits < Pow2(PRECISION) { RoundFits(bits, PRECISION); } else { RoundStaysLarge(bits, PRECISION); }
  }

  lemma BlockAdmits(ip: string, range: string, bits: nat)
    requires Free(range, '/')
    ensures InCidr(ip, range + ['/'] + Decimal(bits)) <==> AdmitsByLength(IpNumber(ip), IpNumber(range), Some(bits))
  {
    BlockParts(range, bits);
    ParseDecimal(bits);
    RoundedLength(bits);
    InCidrIff(ip, range + ['/'] + Decimal(bits));
  }

  /** A block admits exactly the texts that are read as a number with the same leading bits, whatever the texts. */
  lemma BlockAdmitsByNumber(ip: string, range: string, bits: nat)
    requires Free(range, '/') && bits <= 32
    ensures InCidr(ip, range + ['/'] + Decimal(bits)) <==> SameBlock(IpNumber(ip), IpNumber(range), bits)
  {
    BlockAdmits(ip, range, bits);
  }

  lemma BlockTest(ip: Ipv4, range: Ipv4, bits: nat)
    requires bits <= 32
    ensures InCidr(Dotted(ip), EntryText(Block(range, bits))) <==> SameBlock(Value(ip), Value(range), bits)
  {
    DottedIsFree(range, '/');
    BlockAdmitsByNumber(Dotted(ip), Dotted(range), bits);
    DottedNumber(ip);
    DottedNumber(range);
    IpToNumIsValue(ip);
    IpToNumIsValue(range);
  }

  /** A well-formed entry admits exactly the addresses it covers. */
  lemma EntryAdmitsIff(e: Entry, ip: Ipv4)
    requires ValidEntry(e)
    ensures EntryAdmits(EntryText(e), Dotted(ip)) <==> EntryCovers(e, ip)
  {
    DottedIsFree(ip, '/');
    match e
    case Exact(address) =>
      DottedIsFree(address, '/');
      if Dotted(address) == Dotted(ip) { DottedIsInjective(address, ip); }
    case Block(range, bits) =>
      var text := EntryText(e);
      assert text[|Dotted(range)|] == '/';
      assert text != Dotted(ip);
      BlockTest(ip, range, bits);
  }

  lemma DottedIsUnmapped(ip: Ipv4)
    ensures Unmapped(Dotted(ip)) == Dotted(ip) && Unmapped("::ffff:" + Dotted(ip)) == Dotted(ip)
  {
    DottedIsFree(ip, ':');
    assert Decimal(ip.a) <= Dotted(ip) && Dotted(ip)[0] != ':';
    assert "::ffff:"[0] == ':';
    assert ("::ffff:" + Dotted(ip))[7..] == Dotted(ip);
  }

  /**
   * On a well-formed allowlist a client, mapped to IPv6 or not, is allowed exactly when an entry covers
   * its address.
   */
  lemma AllowedIffCovered(ip: Ipv4, clientIp: string, entries: seq<Entry>, allowlist: seq<string>)
    requires clientIp == Dotted(ip) || clientIp == "::ffff:" + Dotted(ip)
    requires |allowlist| == |entries|
    requires forall i | 0 <= i < |entries| :: ValidEntry(entries[i]) && allowlist[i] == EntryText(entries[i])
    ensures Admitted(clientIp, allowlist) <==> exists i | 0 <= i < |entries| :: EntryCovers(entries[i], ip)
  {
    DottedIsUnmapped(ip);
    forall i | 0 <= i < |entries| ensures EntryAdmits(allowlist[i], Dotted(ip)) <==> EntryCovers(entries[i], ip) {
      EntryAdmitsIff(entries[i], ip);
    }
  }

  // ---------------------------------------------------------------------
  // Texts without dots: IPv6 addresses.
  // ---------------------------------------------------------------------

  /** The number at the head of a text, 0 if there is none. */
  function HeadNumber(s: string): int {
    ToUint32(Bits(ParseInt(s)))
  }

  /** A text without dots is read by its head alone. */
  lemma DotlessNumber(s: string)
    requires Free(s, '.')
    ensures IpNumber(s) == HeadNumber(s)
  {
    SplitHead(s, "", '.');
    OnePart(s);
  }

  lemma ParseIntIsRounded(s: string)
    requires ParseInt(s).Some?
    ensures Rounded(ParseInt(s).value, PRECISION) == ParseInt(s).value
  {
    var t := TrimStart(s);
    UnsignedIsRounded(if t != "" && (t[0] == '-' || t[0] == '+') then t[1..] else t);
  }

  lemma UnsignedIsRounded(s: string)
    requires Unsigned(s).Some?
    ensures Unsigned(s).value >= 0 && Round(Unsigned(s).value, PRECISION) == Unsigned(s).value
  {
    if |s| >= 2 && s[0] == '0' && (s[1] == 'x' || s[1] == 'X') {
      RoundAgain(HexNumber(HexHead(s[2..])), PRECISION);
    } else {
      RoundAgain(Number(DigitHead(s)), PRECISION);
    }
  }

  lemma OnePart(s: string)
    ensures FoldOctets(Parsed([s]), Some(0)) == ParseInt(s)
  {
    SmallShift(0);
    if ParseInt(s).Some? { ParseIntIsRounded(s); }
    assert Parsed([s]) == [ParseInt(s)] && Parsed([s])[1..] == [];
  }

  /**
   * An IPv6 client is admitted by an IPv6 block with a length of 0 to 32 exactly when the numbers at
   * the heads of the two texts have the same leading bits.
   */
  lemma DotlessBlockAdmits(client: string, range: string, bits: nat)
    requires Free(client, '.') && Free(range, '.') && Free(range, '/') && bits <= 32
    ensures InCidr(client, range + ['/'] + Decimal(bits)) <==> SameBlock(HeadNumber(client), HeadNumber(range), bits)
  {
    BlockAdmitsByNumber(client, range, bits);
    DotlessNumber(client);
    DotlessNumber(range);
  }

  /** A block with a length of 33 to 85 admits exactly the texts read as the same number. */
  lemma LongBlockAdmits(client: string, range: string, bits: nat)
    requires Free(range, '/') && 32 < bits <= 85
    ensures InCidr(client, range + ['/'] + Decimal(bits)) <==> IpNumber(client) == IpNumber(range)
  {
    BlockAdmits(client, range, bits);
  }

  /** A block with a length of 86 or more, as most IPv6 entries have, admits every client. */
  lemma LongerBlockAdmitsAll(client: string, range: string, bits: nat)
    requires Free(range, '/') && bits >= 86
    ensures InCidr(client, range + ['/'] + Decimal(bits))
  {
    BlockAdmits(client, range, bits);
  }

  /** So the entry for one IPv6 host lets every client in. */
  lemma OneHostAdmitsAll(entry: string, client: string)
    requires entry == "::1/128"
    ensures EntryAdmits(entry, client)
  {
    Decimal128();
    LongerBlockAdmitsAll(client, "::1", 128);
    assert entry == "::1" + ['/'] + Decimal(128);
    assert entry[3] == '/';
  }

  lemma Decimal128()
    ensures Decimal(128) == "128"
  {
    assert Decimal(12) == Decimal(1) + "2";
    assert Decimal(128) == Decimal(12) + "8";
  }

  /** Texts that start with a letter are all read as 0, so such a block admits every such client. */
  lemma LettersReadAsZero(client: string, range: string, bits: nat)
    requires Free(client, '.') && Free(range, '.') && Free(range, '/') && bits <= 32
    requires client != "" && 'a' <= client[0] <= 'f' && range != "" && 'a' <= range[0] <= 'f'
    ensures InCidr(client, range + ['/'] + Decimal(bits))
  {
    LetterHead(client);
    LetterHead(range);
    DotlessBlockAdmits(client, range, bits);
  }

  lemma LetterHead(s: string)
    requires s != "" && 'a' <= s[0] <= 'f'
    ensures HeadNumber(s) == 0
  {
    assert TrimStart(s) == s && DigitHead(s) == "";
    assert ParseInt(s) == None;
  }
}
