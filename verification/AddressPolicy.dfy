/** Which IP addresses an outgoing request may not reach. */
module AddressPolicy {
  import opened Wrappers
  import opened Arithmetic
  import opened JsNumbers
  import opened JsStrings
  import opened Numerals

  // ----- The code -----

  /** One step of the dotted-quad fold; not-a-number turns into zero. */
  function AddOctet(acc: int, octet: string): (r: int)
    ensures 0 <= r < 0x1_0000_0000
  {
    match ParseInt(octet, 10)
    case Some(n) => ZeroFillShift(ShiftLeft(acc, 8) + n)
    case None => 0
  }

  function FoldOctets(acc: int, octets: seq<string>): (r: int)
    requires 0 <= acc < 0x1_0000_0000
    ensures 0 <= r < 0x1_0000_0000
    decreases octets
  {
    if octets == [] then acc else FoldOctets(AddOctet(acc, octets[0]), octets[1..])
  }

  function Ipv4ToInt(ip: string): (r: int)
    ensures 0 <= r < 0x1_0000_0000
  {
    FoldOctets(0, Split(ip, "."))
  }

  /** The shift count 32 would act as 0, so no bits at all is a case of its own. */
  function Ipv4Mask(bits: nat): int
    requires bits <= 32
  {
    if bits == 0 then 0 else ZeroFillShift(ShiftLeft(0xFFFF_FFFF, 32 - bits))
  }

  predicate Ipv4InCidr(ip: string, base: string, bits: nat)
    requires bits <= 32
  {
    And32(Ipv4ToInt(ip), Ipv4Mask(bits)) == And32(Ipv4ToInt(base), Ipv4Mask(bits))
  }

  predicate IsBlockedIpv4(ip: string) {
    || Ipv4InCidr(ip, "0.0.0.0", 8)
    || Ipv4InCidr(ip, "10.0.0.0", 8)
    || Ipv4InCidr(ip, "100.64.0.0", 10)
    || Ipv4InCidr(ip, "127.0.0.0", 8)
    || Ipv4InCidr(ip, "169.254.0.0", 16)
    || Ipv4InCidr(ip, "172.16.0.0", 12)
    || Ipv4InCidr(ip, "192.0.0.0", 24)
    || Ipv4InCidr(ip, "192.0.2.0", 24)
    || Ipv4InCidr(ip, "192.168.0.0", 16)
    || Ipv4InCidr(ip, "198.18.0.0", 15)
    || Ipv4InCidr(ip, "198.51.100.0", 24)
    || Ipv4InCidr(ip, "203.0.113.0", 24)
    || Ipv4InCidr(ip, "224.0.0.0", 4)
    || Ipv4InCidr(ip, "240.0.0.0", 4)
  }

  function FoldGroups(acc: int, parts: seq<string>): Option<int>
    decreases parts
  {
    if parts == [] then Some(acc)
    else
      match ParseInt(if parts[0] == "" then "0" else parts[0], 16)
      case Some(n) => FoldGroups(acc * 0x1_0000 + n, parts[1..])
      case None => None
  }

  function Pieces(raw: string): seq<string> {
    if raw == "" then [] else NonEmpty(Split(raw, ":"))
  }

  function Zeros(n: nat): (r: seq<string>)
    ensures |r| == n && forall i :: 0 <= i < n ==> r[i] == "0"
  {
    seq(n, _ => "0")
  }

  function NoGroups(n: nat): (r: seq<nat>)
    ensures |r| == n && forall i :: 0 <= i < n ==> r[i] == 0
  {
    seq(n, _ => 0)
  }

  function Ipv6ToBigInt(ip: string): Option<int> {
    var halves := Split(Lower(ip), "::");
    var head := Pieces(halves[0]);
    var tail := if |halves| > 1 then Pieces(halves[1]) else [];
    var missing := 8 - |head| - |tail|;
    var parts := head + Zeros(if missing < 0 then 0 else missing) + tail;
    if |parts| != 8 then None else FoldGroups(0, parts)
  }

  function Ipv6Mask(bits: nat): int
    requires bits <= 128
  {
    if bits == 0 then 0 else (Pow2(bits) - 1) * Pow2(128 - bits)
  }

  predicate Ipv6InCidr(value: int, base: string, bits: nat)
    requires bits <= 128
  {
    match Ipv6ToBigInt(base)
    case Some(b) => And(value, Ipv6Mask(bits)) == And(b, Ipv6Mask(bits))
    case None => false
  }

  /** The dotted quad after `::ffff:`, if the text has that form. */
  function Mapped(ip: string): Option<string> {
    var lower := Lower(ip);
    if "::ffff:" <= lower && IsDottedQuad(lower[7..]) then Some(lower[7..]) else None
  }

  predicate IsDottedQuad(s: string) {
    var parts := Split(s, ".");
    |parts| == 4 && forall p :: p in parts ==> p != "" && AllDigits(p, 10)
  }

  predicate IsBlockedIpv6(ip: string) {
    match Mapped(ip)
    case Some(quad) => IsBlockedIpv4(quad)
    case None =>
      match Ipv6ToBigInt(ip)
      case None => true
      case Some(value) =>
        || Ipv6InCidr(value, "::", 128)
        || Ipv6InCidr(value, "::1", 128)
        || Ipv6InCidr(value, "::ffff:0:0", 96)
        || Ipv6InCidr(value, "64:ff9b::", 96)
        || Ipv6InCidr(value, "fc00::", 7)
        || Ipv6InCidr(value, "fe80::", 10)
        || Ipv6InCidr(value, "ff00::", 8)
        || Ipv6InCidr(value, "2001:db8::", 32)
  }

  // ----- IPv4 -----

  /** Decimal texts for the four octets. */
  ghost predicate SpellsQuad(parts: seq<string>, o: seq<nat>) {
    && |parts| == |o| == 4
    && forall i :: 0 <= i < 4 ==> o[i] < 256 && Spells(parts[i], o[i], 10)
  }

  function QuadValue(o: seq<nat>): nat
    requires |o| == 4
  {
    o[0] * 0x100_0000 + o[1] * 0x1_0000 + o[2] * 0x100 + o[3]
  }

  lemma OctetArithmetic(acc: int, n: int)
    requires 0 <= acc < 0x100_0000 && 0 <= n < 256
    ensures ZeroFillShift(ShiftLeft(acc, 8) + n) == acc * 256 + n
  {
    PowersOfTwo();
    hide Pow2;
    assert ToInt32(acc) == acc;
    SignedPlus(acc * 256, n);
  }

  /** Adding to a number read as signed and reading the sum as unsigned again. */
  lemma SignedPlus(x: int, n: int)
    requires 0 <= x && 0 <= n && x + n < 0x1_0000_0000
    ensures ToUint32(ToInt32(x) + n) == x + n
  {
    assert ToInt32(x) == if x < 0x8000_0000 then x else x - 0x1_0000_0000;
  }

  lemma AddOctetAppends(acc: int, part: string, n: nat)
    requires 0 <= acc < 0x100_0000 && Spells(part, n, 10) && n < 256
    ensures AddOctet(acc, part) == acc * 256 + n
  {
    hide ZeroFillShift, ShiftLeft, ParseInt, Spells;
    SpelledParses(part, n, 10);
    OctetArithmetic(acc, n);
  }

  /** The fold under 32-bit shifts is the base-256 value, for every spelling of every four octets. */
  lemma Ipv4Value(parts: seq<string>, o: seq<nat>)
    requires SpellsQuad(parts, o)
    ensures Ipv4ToInt(Join(parts, '.')) == QuadValue(o)
  {
    hide AddOctet, Spells, Join, Split;
    forall p | p in parts
      ensures '.' !in p
    {
      var i :| 0 <= i < 4 && parts[i] == p;
      SpelledPlain(p, o[i], 10, '.');
    }
    SplitUndoesJoin(parts, '.');
    var a2 := o[0] * 256 + o[1];
    var a3 := a2 * 256 + o[2];
    AddOctetAppends(0, parts[0], o[0]);
    AddOctetAppends(o[0], parts[1], o[1]);
    AddOctetAppends(a2, parts[2], o[2]);
    AddOctetAppends(a3, parts[3], o[3]);
    assert parts[1..][1..] == parts[2..] && parts[2..][1..] == parts[3..] && parts[3..][1..] == [];
    assert FoldOctets(0, parts) == FoldOctets(o[0], parts[1..]);
    assert FoldOctets(o[0], parts[1..]) == FoldOctets(a2, parts[2..]);
    assert FoldOctets(a2, parts[2..]) == FoldOctets(a3, parts[3..]);
  }

  /** The aligned interval of `size` numbers around `b`. */
  predicate InAligned(x: int, b: int, size: nat)
    requires size > 0
  {
    b - b % size <= x < b - b % size + size
  }

  lemma AlignedIsQuotient(x: int, b: int, size: nat)
    requires size > 0
    ensures InAligned(x, b, size) <==> x / size == b / size
  {
    var q, p := b / size, x / size;
    assert b - b % size == size * q && x - x % size == size * p;
    if InAligned(x, b, size) {
      EuclidUnique(x, size, q, x - size * q);
    }
  }

  lemma EqualAfterClearing(x: int, b: int, size: nat)
    requires size > 0
    ensures x - x % size == b - b % size <==> x / size == b / size
  {
    var q, p := b / size, x / size;
    assert b - b % size == size * q && x - x % size == size * p;
    EuclidUnique(size * q, size, q, 0);
    EuclidUnique(size * p, size, p, 0);
  }

  lemma NegativeFits(p: nat)
    requires 0 < p <= 0x8000_0000
    ensures ToInt32(0 - p) == 0 - p && ToInt32(ToUint32(0 - p)) == 0 - p
  {
    assert ToUint32(0 - p) == 0x1_0000_0000 - p;
  }

  lemma MaskIsNegatedPower(bits: nat)
    requires 0 < bits <= 32
    ensures ToInt32(Ipv4Mask(bits)) == 0 - Pow2(32 - bits)
  {
    var k := 32 - bits;
    assert Pow2(31) == 0x8000_0000 by { PowersOfTwo(); assert Pow2(32) == 2 * Pow2(31); }
    hide Pow2;
    PowersGrow(k, 31);
    NegativeFits(Pow2(k));
    assert ToInt32(0xFFFF_FFFF) == -1;
    assert k % 32 == k;
    assert ShiftLeft(0xFFFF_FFFF, k) == ToInt32(-1 * Pow2(k));
  }

  /** A number is below `p * h` exactly when its quotient by `p` is below `h`. */
  lemma QuotientBelow(x: int, p: nat, h: nat)
    requires p > 0
    ensures x / p < h <==> x < p * h
  {
    var q, r := x / p, x % p;
    if q < h {
      ProductMonotone(p, q + 1, h);
      assert p * (q + 1) == p * q + p;
    } else {
      ProductMonotone(p, h, q);
    }
  }

  lemma BlockIndex(x: int, p: nat, h: nat)
    requires p > 0 && p * h == 0x8000_0000 && 0 <= x < 0x1_0000_0000
    ensures x / p < 2 * h && (x / p < h <==> x < 0x8000_0000) && x / p >= 0
  {
    assert p * (2 * h) == 2 * (p * h);
    QuotientBelow(x, p, h);
    QuotientBelow(x, p, 2 * h);
    QuotientBelow(x, p, 0);
  }

  lemma SignedBlockIndex(x: int, p: nat, h: nat)
    requires p > 0 && p * h == 0x8000_0000 && 0 <= x < 0x1_0000_0000
    ensures ToInt32(x) / p == if x < 0x8000_0000 then x / p else x / p - 2 * h
  {
    if x >= 0x8000_0000 {
      var q, r := x / p, x % p;
      assert p * (q - 2 * h) == p * q - 2 * (p * h);
      EuclidUnique(x - 0x1_0000_0000, p, q - 2 * h, r);
    }
  }

  /** Reading 32 bits as a signed number moves no two numbers into or out of the same block. */
  lemma SignedQuotient(x: int, b: int, k: nat)
    requires 0 <= x < 0x1_0000_0000 && 0 <= b < 0x1_0000_0000 && k < 32
    ensures ToInt32(x) / Pow2(k) == ToInt32(b) / Pow2(k) <==> x / Pow2(k) == b / Pow2(k)
  {
    var p, h := Pow2(k), Pow2(31 - k);
    assert p * h == 0x8000_0000 by { PowersOfTwo(); Pow2Splits(k, 31 - k); assert Pow2(32) == 2 * Pow2(31); }
    hide Pow2, ToInt32;
    BlockIndex(x, p, h);
    BlockIndex(b, p, h);
    SignedBlockIndex(x, p, h);
    SignedBlockIndex(b, p, h);
  }

  lemma WholeSpace(x: int, b: int)
    requires 0 <= x < 0x1_0000_0000 && 0 <= b < 0x1_0000_0000
    ensures InAligned(x, b, Pow2(32)) && And32(x, 0) == And32(b, 0)
  {
    PowersOfTwo();
    hide Pow2;
  }

  /** The mask test decides membership in the aligned interval of size 2^(32 - bits), for any two texts. */
  lemma Ipv4CidrIsInterval(ip: string, base: string, bits: nat)
    requires bits <= 32
    ensures Ipv4InCidr(ip, base, bits) <==> InAligned(Ipv4ToInt(ip), Ipv4ToInt(base), Pow2(32 - bits))
  {
    var x, b, k := Ipv4ToInt(ip), Ipv4ToInt(base), 32 - bits;
    hide Pow2, ToInt32, And, Ipv4ToInt, InAligned;
    if bits == 0 {
      WholeSpace(x, b);
    } else {
      MaskIsNegatedPower(bits);
      hide Ipv4Mask;
      AndNegatedPower(ToInt32(x), k);
      AndNegatedPower(ToInt32(b), k);
      EqualAfterClearing(ToInt32(x), ToInt32(b), Pow2(k));
      SignedQuotient(x, b, k);
      AlignedIsQuotient(x, b, Pow2(k));
    }
  }

  /** The blocked IPv4 addresses, octet by octet. */
  predicate ReservedQuad(o: seq<nat>)
    requires |o| == 4
  {
    || o[0] == 0 || o[0] == 10 || o[0] == 127 || o[0] >= 224
    || (o[0] == 100 && 64 <= o[1] < 128)
    || (o[0] == 169 && o[1] == 254)
    || (o[0] == 172 && 16 <= o[1] < 32)
    || (o[0] == 192 && o[1] == 0 && (o[2] == 0 || o[2] == 2))
    || (o[0] == 192 && o[1] == 168)
    || (o[0] == 198 && 18 <= o[1] < 20)
    || (o[0] == 198 && o[1] == 51 && o[2] == 100)
    || (o[0] == 203 && o[1] == 0 && o[2] == 113)
  }

  /** The usual text of four octets. */
  function Quad(o: seq<nat>): string
    requires |o| == 4
  {
    Numeral(o[0], 10) + "." + Numeral(o[1], 10) + "." + Numeral(o[2], 10) + "." + Numeral(o[3], 10)
  }

  lemma JoinFour(a: string, b: string, c: string, d: string)
    ensures Join([a, b, c, d], '.') == a + "." + b + "." + c + "." + d
  {
    assert Join([c, d], '.') == c + "." + d;
    assert [b, c, d][1..] == [c, d] && [a, b, c, d][1..] == [b, c, d];
    assert Join([b, c, d], '.') == b + "." + (c + "." + d);
  }

  lemma QuadText(o: seq<nat>)
    requires |o| == 4 && forall i :: 0 <= i < 4 ==> o[i] < 256
    ensures Ipv4ToInt(Quad(o)) == QuadValue(o)
  {
    hide Spells, Numeral, Join, Ipv4ToInt;
    var a, b, c, d := Numeral(o[0], 10), Numeral(o[1], 10), Numeral(o[2], 10), Numeral(o[3], 10);
    NumeralSpells(o[0], 10);
    NumeralSpells(o[1], 10);
    NumeralSpells(o[2], 10);
    NumeralSpells(o[3], 10);
    Ipv4Value([a, b, c, d], o);
    JoinFour(a, b, c, d);
  }

  /** One row of the table: `text` is the usual text of `o`, and the test is membership in the block from there on. */
  lemma Row(ip: string, text: string, o: seq<nat>, bits: nat, size: nat)
    requires |o| == 4 && (forall i :: 0 <= i < 4 ==> o[i] < 256) && text == Quad(o)
    requires bits <= 32 && Pow2(32 - bits) == size && QuadValue(o) % size == 0
    ensures Ipv4InCidr(ip, text, bits) <==> QuadValue(o) <= Ipv4ToInt(ip) < QuadValue(o) + size
  {
    hide Ipv4InCidr, Quad, QuadValue, Ipv4ToInt, Pow2;
    QuadText(o);
    Ipv4CidrIsInterval(ip, text, bits);
  }

  lemma OctetTexts()
    ensures Numeral(0, 10) == "0" && Numeral(2, 10) == "2" && Numeral(10, 10) == "10" && Numeral(16, 10) == "16"
    ensures Numeral(18, 10) == "18" && Numeral(51, 10) == "51" && Numeral(64, 10) == "64" && Numeral(100, 10) == "100"
    ensures Numeral(113, 10) == "113" && Numeral(127, 10) == "127" && Numeral(168, 10) == "168"
    ensures Numeral(169, 10) == "169" && Numeral(172, 10) == "172" && Numeral(192, 10) == "192"
    ensures Numeral(198, 10) == "198" && Numeral(203, 10) == "203" && Numeral(224, 10) == "224"
    ensures Numeral(240, 10) == "240" && Numeral(254, 10) == "254"
  {
  }

  lemma BlockSizes()
    ensures Pow2(28) == 0x1000_0000 && Pow2(24) == 0x100_0000 && Pow2(22) == 0x40_0000 && Pow2(20) == 0x10_0000
    ensures Pow2(17) == 0x2_0000 && Pow2(16) == 0x1_0000 && Pow2(8) == 0x100
  {
    PowersOfTwo();
    assert Pow2(28) == 16 * Pow2(24);
    assert Pow2(20) == 16 * Pow2(16);
    assert Pow2(22) == 4 * Pow2(20);
  }

  lemma BlocksLow(ip: string, x: int)
    requires x == Ipv4ToInt(ip)
    ensures Ipv4InCidr(ip, "0.0.0.0", 8) <==> 0x0 <= x < 0x100_0000
    ensures Ipv4InCidr(ip, "10.0.0.0", 8) <==> 0xA00_0000 <= x < 0xB00_0000
    ensures Ipv4InCidr(ip, "100.64.0.0", 10) <==> 0x6440_0000 <= x < 0x6480_0000
    ensures Ipv4InCidr(ip, "127.0.0.0", 8) <==> 0x7F00_0000 <= x < 0x8000_0000
    ensures Ipv4InCidr(ip, "169.254.0.0", 16) <==> 0xA9FE_0000 <= x < 0xA9FF_0000
  {
    OctetTexts();
    BlockSizes();
    hide Numeral, Ipv4InCidr, Ipv4ToInt, Pow2;
    Row(ip, "0.0.0.0", [0, 0, 0, 0], 8, 0x100_0000);
    Row(ip, "10.0.0.0", [10, 0, 0, 0], 8, 0x100_0000);
    Row(ip, "100.64.0.0", [100, 64, 0, 0], 10, 0x40_0000);
    Row(ip, "127.0.0.0", [127, 0, 0, 0], 8, 0x100_0000);
    Row(ip, "169.254.0.0", [169, 254, 0, 0], 16, 0x1_0000);
  }

  lemma BlocksMiddle(ip: string, x: int)
    requires x == Ipv4ToInt(ip)
    ensures Ipv4InCidr(ip, "172.16.0.0", 12) <==> 0xAC10_0000 <= x < 0xAC20_0000
    ensures Ipv4InCidr(ip, "192.0.0.0", 24) <==> 0xC000_0000 <= x < 0xC000_0100
    ensures Ipv4InCidr(ip, "192.0.2.0", 24) <==> 0xC000_0200 <= x < 0xC000_0300
    ensures Ipv4InCidr(ip, "192.168.0.0", 16) <==> 0xC0A8_0000 <= x < 0xC0A9_0000
    ensures Ipv4InCidr(ip, "198.18.0.0", 15) <==> 0xC612_0000 <= x < 0xC614_0000
  {
    OctetTexts();
    BlockSizes();
    hide Numeral, Ipv4InCidr, Ipv4ToInt, Pow2;
    Row(ip, "172.16.0.0", [172, 16, 0, 0], 12, 0x10_0000);
    Row(ip, "192.0.0.0", [192, 0, 0, 0], 24, 0x100);
    Row(ip, "192.0.2.0", [192, 0, 2, 0], 24, 0x100);
    Row(ip, "192.168.0.0", [192, 168, 0, 0], 16, 0x1_0000);
    Row(ip, "198.18.0.0", [198, 18, 0, 0], 15, 0x2_0000);
  }

  lemma BlocksHigh(ip: string, x: int)
    requires x == Ipv4ToInt(ip)
    ensures Ipv4InCidr(ip, "198.51.100.0", 24) <==> 0xC633_6400 <= x < 0xC633_6500
    ensures Ipv4InCidr(ip, "203.0.113.0", 24) <==> 0xCB00_7100 <= x < 0xCB00_7200
    ensures Ipv4InCidr(ip, "224.0.0.0", 4) <==> 0xE000_0000 <= x < 0xF000_0000
    ensures Ipv4InCidr(ip, "240.0.0.0", 4) <==> 0xF000_0000 <= x < 0x10000_0000
  {
    OctetTexts();
    BlockSizes();
    hide Numeral, Ipv4InCidr, Ipv4ToInt, Pow2;
    Row(ip, "198.51.100.0", [198, 51, 100, 0], 24, 0x100);
    Row(ip, "203.0.113.0", [203, 0, 113, 0], 24, 0x100);
    Row(ip, "224.0.0.0", [224, 0, 0, 0], 4, 0x1000_0000);
    Row(ip, "240.0.0.0", [240, 0, 0, 0], 4, 0x1000_0000);
  }

  /** The table as a union of intervals. */
  predicate Reserved(x: int) {
    || 0 <= x < 0x0100_0000 || 0x0A00_0000 <= x < 0x0B00_0000 || 0x6440_0000 <= x < 0x6480_0000
    || 0x7F00_0000 <= x < 0x8000_0000 || 0xA9FE_0000 <= x < 0xA9FF_0000 || 0xAC10_0000 <= x < 0xAC20_0000
    || 0xC000_0000 <= x < 0xC000_0100 || 0xC000_0200 <= x < 0xC000_0300 || 0xC0A8_0000 <= x < 0xC0A9_0000
    || 0xC612_0000 <= x < 0xC614_0000 || 0xC633_6400 <= x < 0xC633_6500 || 0xCB00_7100 <= x < 0xCB00_7200
    || 0xE000_0000 <= x < 0x1_0000_0000
  }

  lemma BlockedIpv4IsUnion(ip: string)
    ensures IsBlockedIpv4(ip) <==> Reserved(Ipv4ToInt(ip))
  {
    hide Ipv4InCidr, Ipv4ToInt;
    var x := Ipv4ToInt(ip);
    BlocksLow(ip, x);
    BlocksMiddle(ip, x);
    BlocksHigh(ip, x);
  }

  lemma ReservedByOctets(o: seq<nat>)
    requires |o| == 4 && forall i :: 0 <= i < 4 ==> o[i] < 256
    ensures Reserved(QuadValue(o)) <==> ReservedQuad(o)
  {
  }

  /** `isBlockedIpv4` says yes to exactly the reserved blocks, for every spelling of every four octets. */
  lemma BlockedIpv4Exactly(parts: seq<string>, o: seq<nat>)
    requires SpellsQuad(parts, o)
    ensures IsBlockedIpv4(Join(parts, '.')) <==> ReservedQuad(o)
  {
    hide IsBlockedIpv4, Ipv4ToInt, Join, Reserved, ReservedQuad, Spells;
    Ipv4Value(parts, o);
    BlockedIpv4IsUnion(Join(parts, '.'));
    ReservedByOctets(o);
  }

  // ----- IPv6 -----

  /** Hexadecimal texts, in either case and with any leading zeros, for 16-bit groups. */
  ghost predicate SpellsGroups(parts: seq<string>, g: seq<nat>) {
    |parts| == |g| && Below(g, 0x1_0000) && forall i :: 0 <= i < |g| ==> Spells(parts[i], g[i], 16)
  }

  lemma {:induction false} FoldIsPositional(acc: nat, parts: seq<string>, g: seq<nat>)
    requires SpellsGroups(parts, g)
    ensures FoldGroups(acc, parts) == Some(acc * Weight(0x1_0000, |g|) + Positional(g, 0x1_0000))
    decreases |g|
  {
    hide ParseInt, Digits, AllDigits;
    if g != [] {
      assert Spells(parts[0], g[0], 16);
      SpelledParses(parts[0], g[0], 16);
      var w := Weight(0x1_0000, |g| - 1);
      FoldIsPositional(acc * 0x1_0000 + g[0], parts[1..], g[1..]);
      assert (acc * 0x1_0000 + g[0]) * w == acc * (0x1_0000 * w) + g[0] * w by { Distributes(acc, g[0], w); }
    }
  }

  lemma Distributes(a: int, d: int, w: int)
    ensures (a * 0x1_0000 + d) * w == a * (0x1_0000 * w) + d * w
  {
  }

  lemma GroupsArePlain(parts: seq<string>, g: seq<nat>)
    requires SpellsGroups(parts, g)
    ensures forall p :: p in parts ==> p != "" && ':' !in p && '.' !in p
  {
    hide Digits, AllDigits;
    forall p | p in parts
      ensures p != "" && ':' !in p && '.' !in p
    {
      var i :| 0 <= i < |parts| && parts[i] == p;
      SpelledPlain(p, g[i], 16, ':');
      SpelledPlain(p, g[i], 16, '.');
    }
  }

  lemma LowerSpells(parts: seq<string>, g: seq<nat>)
    requires SpellsGroups(parts, g)
    ensures SpellsGroups(LowerAll(parts), g)
  {
    hide Spells;
    forall i | 0 <= i < |g|
      ensures Spells(LowerAll(parts)[i], g[i], 16)
    {
      SpelledLower(parts[i], g[i], 16);
    }
  }

  lemma PiecesOfJoin(parts: seq<string>, g: seq<nat>)
    requires SpellsGroups(parts, g)
    ensures Pieces(Join(parts, ':')) == parts && Tidy(Join(parts, ':'))
  {
    assert parts == [] ==> Join(parts, ':') == "";
    hide Split, Join, Tidy;
    GroupsArePlain(parts, g);
    JoinIsTidy(parts);
    if parts != [] {
      SplitUndoesJoin(parts, ':');
      NonEmptyKeeps(parts);
    }
  }

  /** The text of some leading and some trailing groups around "::". */
  function Compressed(head: seq<string>, tail: seq<string>): string {
    Join(head, ':') + "::" + Join(tail, ':')
  }

  lemma ZerosSpell(n: nat)
    ensures SpellsGroups(Zeros(n), NoGroups(n))
  {
    ShortDigits("0", 16);
  }

  lemma ShortDigits(s: string, radix: nat)
    requires |s| == 1 && AllDigits(s, radix)
    ensures Digits(s, radix) == DigitValue(s[0])
  {
    assert s[..0] == "";
  }

  lemma OnePartPerGroup(parts: seq<string>, g: seq<nat>)
    requires SpellsGroups(parts, g)
    ensures |parts| == |g|
  {
  }

  lemma ParsesHalves(ip: string, a: string, b: string, head: seq<string>, tail: seq<string>)
    requires Split(Lower(ip), "::") == [a, b] && Pieces(a) == head && Pieces(b) == tail && |head| + |tail| <= 8
    ensures Ipv6ToBigInt(ip) == FoldGroups(0, head + Zeros(8 - |head| - |tail|) + tail)
  {
    hide Split, Pieces, FoldGroups;
  }

  lemma SplitCompressed(head: seq<string>, tail: seq<string>)
    requires Tidy(Join(head, ':')) && Tidy(Join(tail, ':'))
    ensures Split(Compressed(head, tail), "::") == [Join(head, ':'), Join(tail, ':')]
  {
    hide Join, Split, Tidy;
    SplitAtGap(Join(head, ':'), Join(tail, ':'));
  }

  /** Parsing the compressed form fills the gap with zero groups. */
  lemma CompressedParses(head: seq<string>, h: seq<nat>, tail: seq<string>, t: seq<nat>)
    requires SpellsGroups(head, h) && SpellsGroups(tail, t) && |h| + |t| <= 8
    ensures Ipv6ToBigInt(Compressed(head, tail)) == Some(Positional(h + NoGroups(8 - |h| - |t|) + t, 0x1_0000))
  {
    hide Join, Split, Pieces, SpellsGroups, FoldGroups, Positional, Tidy, Lower, Compressed, Ipv6ToBigInt;
    OnePartPerGroup(head, h);
    OnePartPerGroup(tail, t);
    var head', tail' := LowerAll(head), LowerAll(tail);
    LowerSpells(head, h);
    LowerSpells(tail, t);
    LowerCompressed(head, tail);
    PiecesOfJoin(head', h);
    PiecesOfJoin(tail', t);
    SplitCompressed(head', tail');
    ParsesHalves(Compressed(head, tail), Join(head', ':'), Join(tail', ':'), head', tail');
    FilledFolds(head', h, tail', t);
  }

  lemma FilledFolds(head: seq<string>, h: seq<nat>, tail: seq<string>, t: seq<nat>)
    requires SpellsGroups(head, h) && SpellsGroups(tail, t) && |h| + |t| <= 8
    ensures var fill := 8 - |h| - |t|;
            FoldGroups(0, head + Zeros(fill) + tail) == Some(Positional(h + NoGroups(fill) + t, 0x1_0000))
  {
    hide SpellsGroups, FoldGroups, Positional;
    var fill := 8 - |h| - |t|;
    ZerosSpell(fill);
    AppendSpells(head, h, Zeros(fill), NoGroups(fill));
    AppendSpells(head + Zeros(fill), h + NoGroups(fill), tail, t);
    FoldIsPositional(0, head + Zeros(fill) + tail, h + NoGroups(fill) + t);
  }

  lemma AppendSpells(a: seq<string>, g: seq<nat>, b: seq<string>, h: seq<nat>)
    requires SpellsGroups(a, g) && SpellsGroups(b, h)
    ensures SpellsGroups(a + b, g + h)
  {
    hide Spells;
  }

  lemma LowerCompressed(head: seq<string>, tail: seq<string>)
    ensures Lower(Compressed(head, tail)) == Compressed(LowerAll(head), LowerAll(tail))
  {
    LowerJoins(head, ':');
    LowerJoins(tail, ':');
    assert Lower(Compressed(head, tail)) == Lower(Join(head, ':')) + "::" + Lower(Join(tail, ':'));
  }

  /** Round trip (section 2.2 of RFC 4291): eight groups, each spelled in hexadecimal, any run of zeros as "::". */
  lemma Ipv6RoundTrip(g: seq<nat>, parts: seq<string>, i: nat, j: nat)
    requires |g| == 8 && SpellsGroups(parts, g) && i <= j <= 8 && forall k :: i <= k < j ==> g[k] == 0
    ensures Ipv6ToBigInt(Join(parts, ':')) == Some(Positional(g, 0x1_0000))
    ensures Ipv6ToBigInt(Compressed(parts[..i], parts[j..])) == Some(Positional(g, 0x1_0000))
    ensures Positional(g, 0x1_0000) < Pow2(128)
  {
    hide Join, Compressed, Split, Pieces, Spells, FoldGroups, Positional, Tidy, Pow2;
    CompressedParses(parts[..i], g[..i], parts[j..], g[j..]);
    assert g[..i] + NoGroups(8 - |g[..i]| - |g[j..]|) + g[j..] == g;
    FullFormParses(g, parts);
    PositionalBound(g, 0x1_0000);
    WeightIsPower(8);
  }

  lemma FullFormParses(g: seq<nat>, parts: seq<string>)
    requires |g| == 8 && SpellsGroups(parts, g)
    ensures Ipv6ToBigInt(Join(parts, ':')) == Some(Positional(g, 0x1_0000))
  {
    hide Join, Split, Pieces, Spells, FoldGroups, Positional, Tidy;
    var parts' := LowerAll(parts);
    LowerSpells(parts, g);
    LowerJoins(parts, ':');
    PiecesOfJoin(parts', g);
    TidyHasNoGap(Join(parts', ':'));
    FoldIsPositional(0, parts', g);
    assert parts' + Zeros(0) + [] == parts';
  }

  lemma WeightIsPower(n: nat)
    ensures Weight(0x1_0000, n) == Pow2(16 * n)
  {
    if n > 0 {
      WeightIsPower(n - 1);
      Pow2Splits(16, 16 * (n - 1));
      PowersOfTwo();
    }
  }

  lemma OneLess(a: int, b: int)
    ensures (a - 1) * b == a * b - b
  {
  }

  lemma Ipv6MaskIsDifference(bits: nat)
    requires bits <= 128
    ensures Ipv6Mask(bits) == Pow2(128) - Pow2(128 - bits)
  {
    hide Pow2;
    Pow2Splits(bits, 128 - bits);
    OneLess(Pow2(bits), Pow2(128 - bits));
  }

  /** The mask test on 128-bit values decides membership in the aligned interval of size 2^(128 - bits). */
  lemma Ipv6CidrIsInterval(value: int, base: string, b: int, bits: nat)
    requires bits <= 128 && Ipv6ToBigInt(base) == Some(b) && 0 <= value < Pow2(128) && 0 <= b < Pow2(128)
    ensures Ipv6InCidr(value, base, bits) <==> InAligned(value, b, Pow2(128 - bits))
    ensures Ipv6InCidr(value, base, bits) <==> value / Pow2(128 - bits) == b / Pow2(128 - bits)
  {
    hide Pow2, And, Ipv6Mask, InAligned, Ipv6ToBigInt;
    Ipv6MaskIsDifference(bits);
    AndMask(value, 128, 128 - bits);
    AndMask(b, 128, 128 - bits);
    assert value % Pow2(128) == value && b % Pow2(128) == b by {
      EuclidUnique(value, Pow2(128), 0, value);
      EuclidUnique(b, Pow2(128), 0, b);
    }
    EqualAfterClearing(value, b, Pow2(128 - bits));
    AlignedIsQuotient(value, b, Pow2(128 - bits));
  }

  /** A prefix of whole groups matches when those groups are the same. */
  lemma WholeGroups(g: seq<nat>, b: seq<nat>, m: nat, base: string)
    requires |g| == |b| == 8 && Below(g, 0x1_0000) && Below(b, 0x1_0000) && m <= 8
    requires Ipv6ToBigInt(base) == Some(Positional(b, 0x1_0000))
    ensures Ipv6InCidr(Positional(g, 0x1_0000), base, 16 * m) <==> g[..m] == b[..m]
  {
    hide Pow2, Positional, Weight, Ipv6InCidr, Ipv6ToBigInt;
    PositionalBound(g, 0x1_0000);
    PositionalBound(b, 0x1_0000);
    WeightIsPower(8);
    Ipv6CidrIsInterval(Positional(g, 0x1_0000), base, Positional(b, 0x1_0000), 16 * m);
    WeightIsPower(8 - m);
    LeadingDigits(g, m, 0x1_0000);
    LeadingDigits(b, m, 0x1_0000);
    if Positional(g[..m], 0x1_0000) == Positional(b[..m], 0x1_0000) {
      PositionalInjective(g[..m], b[..m], 0x1_0000);
    }
  }

  /** A prefix inside the first group matches when the first groups agree above the lower digits. */
  lemma InsideFirstGroup(g: seq<nat>, b: seq<nat>, bits: nat, base: string)
    requires |g| == |b| == 8 && Below(g, 0x1_0000) && Below(b, 0x1_0000) && bits <= 16
    requires Ipv6ToBigInt(base) == Some(Positional(b, 0x1_0000))
    ensures Ipv6InCidr(Positional(g, 0x1_0000), base, bits) <==> g[0] / Pow2(16 - bits) == b[0] / Pow2(16 - bits)
  {
    hide Pow2, Positional, Weight, Ipv6InCidr, Ipv6ToBigInt;
    PositionalBound(g, 0x1_0000);
    PositionalBound(b, 0x1_0000);
    WeightIsPower(8);
    Ipv6CidrIsInterval(Positional(g, 0x1_0000), base, Positional(b, 0x1_0000), bits);
    WeightIsPower(7);
    Pow2Splits(112, 16 - bits);
    PositionalHead(g, 0x1_0000);
    PositionalHead(b, 0x1_0000);
    QuotientTwice(Positional(g, 0x1_0000), Pow2(112), Pow2(16 - bits));
    QuotientTwice(Positional(b, 0x1_0000), Pow2(112), Pow2(16 - bits));
  }

  lemma QuotientTwice(x: int, m: nat, n: nat)
    requires m > 0 && n > 0
    ensures m * n > 0 && x / (m * n) == (x / m) / n
  {
    var q, r := x / m, x % m;
    var p, t := q / n, q % n;
    assert x == m * q + r && q == n * p + t;
    assert m * (n * p + t) == (m * n) * p + m * t by { SplitProduct(m, n, p, t); }
    assert m * t + r < m * n by { DigitBound(t, n, m, r); }
    EuclidUnique(x, m * n, p, m * t + r);
  }

  lemma SplitProduct(m: int, n: int, p: int, t: int)
    ensures m * (n * p + t) == (m * n) * p + m * t
  {
  }

  /** The blocked IPv6 addresses, group by group. */
  predicate ReservedGroups(g: seq<nat>)
    requires |g| == 8
  {
    || g == [0, 0, 0, 0, 0, 0, 0, 0]
    || g == [0, 0, 0, 0, 0, 0, 0, 1]
    || g[..6] == [0, 0, 0, 0, 0, 0xFFFF]
    || g[..6] == [0x64, 0xFF9B, 0, 0, 0, 0]
    || 0xFC00 <= g[0] < 0xFE00
    || 0xFE80 <= g[0] < 0xFEC0
    || 0xFF00 <= g[0] < 0x1_0000
    || g[..2] == [0x2001, 0xDB8]
  }

  function AllNumerals(g: seq<nat>): (r: seq<string>)
    ensures |r| == |g| && forall i :: 0 <= i < |g| ==> r[i] == Numeral(g[i], 16)
  {
    seq(|g|, i requires 0 <= i < |g| => Numeral(g[i], 16))
  }

  lemma BaseParses(h: seq<nat>, t: seq<nat>)
    requires Below(h, 0x1_0000) && Below(t, 0x1_0000) && |h| + |t| <= 8
    ensures Ipv6ToBigInt(Compressed(AllNumerals(h), AllNumerals(t)))
            == Some(Positional(h + NoGroups(8 - |h| - |t|) + t, 0x1_0000))
  {
    hide Spells, Numeral;
    forall i | 0 <= i < |h|
      ensures Spells(AllNumerals(h)[i], h[i], 16)
    {
      NumeralSpells(h[i], 16);
    }
    forall i | 0 <= i < |t|
      ensures Spells(AllNumerals(t)[i], t[i], 16)
    {
      NumeralSpells(t[i], 16);
    }
    CompressedParses(AllNumerals(h), h, AllNumerals(t), t);
  }

  lemma WholeBases()
    ensures Ipv6ToBigInt("::") == Some(Positional([0, 0, 0, 0, 0, 0, 0, 0], 0x1_0000))
    ensures Ipv6ToBigInt("::1") == Some(Positional([0, 0, 0, 0, 0, 0, 0, 1], 0x1_0000))
    ensures Ipv6ToBigInt("::ffff:0:0") == Some(Positional([0, 0, 0, 0, 0, 0xFFFF, 0, 0], 0x1_0000))
    ensures Ipv6ToBigInt("64:ff9b::") == Some(Positional([0x64, 0xFF9B, 0, 0, 0, 0, 0, 0], 0x1_0000))
    ensures Ipv6ToBigInt("2001:db8::") == Some(Positional([0x2001, 0xDB8, 0, 0, 0, 0, 0, 0], 0x1_0000))
  {
    BaseTexts();
    hide AllNumerals, Compressed, Ipv6ToBigInt, Positional;
    BaseParses([], []);
    BaseParses([], [1]);
    BaseParses([], [0xFFFF, 0, 0]);
    BaseParses([0x64, 0xFF9B], []);
    BaseParses([0x2001, 0xDB8], []);
    assert [] + NoGroups(8) + [] == [0, 0, 0, 0, 0, 0, 0, 0];
    assert [] + NoGroups(7) + [1] == [0, 0, 0, 0, 0, 0, 0, 1];
    assert [] + NoGroups(5) + [0xFFFF, 0, 0] == [0, 0, 0, 0, 0, 0xFFFF, 0, 0];
    assert [0x64, 0xFF9B] + NoGroups(6) + [] == [0x64, 0xFF9B, 0, 0, 0, 0, 0, 0];
    assert [0x2001, 0xDB8] + NoGroups(6) + [] == [0x2001, 0xDB8, 0, 0, 0, 0, 0, 0];
  }

  lemma FirstBase(first: nat)
    requires first < 0x1_0000
    ensures Ipv6ToBigInt(Compressed(AllNumerals([first]), AllNumerals([])))
            == Some(Positional([first, 0, 0, 0, 0, 0, 0, 0], 0x1_0000))
  {
    hide AllNumerals, Compressed, Ipv6ToBigInt, Positional;
    BaseParses([first], []);
    assert [first] + NoGroups(7) + [] == [first, 0, 0, 0, 0, 0, 0, 0];
  }

  lemma GroupTexts()
    ensures Numeral(0, 16) == "0" && Numeral(1, 16) == "1" && Numeral(0xFFFF, 16) == "ffff" && Numeral(0x64, 16) == "64"
    ensures Numeral(0xFF9B, 16) == "ff9b" && Numeral(0xFC00, 16) == "fc00" && Numeral(0xFE80, 16) == "fe80"
    ensures Numeral(0xFF00, 16) == "ff00" && Numeral(0x2001, 16) == "2001" && Numeral(0xDB8, 16) == "db8"
  {
  }

  lemma BaseTexts()
    ensures Compressed(AllNumerals([]), AllNumerals([])) == "::"
    ensures Compressed(AllNumerals([]), AllNumerals([1])) == "::1"
    ensures Compressed(AllNumerals([]), AllNumerals([0xFFFF, 0, 0])) == "::ffff:0:0"
    ensures Compressed(AllNumerals([0x64, 0xFF9B]), AllNumerals([])) == "64:ff9b::"
    ensures Compressed(AllNumerals([0xFC00]), AllNumerals([])) == "fc00::"
    ensures Compressed(AllNumerals([0xFE80]), AllNumerals([])) == "fe80::"
    ensures Compressed(AllNumerals([0xFF00]), AllNumerals([])) == "ff00::"
    ensures Compressed(AllNumerals([0x2001, 0xDB8]), AllNumerals([])) == "2001:db8::"
  {
    GroupTexts();
    hide Numeral;
    assert AllNumerals([0xFFFF, 0, 0])[1..] == ["0", "0"];
    assert AllNumerals([0x64, 0xFF9B])[1..] == ["ff9b"];
    assert AllNumerals([0x2001, 0xDB8])[1..] == ["db8"];
    assert ["0", "0"][1..] == ["0"];
  }

  /** Hexadecimal text has no dotted quad in it. */
  lemma NotMapped(ip: string)
    requires '.' !in ip
    ensures Mapped(ip) == None
  {
    var lower := Lower(ip);
    if "::ffff:" <= lower {
      var rest := lower[7..];
      assert forall c :: c in rest ==> c in lower;
      forall i | 0 <= i < |rest|
        ensures !("." <= rest[i..])
      {
        assert rest[i] == LowerChar(ip[7 + i]) && ip[7 + i] in ip;
        assert rest[i..][0] == rest[i];
      }
      IndexOfAbsent(rest, ".");
    }
  }

  lemma JoinHasNoDot(parts: seq<string>)
    requires forall p :: p in parts ==> '.' !in p
    ensures '.' !in Join(parts, ':')
  {
    if parts != [] {
      assert parts[0] in parts;
      JoinHasNoDot(parts[1..]);
    }
  }

  /** One row of the table whose prefix is `m` whole groups. */
  lemma WholeRow(g: seq<nat>, prefix: seq<nat>, b: seq<nat>, m: nat, base: string)
    requires |g| == |b| == 8 && Below(g, 0x1_0000) && Below(b, 0x1_0000) && m <= 8 && b[..m] == prefix
    requires Ipv6ToBigInt(base) == Some(Positional(b, 0x1_0000))
    ensures Ipv6InCidr(Positional(g, 0x1_0000), base, 16 * m) <==> g[..m] == prefix
  {
    hide Ipv6InCidr, Ipv6ToBigInt, Positional;
    WholeGroups(g, b, m, base);
  }

  lemma WholeRows(g: seq<nat>, v: int)
    requires |g| == 8 && Below(g, 0x1_0000) && v == Positional(g, 0x1_0000)
    ensures Ipv6InCidr(v, "::", 128) <==> g == [0, 0, 0, 0, 0, 0, 0, 0]
    ensures Ipv6InCidr(v, "::1", 128) <==> g == [0, 0, 0, 0, 0, 0, 0, 1]
    ensures Ipv6InCidr(v, "::ffff:0:0", 96) <==> g[..6] == [0, 0, 0, 0, 0, 0xFFFF]
    ensures Ipv6InCidr(v, "64:ff9b::", 96) <==> g[..6] == [0x64, 0xFF9B, 0, 0, 0, 0]
    ensures Ipv6InCidr(v, "2001:db8::", 32) <==> g[..2] == [0x2001, 0xDB8]
  {
    WholeBases();
    hide Ipv6InCidr, Ipv6ToBigInt, Positional;
    assert g[..8] == g;
    WholeRow(g, [0, 0, 0, 0, 0, 0, 0, 0], [0, 0, 0, 0, 0, 0, 0, 0], 8, "::");
    WholeRow(g, [0, 0, 0, 0, 0, 0, 0, 1], [0, 0, 0, 0, 0, 0, 0, 1], 8, "::1");
    WholeRow(g, [0, 0, 0, 0, 0, 0xFFFF], [0, 0, 0, 0, 0, 0xFFFF, 0, 0], 6, "::ffff:0:0");
    WholeRow(g, [0x64, 0xFF9B, 0, 0, 0, 0], [0x64, 0xFF9B, 0, 0, 0, 0, 0, 0], 6, "64:ff9b::");
    WholeRow(g, [0x2001, 0xDB8], [0x2001, 0xDB8, 0, 0, 0, 0, 0, 0], 2, "2001:db8::");
  }

  /** One row of the table whose prefix ends inside the first group. */
  lemma FirstRow(g: seq<nat>, first: nat, bits: nat, size: nat, base: string)
    requires |g| == 8 && Below(g, 0x1_0000) && first < 0x1_0000
    requires bits <= 16 && Pow2(16 - bits) == size && first % size == 0
    requires base == Compressed(AllNumerals([first]), AllNumerals([]))
    ensures Ipv6InCidr(Positional(g, 0x1_0000), base, bits) <==> first <= g[0] < first + size
  {
    hide Ipv6InCidr, Ipv6ToBigInt, Positional, Pow2, Compressed, AllNumerals;
    FirstBase(first);
    InsideFirstGroup(g, [first, 0, 0, 0, 0, 0, 0, 0], bits, base);
    AlignedIsQuotient(g[0], first, size);
  }

  lemma FirstRows(g: seq<nat>, v: int)
    requires |g| == 8 && Below(g, 0x1_0000) && v == Positional(g, 0x1_0000)
    ensures Ipv6InCidr(v, "fc00::", 7) <==> 0xFC00 <= g[0] < 0xFE00
    ensures Ipv6InCidr(v, "fe80::", 10) <==> 0xFE80 <= g[0] < 0xFEC0
    ensures Ipv6InCidr(v, "ff00::", 8) <==> 0xFF00 <= g[0] < 0x1_0000
  {
    SmallPowers();
    BaseTexts();
    hide Ipv6InCidr, Positional, Pow2, Compressed, AllNumerals;
    FirstRow(g, 0xFC00, 7, 512, "fc00::");
    FirstRow(g, 0xFE80, 10, 64, "fe80::");
    FirstRow(g, 0xFF00, 8, 256, "ff00::");
  }

  lemma SmallPowers()
    ensures Pow2(6) == 64 && Pow2(8) == 256 && Pow2(9) == 512
  {
    assert Pow2(6) == 64;
  }

  lemma BlockedByGroups(ip: string, g: seq<nat>)
    requires |g| == 8 && Below(g, 0x1_0000) && Mapped(ip) == None && Ipv6ToBigInt(ip) == Some(Positional(g, 0x1_0000))
    ensures IsBlockedIpv6(ip) <==> ReservedGroups(g)
  {
    hide Ipv6InCidr, Ipv6ToBigInt, Positional, Mapped;
    WholeRows(g, Positional(g, 0x1_0000));
    FirstRows(g, Positional(g, 0x1_0000));
  }

  /** `isBlockedIpv6` says yes to exactly the reserved groups, however the eight groups are written. */
  lemma BlockedIpv6Exactly(g: seq<nat>, parts: seq<string>, i: nat, j: nat)
    requires |g| == 8 && SpellsGroups(parts, g) && i <= j <= 8 && forall k :: i <= k < j ==> g[k] == 0
    ensures IsBlockedIpv6(Join(parts, ':')) <==> ReservedGroups(g)
    ensures IsBlockedIpv6(Compressed(parts[..i], parts[j..])) <==> ReservedGroups(g)
  {
    hide Ipv6ToBigInt, Join, IsBlockedIpv6, Positional, Spells, ReservedGroups, Mapped;
    Ipv6RoundTrip(g, parts, i, j);
    GroupsArePlain(parts, g);
    JoinHasNoDot(parts);
    JoinHasNoDot(parts[..i]);
    JoinHasNoDot(parts[j..]);
    NotMapped(Join(parts, ':'));
    NotMapped(Compressed(parts[..i], parts[j..]));
    BlockedByGroups(Join(parts, ':'), g);
    BlockedByGroups(Compressed(parts[..i], parts[j..]), g);
  }

  /** An IPv4 address written in the mapped form is blocked exactly when the IPv4 address is. */
  lemma BlockedMappedExactly(parts: seq<string>, o: seq<nat>, prefix: string)
    requires SpellsQuad(parts, o) && Lower(prefix) == "::ffff:"
    ensures IsBlockedIpv6(prefix + Join(parts, '.')) <==> ReservedQuad(o)
  {
    hide Spells, IsBlockedIpv4, ReservedQuad, Ipv6ToBigInt, Join, Split;
    var ip, quad := prefix + Join(parts, '.'), Join(parts, '.');
    QuadIsItself(parts, o);
    assert Lower(ip) == Lower(prefix) + Lower(quad);
    assert Lower(ip)[7..] == quad;
    BlockedIpv4Exactly(parts, o);
  }

  lemma QuadIsItself(parts: seq<string>, o: seq<nat>)
    requires SpellsQuad(parts, o)
    ensures Lower(Join(parts, '.')) == Join(parts, '.') && IsDottedQuad(Join(parts, '.'))
  {
    hide Digits, Join, Split;
    forall p | p in parts
      ensures '.' !in p && p != "" && AllDigits(p, 10) && Lower(p) == p
    {
      var i :| 0 <= i < 4 && parts[i] == p;
      SpelledPlain(p, o[i], 10, '.');
      assert forall k :: 0 <= k < |p| ==> p[k] in p;
    }
    SplitUndoesJoin(parts, '.');
    LowerJoins(parts, '.');
    assert LowerAll(parts) == parts;
  }
}
