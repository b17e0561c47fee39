/** The inline arithmetic of the libbson headers: ObjectIds, byte order and powers of two. */
module LibBson {

  // ---------- ObjectIds ----------

  /** The twelve bytes of an ObjectId. */
  type Oid = s: seq<bv8> | |s| == 12 witness seq(12, _ => 0)

  /** memcmp: the sign of the first difference between unsigned bytes. */
  function MemCmp(a: seq<bv8>, b: seq<bv8>): int
    requires |a| == |b|
  {
    if a == [] then 0
    else if a[0] < b[0] then -1
    else if a[0] > b[0] then 1
    else MemCmp(a[1..], b[1..])
  }

  function Compare(a: Oid, b: Oid): int {
    MemCmp(a, b)
  }

  /** bson_oid_equal_unsafe. */
  predicate Equal(a: Oid, b: Oid) {
    MemCmp(a, b) == 0
  }

  /** __bson_uint32_swap_slow. */
  function Swap32(v: bv32): bv32 {
    ((v & 0x0000_00FF) << 24) | ((v & 0x0000_FF00) << 8) | ((v & 0x00FF_0000) >> 8) | ((v & 0xFF00_0000) >> 24)
  }

  function Swap16(v: bv16): bv16 {
    ((v & 0x00FF) << 8) | ((v & 0xFF00) >> 8)
  }

  function Swap64(v: bv64): bv64 {
    ((v & 0x0000_0000_0000_00FF) << 56) |
    ((v & 0x0000_0000_0000_FF00) << 40) |
    ((v & 0x0000_0000_00FF_0000) << 24) |
    ((v & 0x0000_0000_FF00_0000) << 8) |
    ((v & 0x0000_00FF_0000_0000) >> 8) |
    ((v & 0x0000_FF00_0000_0000) >> 24) |
    ((v & 0x00FF_0000_0000_0000) >> 40) |
    ((v & 0xFF00_0000_0000_0000) >> 56)
  }

  /** What a little-endian machine finds in a uint32_t after memcpy of four bytes. */
  function LoadLE(b0: bv8, b1: bv8, b2: bv8, b3: bv8): bv32 {
    (b0 as bv32) | ((b1 as bv32) << 8) | ((b2 as bv32) << 16) | ((b3 as bv32) << 24)
  }

  function LoadBE(b0: bv8, b1: bv8, b2: bv8, b3: bv8): bv32 {
    LoadLE(b3, b2, b1, b0)
  }

  /** bson_oid_get_time_t_unsafe on a little-endian machine. */
  function Time(oid: Oid): bv32 {
    Swap32(LoadLE(oid[0], oid[1], oid[2], oid[3]))
  }

  /** Swapping is its own inverse at every width. */
  lemma {:induction false} SwapTwice(u: bv16, v: bv32, w: bv64)
    ensures Swap16(Swap16(u)) == u && Swap32(Swap32(v)) == v && Swap64(Swap64(w)) == w
  {
  }

  /** The 64-bit swap swaps the halves and each of them. */
  lemma {:induction false} Swap64ByHalves(v: bv64)
    ensures Swap64(v) == ((Swap32((v & 0xFFFF_FFFF) as bv32) as bv64) << 32) | (Swap32((v >> 32) as bv32) as bv64)
  {
  }

  /** The bytes of a word change places. */
  lemma {:induction false} SwapsBytes(hi: bv8, lo: bv8, b3: bv8, b2: bv8, b1: bv8, b0: bv8)
    ensures Swap16(((hi as bv16) << 8) | (lo as bv16)) == ((lo as bv16) << 8) | (hi as bv16)
    ensures Swap32(((b3 as bv32) << 24) | ((b2 as bv32) << 16) | ((b1 as bv32) << 8) | (b0 as bv32))
         == ((b0 as bv32) << 24) | ((b1 as bv32) << 16) | ((b2 as bv32) << 8) | (b3 as bv32)
  {
  }

  /** The time is the first four bytes read most significant first. */
  lemma {:induction false} TimeIsBigEndian(oid: Oid)
    ensures Time(oid) == LoadBE(oid[0], oid[1], oid[2], oid[3])
    ensures Time(oid)
         == ((oid[0] as bv32) << 24) | ((oid[1] as bv32) << 16) | ((oid[2] as bv32) << 8) | (oid[3] as bv32)
  {
  }

  /** Unsigned order, by names that keep the bits out of the proofs built on it. */
  predicate Under(x: bv32, y: bv32) {
    x < y
  }

  // The first byte that differs decides which of two big-endian numbers is less.

  lemma {:induction false} FirstDecides(a0: bv8, a1: bv8, a2: bv8, a3: bv8, b0: bv8, b1: bv8, b2: bv8, b3: bv8)
    ensures a0 < b0 ==> Under(LoadBE(a0, a1, a2, a3), LoadBE(b0, b1, b2, b3))
  {
  }

  lemma {:induction false} SecondDecides(x0: bv8, a1: bv8, a2: bv8, a3: bv8, b1: bv8, b2: bv8, b3: bv8)
    ensures a1 < b1 ==> Under(LoadBE(x0, a1, a2, a3), LoadBE(x0, b1, b2, b3))
  {
  }

  lemma {:induction false} ThirdDecides(x0: bv8, x1: bv8, a2: bv8, a3: bv8, b2: bv8, b3: bv8)
    ensures a2 < b2 ==> Under(LoadBE(x0, x1, a2, a3), LoadBE(x0, x1, b2, b3))
  {
  }

  lemma {:induction false} FourthDecides(x0: bv8, x1: bv8, x2: bv8, a3: bv8, b3: bv8)
    ensures a3 < b3 ==> Under(LoadBE(x0, x1, x2, a3), LoadBE(x0, x1, x2, b3))
  {
  }

  lemma {:induction false} MemCmpStep(a: seq<bv8>, b: seq<bv8>, k: nat)
    requires |a| == |b| && k < |a| && (forall i | 0 <= i < k :: a[i] == b[i])
    ensures MemCmp(a, b) == MemCmp(a[k..], b[k..])
    ensures a[k] < b[k] ==> MemCmp(a, b) < 0
    ensures a[k] > b[k] ==> MemCmp(a, b) > 0
  {
    if k > 0 {
      MemCmpStep(a[1..], b[1..], k - 1);
      assert a[1..][k - 1..] == a[k..] && b[1..][k - 1..] == b[k..];
    } else {
      assert a[0..] == a && b[0..] == b;
    }
  }

  /** The comparison says what the times say, unless these are equal. */
  ghost predicate TimeDecides(a: Oid, b: Oid) {
    || (Under(Time(a), Time(b)) && Compare(a, b) < 0)
    || (Under(Time(b), Time(a)) && Compare(a, b) > 0)
    || Time(a) == Time(b)
  }

  lemma {:induction false} FirstDiffers(a: Oid, b: Oid)
    requires a[0] != b[0]
    ensures TimeDecides(a, b)
  {
    hide LoadBE, Time, MemCmp, Under;
    TimeIsBigEndian(a);
    TimeIsBigEndian(b);
    MemCmpStep(a, b, 0);
    FirstDecides(a[0], a[1], a[2], a[3], b[0], b[1], b[2], b[3]);
    FirstDecides(b[0], b[1], b[2], b[3], a[0], a[1], a[2], a[3]);
  }

  lemma {:induction false} SecondDiffers(a: Oid, b: Oid)
    requires a[0] == b[0] && a[1] != b[1]
    ensures TimeDecides(a, b)
  {
    hide LoadBE, Time, MemCmp, Under;
    TimeIsBigEndian(a);
    TimeIsBigEndian(b);
    MemCmpStep(a, b, 1);
    SecondDecides(a[0], a[1], a[2], a[3], b[1], b[2], b[3]);
    SecondDecides(a[0], b[1], b[2], b[3], a[1], a[2], a[3]);
  }

  lemma {:induction false} ThirdDiffers(a: Oid, b: Oid)
    requires a[0] == b[0] && a[1] == b[1] && a[2] != b[2]
    ensures TimeDecides(a, b)
  {
    hide LoadBE, Time, MemCmp, Under;
    TimeIsBigEndian(a);
    TimeIsBigEndian(b);
    MemCmpStep(a, b, 2);
    ThirdDecides(a[0], a[1], a[2], a[3], b[2], b[3]);
    ThirdDecides(a[0], a[1], b[2], b[3], a[2], a[3]);
  }

  lemma {:induction false} FourthAtMostDiffers(a: Oid, b: Oid)
    requires a[0] == b[0] && a[1] == b[1] && a[2] == b[2]
    ensures TimeDecides(a, b)
  {
    hide LoadBE, Time, MemCmp, Under;
    TimeIsBigEndian(a);
    TimeIsBigEndian(b);
    MemCmpStep(a, b, 3);
    FourthDecides(a[0], a[1], a[2], a[3], b[3]);
    FourthDecides(a[0], a[1], a[2], b[3], a[3]);
  }

  lemma {:induction false} UnderIsAsymmetric(x: bv32, y: bv32)
    ensures x <= y <==> !Under(y, x)
    ensures Under(x, y) ==> !Under(y, x)
    ensures x < y <==> Under(x, y)
  {
  }

  /** Ordering by ObjectId refines ordering by creation time: an earlier time alone decides. */
  lemma {:induction false} OrderRefinesTime(a: Oid, b: Oid)
    ensures Compare(a, b) <= 0 ==> Time(a) <= Time(b)
    ensures Time(a) < Time(b) ==> Compare(a, b) < 0
  {
    hide Time, MemCmp, Under;
    assert TimeDecides(a, b) by {
      hide TimeDecides;
      if a[0] != b[0] { FirstDiffers(a, b); }
      else if a[1] != b[1] { SecondDiffers(a, b); }
      else if a[2] != b[2] { ThirdDiffers(a, b); }
      else { FourthAtMostDiffers(a, b); }
    }
    UnderIsAsymmetric(Time(a), Time(b));
    UnderIsAsymmetric(Time(b), Time(a));
  }

  lemma {:induction false} MemCmpIsZeroOnlyForEqual(a: seq<bv8>, b: seq<bv8>)
    requires |a| == |b|
    ensures MemCmp(a, b) == 0 <==> a == b
    ensures MemCmp(a, b) == -MemCmp(b, a)
  {
    if a == [] {
    } else {
      MemCmpIsZeroOnlyForEqual(a[1..], b[1..]);
      assert a == [a[0]] + a[1..] && b == [b[0]] + b[1..];
    }
  }

  lemma {:induction false} FirstDifference(a: seq<bv8>, b: seq<bv8>) returns (k: nat)
    requires |a| == |b| && a != b
    ensures k < |a| && a[..k] == b[..k] && a[k] != b[k]
  {
    if a[0] != b[0] {
      k := 0;
    } else {
      assert a == [a[0]] + a[1..] && b == [b[0]] + b[1..];
      var m := FirstDifference(a[1..], b[1..]);
      k := m + 1;
      assert a[..k] == [a[0]] + a[1..][..m] && b[..k] == [b[0]] + b[1..][..m];
    }
  }

  /** The first of all twelve bytes that differs decides, and only equal ObjectIds compare equal. */
  lemma {:induction false} ComparesAllBytes(a: Oid, b: Oid)
    ensures Compare(a, b) == 0 <==> a == b
    ensures Compare(a, b) < 0 <==> exists k :: 0 <= k < 12 && a[..k] == b[..k] && a[k] < b[k]
    ensures Compare(a, b) > 0 <==> Compare(b, a) < 0
    ensures Equal(a, b) <==> a == b
  {
    MemCmpIsZeroOnlyForEqual(a, b);
    if a != b {
      var k := FirstDifference(a, b);
      SamePrefix(a, b, k);
      MemCmpStep(a, b, k);
    }
    forall k | 0 <= k < 12 && a[..k] == b[..k] && a[k] < b[k]
      ensures Compare(a, b) < 0
    {
      SamePrefix(a, b, k);
      MemCmpStep(a, b, k);
    }
  }

  lemma {:induction false} SamePrefix(a: seq<bv8>, b: seq<bv8>, k: nat)
    requires k <= |a| && k <= |b| && a[..k] == b[..k]
    ensures forall i | 0 <= i < k :: a[i] == b[i]
  {
    forall i | 0 <= i < k
      ensures a[i] == b[i]
    {
      assert a[i] == a[..k][i] && b[i] == b[..k][i];
    }
  }

  // ---------- the hash ----------

  const UINT32 := 0x1_0000_0000

  function Pow33(e: nat): nat {
    if e == 0 then 1 else 33 * Pow33(e - 1)
  }

  /** The bytes as digits to the base 33, most significant first. */
  function Digits33(bytes: seq<bv8>): nat {
    if bytes == [] then 0 else 33 * Digits33(bytes[..|bytes| - 1]) + bytes[|bytes| - 1] as int
  }

  /** bson_oid_hash_unsafe: every round is taken modulo 2^32, and so is the shift in it. */
  method Hash(oid: Oid) returns (hash: nat)
    ensures hash == (5381 * Pow33(12) + Digits33(oid)) % 0x1_0000_0000
  {
    hash := 5381;
    var i := 0;
    while i < 12
      invariant 0 <= i <= 12 && hash < UINT32
      invariant hash == (5381 * Pow33(i) + Digits33(oid[..i])) % UINT32
    {
      HashRound(oid, i, hash);
      hash := ((hash * 32) % UINT32 + hash + oid[i] as int) % UINT32;
      i := i + 1;
    }
    assert oid[..12] == oid;
  }

  /** Each further byte multiplies by 33, and so the leading 5381 gets the twelfth power of it. */
  lemma {:induction false} BaseIs33(bytes: seq<bv8>, b: bv8)
    ensures Digits33([]) == 0 && Digits33(bytes + [b]) == 33 * Digits33(bytes) + b as int
    ensures Pow33(12) == 33 * 33 * 33 * 33 * 33 * 33 * 33 * 33 * 33 * 33 * 33 * 33
  {
    var more := bytes + [b];
    assert more[..|more| - 1] == bytes;
    assert Pow33(3) == 33 * 33 * 33 && Pow33(6) == 33 * 33 * 33 * Pow33(3) && Pow33(9) == 33 * 33 * 33 * Pow33(6);
  }

  lemma {:induction false} RoundModulo(whole: nat, b: nat)
    ensures (((whole % UINT32) * 32) % UINT32 + whole % UINT32 + b) % UINT32 == (33 * whole + b) % UINT32
  {
    var h, q := whole % UINT32, whole / UINT32;
    var g, r := (h * 32) % UINT32, (h * 32) / UINT32;
    SameRemainder(33 * whole + b, g + h + b, 33 * q + r);
  }

  lemma {:induction false} SameRemainder(x: nat, y: nat, k: nat)
    requires x == y + k * UINT32
    ensures x % UINT32 == y % UINT32
  {
  }

  lemma {:induction false} HashRound(oid: Oid, i: nat, hash: nat)
    requires i < 12 && hash == (5381 * Pow33(i) + Digits33(oid[..i])) % UINT32
    ensures ((hash * 32) % UINT32 + hash + oid[i] as int) % UINT32
         == (5381 * Pow33(i + 1) + Digits33(oid[..i + 1])) % UINT32
  {
    assert oid[..i + 1][..i] == oid[..i];
    var whole := 5381 * Pow33(i) + Digits33(oid[..i]);
    assert 5381 * Pow33(i + 1) + Digits33(oid[..i + 1]) == 33 * whole + oid[i] as int;
    RoundModulo(whole, oid[i] as int);
  }

  // ---------- hexadecimal ----------

  /** bson_oid_parse_hex_char: whatever is not a digit counts as zero. */
  function HexDigit(c: char): bv8 {
    match c
    case '0' => 0
    case '1' => 1
    case '2' => 2
    case '3' => 3
    case '4' => 4
    case '5' => 5
    case '6' => 6
    case '7' => 7
    case '8' => 8
    case '9' => 9
    case 'a' | 'A' => 0xa
    case 'b' | 'B' => 0xb
    case 'c' | 'C' => 0xc
    case 'd' | 'D' => 0xd
    case 'e' | 'E' => 0xe
    case 'f' | 'F' => 0xf
    case _ => 0
  }

  const LOWER := "0123456789abcdef"
  const UPPER := "0123456789ABCDEF"

  /** The digit for `n` from either alphabet. */
  predicate IsDigitFor(c: char, n: bv8) {
    n < 16 && (c == LOWER[n] || c == UPPER[n])
  }

  predicate SpellsByte(hi: char, lo: char, b: bv8) {
    IsDigitFor(hi, b >> 4) && IsDigitFor(lo, b & 0xf)
  }

  /** `text` spells the bytes, two digits each. */
  ghost predicate Spells(text: string, bytes: seq<bv8>) {
    && |text| == 2 * |bytes|
    && forall i | 0 <= i < |bytes| :: SpellsByte(text[2 * i], text[2 * i + 1], bytes[i])
  }

  /** Every character that is a digit has its value, and every other one counts as zero. */
  lemma {:induction false} HexDigitExactly(c: char)
    ensures HexDigit(c) as int ==
            if '0' <= c <= '9' then c as int - '0' as int
            else if 'a' <= c <= 'f' then c as int - 'a' as int + 10
            else if 'A' <= c <= 'F' then c as int - 'A' as int + 10
            else 0
  {
  }

  /** The first of two characters has the upper four bits. */
  lemma {:induction false} HexByteExactly(hi: char, lo: char)
    ensures HexByte(hi, lo) as int == 16 * HexDigit(hi) as int + HexDigit(lo) as int
  {
  }

  lemma {:induction false} DigitReadsBack(c: char, n: bv8)
    requires IsDigitFor(c, n)
    ensures HexDigit(c) == n
  {
  }

  /** The byte that two characters are read as. */
  function HexByte(hi: char, lo: char): bv8 {
    (HexDigit(hi) << 4) | HexDigit(lo)
  }

  lemma {:induction false} ByteReadsBack(hi: char, lo: char, b: bv8)
    requires SpellsByte(hi, lo, b)
    ensures HexByte(hi, lo) == b
  {
    hide HexDigit, IsDigitFor;
    DigitReadsBack(hi, b >> 4);
    DigitReadsBack(lo, b & 0xf);
    assert ((b >> 4) << 4) | (b & 0xf) == b;
  }

  /** What any 24 characters read as, two to a byte. */
  function Decoded(text: string): (oid: Oid)
    requires |text| >= 24
  {
    seq(12, i requires 0 <= i < 12 => HexByte(text[2 * i], text[2 * i + 1]))
  }

  /** Any spelling of an ObjectId reads back as it. */
  lemma {:induction false} SpellingReadsBack(text: string, oid: Oid)
    requires Spells(text, oid)
    ensures Decoded(text) == oid
  {
    hide HexByte, SpellsByte;
    forall i | 0 <= i < 12
      ensures Decoded(text)[i] == oid[i]
    {
      assert SpellsByte(text[2 * i], text[2 * i + 1], oid[i]);
      ByteReadsBack(text[2 * i], text[2 * i + 1], oid[i]);
    }
  }

  /** bson_oid_init_from_string_unsafe: whatever the characters are, and back from any spelling of an ObjectId. */
  method InitFromString(bytes: array<bv8>, str: string)
    requires bytes.Length == 12 && |str| >= 24
    modifies bytes
    ensures bytes[..] == Decoded(str)
    ensures forall i | 0 <= i < 12 ::
              bytes[i] as int == 16 * HexDigit(str[2 * i]) as int + HexDigit(str[2 * i + 1]) as int
    ensures forall oid: Oid :: Spells(str, oid) ==> bytes[..] == oid
  {
    hide Spells, HexByte;
    var i := 0;
    while i < 12
      invariant 0 <= i <= 12 && bytes[..i] == Decoded(str)[..i]
    {
      bytes[i] := HexByte(str[2 * i], str[2 * i + 1]);
      i := i + 1;
    }
    forall i | 0 <= i < 12
      ensures bytes[i] as int == 16 * HexDigit(str[2 * i]) as int + HexDigit(str[2 * i + 1]) as int
    {
      assert bytes[i] == Decoded(str)[i];
      HexByteExactly(str[2 * i], str[2 * i + 1]);
    }
    forall oid: Oid | Spells(str, oid)
      ensures bytes[..] == oid
    {
      SpellingReadsBack(str, oid);
    }
  }

  // ---------- powers of two ----------

  /** The test of bson_is_power_of_two, at the width of the words. */
  predicate IsPowerOfTwo(v: bv64) {
    v != 0 && v & (v - 1) == 0
  }

  /** bson_is_power_of_two, whose argument has 32 bits. */
  predicate IsPowerOfTwo32(v: bv32) {
    v != 0 && v & (v - 1) == 0
  }

  lemma {:induction false} DoubleIsPower(v: bv64)
    requires v & 1 == 0 && IsPowerOfTwo(v >> 1)
    ensures IsPowerOfTwo(v)
  {
  }

  lemma {:induction false} HalfIsPower(v: bv64)
    requires IsPowerOfTwo(v) && v != 1
    ensures v & 1 == 0 && IsPowerOfTwo(v >> 1)
  {
  }

  /** The test singles out 1 and the doubles of what it singles out: the powers of two. */
  lemma {:induction false} PowersAreDoublings(v: bv64)
    ensures IsPowerOfTwo(v) <==> v == 1 || (v & 1 == 0 && IsPowerOfTwo(v >> 1))
  {
    assert IsPowerOfTwo(1);
    hide IsPowerOfTwo;
    if v & 1 == 0 && IsPowerOfTwo(v >> 1) {
      DoubleIsPower(v);
    }
    if IsPowerOfTwo(v) && v != 1 {
      HalfIsPower(v);
    }
  }

  /** The numbers with one bit set; the exponents go from 0 to 63. */
  function Power(e: bv6): bv64 {
    1 << e
  }

  lemma {:induction false} NextPower(e: bv6)
    requires e != 63
    ensures Power(e + 1) == Power(e) << 1 && Power(e + 1) & 1 == 0
  {
  }

  lemma {:induction false} PowersPass(e: bv6)
    ensures IsPowerOfTwo(Power(e))
  {
  }

  lemma {:induction false} Exponent(v: bv64) returns (e: bv6)
    requires IsPowerOfTwo(v)
    ensures v == Power(e)
    decreases v
  {
    if v == 1 {
      e := 0;
    } else {
      PowersAreDoublings(v);
      e := Exponent(v >> 1);
      NextPower(e);
      e := e + 1;
    }
  }

  /** The test holds for exactly the powers of two. */
  lemma {:induction false} PowersExactly(v: bv64)
    ensures IsPowerOfTwo(v) <==> exists e :: v == Power(e)
  {
    if IsPowerOfTwo(v) {
      var e := Exponent(v);
    }
    if e :| v == Power(e) {
      PowersPass(e);
    }
  }

  lemma {:induction false} NarrowTest(v: bv64)
    requires v <= 0xFFFF_FFFF
    ensures IsPowerOfTwo32(v as bv32) <==> IsPowerOfTwo(v)
  {
  }

  /** Every bit below a set one is set. */
  predicate Filled(s: bv64) {
    (s >> 1) | s == s
  }

  // The six shift-and-or steps.
  function Or1(v: bv64): bv64 { v | (v >> 1) }
  function Or2(v: bv64): bv64 { v | (v >> 2) }
  function Or4(v: bv64): bv64 { v | (v >> 4) }
  function Or8(v: bv64): bv64 { v | (v >> 8) }
  function Or16(v: bv64): bv64 { v | (v >> 16) }
  function Or32(v: bv64): bv64 { v | (v >> 32) }

  function Smear(x: bv64): bv64 {
    Or32(Or16(Or8(Or4(Or2(Or1(x))))))
  }

  lemma {:induction false} SmearFills(x: bv64)
    ensures Filled(Smear(x))
  {
  }

  lemma {:induction false} SmearKeeps(x: bv64)
    ensures Smear(x) | x == Smear(x)
  {
  }

  /** The top bit of the smear was there already. */
  lemma {:induction false} SmearTop(x: bv64)
    ensures Smear(x) & !(Smear(x) >> 1) & !x == 0
  {
  }

  lemma {:induction false} FilledIsMask(s: bv64)
    requires Filled(s)
    ensures s & (s + 1) == 0
  {
  }

  predicate AtMost(x: bv64, y: bv64) {
    x <= y
  }

  predicate High(x: bv64) {
    x >= 0x8000_0000_0000_0000
  }

  lemma {:induction false} SuccessorKeepsOrder(x: bv64, s: bv64)
    requires s | x == s && s + 1 != 0
    ensures AtMost(x + 1, s + 1) && x + 1 != 0
  {
  }

  lemma {:induction false} MaskPlusOne(s: bv64)
    requires s & (s + 1) == 0 && s + 1 != 0
    ensures IsPowerOfTwo(s + 1)
  {
  }

  lemma {:induction false} AllOnes(s: bv64)
    requires Filled(s)
    ensures s + 1 == 0 <==> High(s)
  {
  }

  lemma {:induction false} SameTop(x: bv64, s: bv64)
    requires s | x == s && s & !(s >> 1) & !x == 0
    ensures High(s) <==> High(x)
  {
  }

  /** The least power of two above `x`: half of it is a bit of `x`. */
  predicate HalfIsIn(v: bv64, x: bv64) {
    v == 1 || x & (v >> 1) == v >> 1
  }

  lemma {:induction false} TopIsHalf(x: bv64, s: bv64)
    requires Filled(s) && s + 1 != 0 && s & !(s >> 1) & !x == 0
    ensures HalfIsIn(s + 1, x)
  {
    if s != 0 {
      TopOfMask(s);
      AllIn(s & !(s >> 1), x);
    }
  }

  lemma {:induction false} TopOfMask(s: bv64)
    requires Filled(s) && s != 0 && s + 1 != 0
    ensures (s + 1) >> 1 == s & !(s >> 1)
  {
  }

  lemma {:induction false} AllIn(t: bv64, x: bv64)
    requires t & !x == 0
    ensures x & t == t
  {
  }

  lemma {:induction false} Least(x: bv64, v: bv64, w: bv64)
    requires IsPowerOfTwo(v) && IsPowerOfTwo(w) && HalfIsIn(v, x) && x + 1 != 0 && AtMost(x + 1, w)
    ensures AtMost(v, w)
  {
  }

  lemma {:induction false} NextOfSmear(x: bv64, s: bv64)
    requires s == Smear(x)
    ensures s + 1 == 0 <==> High(x)
    ensures s + 1 != 0 ==> IsPowerOfTwo(s + 1) && x + 1 != 0 && AtMost(x + 1, s + 1) && HalfIsIn(s + 1, x)
  {
    SmearFills(x);
    SmearKeeps(x);
    SmearTop(x);
    hide Smear, Filled, High, IsPowerOfTwo, HalfIsIn, AtMost;
    AllOnes(s);
    SameTop(x, s);
    if s + 1 != 0 {
      FilledIsMask(s);
      MaskPlusOne(s);
      SuccessorKeepsOrder(x, s);
      TopIsHalf(x, s);
    }
  }

  lemma {:induction false} AtMostMeans(x: bv64, y: bv64)
    ensures AtMost(x, y) <==> x <= y
  {
  }

  lemma {:induction false} OneLess(v0: bv64)
    ensures High(v0 - 1) <==> v0 == 0 || v0 > 0x8000_0000_0000_0000
    ensures v0 - 1 + 1 == v0
  {
  }

  lemma {:induction false} LeastFromSmear(v0: bv64, x: bv64, s: bv64)
    requires x == v0 - 1 && s == Smear(x)
    ensures s + 1 == 0 <==> High(x)
    ensures s + 1 != 0 ==> IsPowerOfTwo(s + 1) && AtMost(v0, s + 1)
    ensures s + 1 != 0 ==> forall w :: IsPowerOfTwo(w) && AtMost(v0, w) ==> AtMost(s + 1, w)
  {
    hide Smear, IsPowerOfTwo, High, AtMost, HalfIsIn;
    NextOfSmear(x, s);
    assert x + 1 == v0 by { OneLess(v0); }
    if s + 1 != 0 {
      forall w | IsPowerOfTwo(w) && AtMost(v0, w)
        ensures AtMost(s + 1, w)
      {
        Least(x, s + 1, w);
      }
    }
  }

  /**
   bson_next_power_of_two with 64-bit words: the least power of two that is not below `v0`; 0 is returned exactly
   when there is none, or when v0 is 0.
   */
  method NextPowerOfTwo(v0: bv64) returns (v: bv64)
    ensures v != 0 ==> (exists e :: v == Power(e)) && AtMost(v0, v)
    ensures v != 0 ==> forall e :: AtMost(v0, Power(e)) ==> AtMost(v, Power(e))
    ensures v == 0 <==> v0 == 0 || v0 > 0x8000_0000_0000_0000
  {
    hide IsPowerOfTwo, Power, AtMost, High, Or1, Or2, Or4, Or8, Or16, Or32;
    v := v0;
    v := v - 1;
    ghost var x := v;
    v := Or1(v);
    v := Or2(v);
    v := Or4(v);
    v := Or8(v);
    v := Or16(v);
    v := Or32(v);
    LeastFromSmear(v0, x, v);
    OneLess(v0);
    v := v + 1;
    PowersExactly(v);
    forall e | v != 0 && AtMost(v0, Power(e))
      ensures AtMost(v, Power(e))
    {
      PowersPass(e);
    }
  }
}
