/**
 32-byte words and the two encoders that write them: risk.ts fills byte arrays from the low end,
 price.ts goes through padded hex text (packages/shared/src/risk.ts:14-43,
 packages/shared/src/price.ts:127-158).
 */
module AbiWords {
  import Uint256

  type Byte = b: int | 0 <= b < 256

  // ----- Concatenation of equal parts

  function Flatten<T>(parts: seq<seq<T>>): seq<T> {
    if parts == [] then [] else Flatten(parts[..|parts| - 1]) + parts[|parts| - 1]
  }

  ghost predicate EachOf<T>(parts: seq<seq<T>>, size: nat) {
    forall i :: 0 <= i < |parts| ==> |parts[i]| == size
  }

  lemma {:induction false} FlattenLength<T>(parts: seq<seq<T>>, size: nat)
    requires EachOf(parts, size)
    ensures |Flatten(parts)| == size * |parts|
    decreases |parts|
  {
    if parts != [] {
      FlattenLength(parts[..|parts| - 1], size);
      assert size * |parts| == size * (|parts| - 1) + size;
    }
  }

  lemma FlattenStep<T>(parts: seq<seq<T>>)
    requires parts != []
    ensures Flatten(parts) == Flatten(parts[..|parts| - 1]) + parts[|parts| - 1]
  {
  }

  lemma SliceOfConcat<T>(a: seq<T>, b: seq<T>, lo: nat, hi: nat)
    requires lo <= hi <= |a| + |b|
    ensures hi <= |a| ==> (a + b)[lo..hi] == a[lo..hi]
    ensures lo == |a| && hi == |a| + |b| ==> (a + b)[lo..hi] == b
  {
  }

  lemma Room(size: nat, i: nat, n: nat)
    requires i < n
    ensures size * i + size <= size * n
  {
    assert size * n == size * i + size * (n - i);
    assert size * (n - i) == size + size * (n - i - 1);
  }

  /** Part i occupies the places from size * i on. */
  lemma {:induction false} FlattenPart<T>(parts: seq<seq<T>>, size: nat, i: nat)
    requires EachOf(parts, size) && i < |parts|
    ensures size * i + size <= |Flatten(parts)| && Flatten(parts)[size * i..size * i + size] == parts[i]
    decreases |parts|
  {
    hide Flatten;
    var n, at := |parts| - 1, size * i;
    var front := Flatten(parts[..n]);
    FlattenLength(parts[..n], size);
    FlattenStep(parts);
    if i < n {
      FlattenPart(parts[..n], size, i);
      Room(size, i, n);
    }
    SliceOfConcat(front, parts[n], at, at + size);
  }

  // ----- Big-endian words

  function BigEndian(n: nat, width: nat): (s: seq<Byte>)
    ensures |s| == width
  {
    if width == 0 then [] else BigEndian(n / 256, width - 1) + [n % 256]
  }

  function ReadBytes(s: seq<Byte>): nat {
    if s == [] then 0 else 256 * ReadBytes(s[..|s| - 1]) + s[|s| - 1]
  }

  function Pow(base: nat, n: nat): nat {
    if n == 0 then 1 else base * Pow(base, n - 1)
  }

  lemma BelowPow(n: nat, base: nat, p: nat)
    requires base > 0 && n < base * p
    ensures n / base < p
  {
    assert n == base * (n / base) + n % base;
    assert base * (n / base) < base * p;
    Cancel(base, n / base, p);
  }

  lemma Cancel(base: nat, a: nat, b: nat)
    requires base * a < base * b
    ensures a < b
  {
    assert base * (b - a) > 0;
  }

  /** A number that fits the width is read back. */
  lemma {:induction false} ReadsBigEndian(n: nat, width: nat)
    requires n < Pow(256, width)
    ensures ReadBytes(BigEndian(n, width)) == n
    decreases width
  {
    if width > 0 {
      BelowPow(n, 256, Pow(256, width - 1));
      ReadsBigEndian(n / 256, width - 1);
      assert BigEndian(n, width)[..width - 1] == BigEndian(n / 256, width - 1);
    }
  }

  lemma {:induction false} PowAdd(base: nat, m: nat, n: nat)
    ensures Pow(base, m + n) == Pow(base, m) * Pow(base, n)
    decreases m
  {
    if m > 0 {
      PowAdd(base, m - 1, n);
      assert base * (Pow(base, m - 1) * Pow(base, n)) == (base * Pow(base, m - 1)) * Pow(base, n);
    }
  }

  lemma PowOne(base: nat)
    ensures Pow(base, 1) == base
  {
    assert Pow(base, 0) == 1;
  }

  lemma WordRange(width: nat)
    requires width == 32
    ensures Pow(256, width) == Uint256.UINT256_MAX + 1
  {
    hide Pow;
    PowOne(256);
    PowAdd(256, 1, 1);
    PowAdd(256, 2, 2);
    PowAdd(256, 4, 4);
    PowAdd(256, 8, 8);
    PowAdd(256, 16, 16);
  }

  function Word(n: nat): (w: seq<Byte>)
    ensures |w| == 32
  {
    BigEndian(n, 32)
  }

  lemma WordReadsBack(n: nat)
    requires n <= Uint256.UINT256_MAX
    ensures ReadBytes(Word(n)) == n
  {
    hide BigEndian, ReadBytes, Pow;
    WordRange(32);
    ReadsBigEndian(n, 32);
  }

  /** risk.ts: the low byte goes to the last place, then the number is shifted. */
  method Slot(value: int) returns (ok: bool, word: array<Byte>)
    ensures ok <==> 0 <= value <= Uint256.UINT256_MAX
    ensures ok ==> fresh(word) && word[..] == Word(value)
  {
    word := new Byte[32](_ => 0);
    if value < 0 || value > Uint256.UINT256_MAX {
      return false, word;
    }
    var remaining: nat := value;
    var index := 31;
    while index >= 0
      invariant -1 <= index <= 31
      invariant BigEndian(value, 32) == BigEndian(remaining, index + 1) + word[index + 1..]
      decreases index
    {
      ghost var tail := word[index + 1..];
      ghost var before := BigEndian(remaining / 256, index);
      word[index] := remaining % 256;
      assert word[index..] == [remaining % 256] + tail;
      assert BigEndian(value, 32) == before + [remaining % 256] + tail;
      assert before + [remaining % 256] + tail == before + ([remaining % 256] + tail);
      remaining := remaining / 256;
      index := index - 1;
    }
    assert word[0..] == word[..];
    return true, word;
  }

  /** risk.ts: each word is copied to its place in one byte array. */
  method Join(slots: seq<seq<Byte>>) returns (result: array<Byte>)
    requires EachOf(slots, 32)
    ensures fresh(result) && result[..] == Flatten(slots)
  {
    result := new Byte[32 * |slots|](_ => 0);
    assert slots[..0] == [];
    for index := 0 to |slots|
      invariant result[..32 * index] == Flatten(slots[..index])
    {
      var item := slots[index];
      ghost var done := result[..32 * index];
      forall k | 0 <= k < 32 {
        result[32 * index + k] := item[k];
      }
      assert result[..32 * index] == done;
      assert result[..32 * (index + 1)] == done + item;
      assert slots[..index + 1][..index] == slots[..index];
    }
    assert slots[..|slots|] == slots;
    assert result[..32 * |slots|] == result[..];
  }

  // ----- Hex text

  predicate IsHexDigit(c: char) {
    '0' <= c <= '9' || 'a' <= c <= 'f' || 'A' <= c <= 'F'
  }

  function HexValue(c: char): (v: int)
    requires IsHexDigit(c)
    ensures 0 <= v < 16
  {
    if c <= '9' then c as int - '0' as int
    else if c <= 'F' then c as int - 'A' as int + 10
    else c as int - 'a' as int + 10
  }

  function HexDigit(v: nat): (c: char)
    requires v < 16
    ensures IsHexDigit(c) && HexValue(c) == v
  {
    if v < 10 then (v + '0' as int) as char else (v - 10 + 'a' as int) as char
  }

  function Lower(c: char): (r: char)
    ensures !('A' <= r <= 'Z') && (r == c || ('A' <= c <= 'Z' && r as int == c as int + 32))
  {
    if 'A' <= c <= 'Z' then (c as int - 'A' as int + 'a' as int) as char else c
  }

  function LowerCase(s: string): (r: string)
    ensures |r| == |s|
  {
    seq(|s|, i requires 0 <= i < |s| => Lower(s[i]))
  }

  predicate AllHex(s: string) {
    forall i :: 0 <= i < |s| ==> IsHexDigit(s[i])
  }

  function ParsePair(high: char, low: char): Byte
    requires IsHexDigit(high) && IsHexDigit(low)
  {
    16 * HexValue(high) + HexValue(low)
  }

  /** The bytes of consecutive pairs of hex digits. */
  function Pairs(s: string): (r: seq<Byte>)
    requires AllHex(s)
    ensures |r| == |s| / 2
    ensures forall i :: 0 <= i < |r| ==> r[i] == ParsePair(s[2 * i], s[2 * i + 1])
  {
    seq(|s| / 2, i requires 0 <= i < |s| / 2 => ParsePair(s[2 * i], s[2 * i + 1]))
  }

  lemma SameHexValue(a: char, b: char)
    requires IsHexDigit(a) && IsHexDigit(b)
    ensures HexValue(a) == HexValue(b) <==> Lower(a) == Lower(b)
  {
  }

  /** Two hex strings of one even length have the same bytes exactly when they differ in case only. */
  lemma PairsIff(s: string, t: string)
    requires AllHex(s) && AllHex(t) && |s| == |t| && |s| % 2 == 0
    ensures Pairs(s) == Pairs(t) <==> LowerCase(s) == LowerCase(t)
  {
    forall i | 0 <= i < |s|
      ensures HexValue(s[i]) == HexValue(t[i]) <==> LowerCase(s)[i] == LowerCase(t)[i]
    {
      SameHexValue(s[i], t[i]);
    }
    if Pairs(s) == Pairs(t) {
      forall i | 0 <= i < |s|
        ensures HexValue(s[i]) == HexValue(t[i])
      {
        var p := i / 2;
        assert i == 2 * p || i == 2 * p + 1;
        assert Pairs(s)[p] == Pairs(t)[p];
      }
    }
    if LowerCase(s) == LowerCase(t) {
      assert forall i :: 0 <= i < |s| / 2 ==>
        HexValue(s[2 * i]) == HexValue(t[2 * i]) && HexValue(s[2 * i + 1]) == HexValue(t[2 * i + 1]);
      assert forall i :: 0 <= i < |s| / 2 ==> Pairs(s)[i] == Pairs(t)[i];
    }
  }

  lemma PairsConcat(s: string, t: string)
    requires AllHex(s) && AllHex(t) && |s| % 2 == 0
    ensures AllHex(s + t) && Pairs(s + t) == Pairs(s) + Pairs(t)
  {
  }

  function ToHex(n: nat): (s: string)
    ensures AllHex(s) && |s| > 0
  {
    if n < 16 then [HexDigit(n)] else ToHex(n / 16) + [HexDigit(n % 16)]
  }

  function ZeroDigits(n: nat): (s: string)
    ensures |s| == n && AllHex(s)
  {
    seq(n, _ => '0')
  }

  function PadZeros(s: string, n: nat): (r: string)
    requires AllHex(s)
    ensures AllHex(r)
  {
    if |s| < n then ZeroDigits(n - |s|) + s else s
  }

  function FixedHex(n: nat, width: nat): (s: string)
    ensures AllHex(s) && |s| == width
  {
    if width == 0 then "" else FixedHex(n / 16, width - 1) + [HexDigit(n % 16)]
  }

  lemma {:induction false} FixedZero(width: nat)
    ensures FixedHex(0, width) == ZeroDigits(width)
  {
    if width > 0 {
      FixedZero(width - 1);
    }
  }

  /** Printing in base 16 and padding with zeros is fixed-width base 16. */
  lemma {:induction false} PaddedIsFixed(n: nat, width: nat)
    requires width > 0 && n < Pow(16, width)
    ensures PadZeros(ToHex(n), width) == FixedHex(n, width)
    decreases width
  {
    if n < 16 {
      FixedZero(width - 1);
      assert n / 16 == 0 && n % 16 == n;
    } else {
      BelowPow(n, 16, Pow(16, width - 1));
      assert width > 1;
      PaddedIsFixed(n / 16, width - 1);
      var front := ToHex(n / 16);
      if |front| < width - 1 {
        assert ZeroDigits(width - 1 - |front|) + (front + [HexDigit(n % 16)])
          == ZeroDigits(width - 1 - |front|) + front + [HexDigit(n % 16)];
      }
    }
  }

  lemma TwoHexDigits(n: nat, width: nat)
    ensures FixedHex(n, width + 2) == FixedHex(n / 256, width) + [HexDigit(n / 16 % 16), HexDigit(n % 16)]
  {
    assert n / 16 / 16 == n / 256;
    assert FixedHex(n / 16, width + 1) == FixedHex(n / 256, width) + [HexDigit(n / 16 % 16)];
  }

  lemma LastPair(n: nat)
    ensures Pairs([HexDigit(n / 16 % 16), HexDigit(n % 16)]) == [n % 256]
  {
    assert 16 * (n / 16 % 16) + n % 16 == n % 256;
  }

  lemma PairsOfTwoMore(n: nat, width: nat)
    requires width % 2 == 0
    ensures Pairs(FixedHex(n, width + 2)) == Pairs(FixedHex(n / 256, width)) + [n % 256]
  {
    hide FixedHex, Pairs, HexDigit;
    TwoHexDigits(n, width);
    PairsConcat(FixedHex(n / 256, width), [HexDigit(n / 16 % 16), HexDigit(n % 16)]);
    LastPair(n);
  }

  lemma {:induction false} FixedHexPairs(n: nat, width: nat)
    ensures Pairs(FixedHex(n, 2 * width)) == BigEndian(n, width)
    decreases width
  {
    if width > 0 {
      hide FixedHex, Pairs;
      PairsOfTwoMore(n, 2 * (width - 1));
      FixedHexPairs(n / 256, width - 1);
    }
  }

  /** price.ts: print in base 16, pad to 64 digits, read the pairs. */
  function TextSlot(n: nat): seq<Byte> {
    Pairs(PadZeros(ToHex(n), 64))
  }

  lemma {:induction false} SixteenSquared(width: nat)
    ensures Pow(16, 2 * width) == Pow(256, width)
  {
    if width > 0 {
      SixteenSquared(width - 1);
      assert Pow(16, 2 * width) == 16 * Pow(16, 2 * width - 1);
    }
  }

  /** The two encoders write the same word. */
  lemma EncodersAgree(n: nat)
    requires n <= Uint256.UINT256_MAX
    ensures TextSlot(n) == Word(n)
  {
    hide Pow, ToHex, FixedHex, BigEndian, Pairs, PadZeros;
    WordRange(32);
    SixteenSquared(32);
    PaddedIsFixed(n, 64);
    FixedHexPairs(n, 32);
  }

  // ----- Addresses

  predicate IsHexText(s: string, digits: nat) {
    |s| == digits + 2 && s[..2] == "0x" && AllHex(s[2..])
  }

  predicate IsAddress(s: string) {
    IsHexText(s, 40)
  }

  function ZeroBytes(n: nat): (s: seq<Byte>)
    ensures |s| == n
  {
    seq(n, _ => 0)
  }

  function AddressBytes(s: string): (r: seq<Byte>)
    requires IsAddress(s)
    ensures |r| == 20
  {
    Pairs(s[2..])
  }

  function AddressWord(s: string): (w: seq<Byte>)
    requires IsAddress(s)
    ensures |w| == 32 && w[12..] == AddressBytes(s)
  {
    ZeroBytes(12) + AddressBytes(s)
  }

  /** risk.ts: the twenty parsed bytes are stored from place twelve on. */
  method AddressSlot(value: string) returns (word: array<Byte>)
    requires IsAddress(value)
    ensures fresh(word) && word[..] == AddressWord(value)
  {
    word := new Byte[32](_ => 0);
    var digits := value[2..];
    ghost var bytes := AddressBytes(value);
    assert word[..12] == ZeroBytes(12);
    for index := 0 to 20
      invariant word[..12 + index] == ZeroBytes(12) + bytes[..index]
    {
      hide AddressBytes, AddressWord, ZeroBytes, HexValue;
      ghost var done := word[..12 + index];
      word[12 + index] := ParsePair(digits[2 * index], digits[2 * index + 1]);
      assert word[..12 + index + 1] == done + [bytes[index]];
      assert bytes[..index + 1] == bytes[..index] + [bytes[index]];
    }
    assert bytes[..20] == bytes && word[..32] == word[..];
  }

  /** price.ts: 24 zero digits are put before the address digits. */
  lemma TextAddressAgrees(s: string)
    requires IsAddress(s)
    ensures Pairs(ZeroDigits(24) + s[2..]) == AddressWord(s)
  {
    PairsConcat(ZeroDigits(24), s[2..]);
    assert Pairs(ZeroDigits(24)) == ZeroBytes(12);
  }

  lemma AddressBytesIff(a: string, b: string)
    requires IsAddress(a) && IsAddress(b)
    ensures AddressBytes(a) == AddressBytes(b) <==> LowerCase(a) == LowerCase(b)
  {
    PairsIff(a[2..], b[2..]);
    assert LowerCase(a) == LowerCase("0x") + LowerCase(a[2..]) by { assert a == "0x" + a[2..]; }
    assert LowerCase(b) == LowerCase("0x") + LowerCase(b[2..]) by { assert b == "0x" + b[2..]; }
    assert LowerCase(a)[2..] == LowerCase(a[2..]) && LowerCase(b)[2..] == LowerCase(b[2..]);
  }

  // ----- 32-byte identifiers

  type Digest = d: seq<Byte> | |d| == 32 witness seq(32, _ => 0)

  /** The schema of a bytes32 value. */
  predicate IsBytes32(s: string) {
    IsHexText(s, 64)
  }

  function HexWord(s: string): (w: Digest)
    requires IsBytes32(s)
  {
    Pairs(s[2..])
  }

  /** Two identifiers are the same 32 bytes exactly when they differ in case only. */
  lemma HexWordIff(a: string, b: string)
    requires IsHexText(a, 64) && IsHexText(b, 64)
    ensures HexWord(a) == HexWord(b) <==> LowerCase(a) == LowerCase(b)
  {
    PairsIff(a[2..], b[2..]);
    assert LowerCase(a) == LowerCase("0x") + LowerCase(a[2..]) by { assert a == "0x" + a[2..]; }
    assert LowerCase(b) == LowerCase("0x") + LowerCase(b[2..]) by { assert b == "0x" + b[2..]; }
    assert LowerCase(a)[2..] == LowerCase(a[2..]) && LowerCase(b)[2..] == LowerCase(b[2..]);
  }

  /** A digest as text: each byte in base 16, padded to two digits. */
  function BytesToHex(bytes: seq<Byte>): string {
    "0x" + Flatten(seq(|bytes|, i requires 0 <= i < |bytes| => PadZeros(ToHex(bytes[i]), 2)))
  }

  /** That text reads back as the digest. */
  lemma {:induction false} BytesToHexReads(bytes: seq<Byte>)
    ensures IsHexText(BytesToHex(bytes), 2 * |bytes|) && Pairs(BytesToHex(bytes)[2..]) == bytes
    decreases |bytes|
  {
    hide Pairs, ToHex, PadZeros;
    if bytes == [] {
      assert Pairs("") == [] by { EmptyPairs(); }
    } else {
      var front, last := bytes[..|bytes| - 1], bytes[|bytes| - 1];
      BytesToHexReads(front);
      ByteReads(last);
      var parts := seq(|bytes|, i requires 0 <= i < |bytes| => PadZeros(ToHex(bytes[i]), 2));
      assert parts[..|parts| - 1]
        == seq(|front|, i requires 0 <= i < |front| => PadZeros(ToHex(front[i]), 2));
      assert BytesToHex(bytes) == BytesToHex(front) + PadZeros(ToHex(last), 2);
      assert BytesToHex(bytes)[2..] == BytesToHex(front)[2..] + PadZeros(ToHex(last), 2);
      PairsConcat(BytesToHex(front)[2..], PadZeros(ToHex(last), 2));
    }
  }

  lemma EmptyPairs()
    ensures Pairs("") == []
  {
  }

  lemma ByteReads(b: Byte)
    ensures |PadZeros(ToHex(b), 2)| == 2 && Pairs(PadZeros(ToHex(b), 2)) == [b]
  {
    hide Pow, ToHex, FixedHex, PadZeros, Pairs, BigEndian;
    OneByte(b);
    PaddedIsFixed(b, 2);
    FixedHexPairs(b, 1);
  }

  lemma OneByte(b: Byte)
    ensures Pow(16, 2) == 256 && BigEndian(b, 1) == [b]
  {
    PowOne(16);
    assert BigEndian(b / 256, 0) == [];
  }

  /** A text is accepted for a digest exactly when it is a bytes32 value with the digest's bytes. */
  lemma AcceptedForDigestIff(digest: Digest, id: string)
    ensures IsBytes32(id) && LowerCase(BytesToHex(digest)) == LowerCase(id) <==> IsBytes32(id) && HexWord(id) == digest
  {
    hide LowerCase, BytesToHex, Pairs, AllHex;
    BytesToHexReads(digest);
    if IsBytes32(id) {
      HexWordIff(BytesToHex(digest), id);
    }
  }
}
