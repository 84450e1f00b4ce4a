/** Fixed-width integers and varints (db/Coding.h, db/Coding.cpp).

    The varint layout is unsigned LEB128, section 7.6 of the DWARF Debugging Information
    Format, version 5: groups of seven bits, least significant first, the high bit set on
    every byte but the last. */
module Coding {
  import opened Arithmetic
  import opened Wrappers

  type Byte = x: int | 0 <= x < 256
  type Bytes = seq<Byte>

  /** What a GetVarint routine hands back: the value and the position past it. */
  datatype Varint = Varint(value: nat, next: nat)

  // ---------- shifts and bitwise or ----------

  function Pow2(k: nat): (r: nat)
    ensures r > 0
  {
    if k == 0 then 1 else 2 * Pow2(k - 1)
  }

  function ShiftLeft(x: nat, k: nat): nat {
    x * Pow2(k)
  }

  /** Bitwise or, bit by bit. */
  function BitOr(a: nat, b: nat): nat
    decreases a + b
  {
    if a == 0 && b == 0 then 0
    else 2 * BitOr(a / 2, b / 2) + if a % 2 == 1 || b % 2 == 1 then 1 else 0
  }

  /** result |= byte << shift, in a w-bit word. */
  function OrShifted(result: nat, byte: nat, shift: nat, w: nat): nat {
    BitOr(result, ShiftLeft(byte, shift) % Pow2(w))
  }

  lemma {:induction false} BitOrZero(b: nat)
    ensures BitOr(0, b) == b
  {
    if b > 0 {
      BitOrZero(b / 2);
    }
  }

  /** Or of numbers with no bit in common is their sum. */
  lemma {:induction false} BitOrDisjoint(a: nat, c: nat, k: nat)
    requires a < Pow2(k)
    ensures BitOr(a, ShiftLeft(c, k)) == a + ShiftLeft(c, k)
  {
    if k == 0 {
      BitOrZero(c);
    } else if a != 0 || c != 0 {
      var b := ShiftLeft(c, k);
      assert b == 2 * ShiftLeft(c, k - 1) by {
        assert c * (2 * Pow2(k - 1)) == 2 * (c * Pow2(k - 1));
      }
      BitOrDisjoint(a / 2, c, k - 1);
      if a == 0 && b == 0 {
      } else {
        assert b / 2 == ShiftLeft(c, k - 1) && b % 2 == 0;
      }
    } else {
      assert ShiftLeft(c, k) == 0;
    }
  }

  lemma {:induction false} BitOrAtLeast(a: nat, b: nat)
    ensures BitOr(a, b) >= a && BitOr(a, b) >= b
    decreases a + b
  {
    if a + b > 0 {
      BitOrAtLeast(a / 2, b / 2);
    }
  }

  lemma {:induction false} BitOrBelow(a: nat, b: nat, k: nat)
    requires a < Pow2(k) && b < Pow2(k)
    ensures BitOr(a, b) < Pow2(k)
  {
    if k > 0 {
      BitOrBelow(a / 2, b / 2, k - 1);
    }
  }

  lemma Pow2Step(k: nat)
    ensures Pow2(0) == 1 && Pow2(k + 1) == 2 * Pow2(k)
  {
  }

  lemma Associate(x: nat, y: nat, z: nat)
    ensures x * y * z == x * (y * z)
  {
  }

  lemma {:induction false} Pow2Sum(j: nat, k: nat)
    ensures Pow2(j + k) == Pow2(j) * Pow2(k)
  {
    hide Pow2;
    if j == 0 {
      Pow2Step(0);
    } else {
      Pow2Sum(j - 1, k);
      Pow2Step(j - 1);
      Pow2Step(j - 1 + k);
      Associate(2, Pow2(j - 1), Pow2(k));
    }
  }

  lemma ScaledRemainder(result: nat, g: nat, s: nat, m: nat)
    requires result < s && m > 0
    ensures g * s % (m * s) == g % m * s
    ensures (result + g * s) % (m * s) == result + g % m * s
  {
    var q, c := g / m, g % m;
    assert g * s == q * (m * s) + c * s by {
      assert g == q * m + c;
      assert (q * m + c) * s == q * m * s + c * s;
      assert q * m * s == q * (m * s);
    }
    assert c * s + s <= m * s by {
      MultipleGrows(m - c, s);
      assert (m - c) * s == m * s - c * s;
    }
    assert 0 <= c * s;
    DivisionIs(g * s, q, c * s, m * s);
    DivisionIs(result + g * s, q, result + c * s, m * s);
  }

  /** Adding a group by shift and or in a w-bit word: result |= g << shift. */
  lemma OrGroup(result: nat, g: nat, shift: nat, w: nat)
    requires result < Pow2(shift) && shift <= w
    ensures OrShifted(result, g, shift, w) == (result + ShiftLeft(g, shift)) % Pow2(w)
  {
    hide Pow2, BitOr;
    Pow2Sum(w - shift, shift);
    ScaledRemainder(result, g, Pow2(shift), Pow2(w - shift));
    BitOrDisjoint(result, g % Pow2(w - shift), shift);
  }

  // ---------- varints: the specification ----------

  /** A varint of n bytes, at most max, starts at p and ends by limit: only its last byte is below 128. */
  ghost predicate IsVarint(data: Bytes, p: nat, limit: nat, max: nat, n: nat) {
    && 1 <= n <= max && p + n <= limit <= |data| && data[p + n - 1] < 128
    && forall i :: p <= i < p + n - 1 ==> data[i] >= 128
  }

  /** The value of the seven-bit groups of n bytes from p, least significant first. */
  function GroupSum(data: Bytes, p: nat, n: nat): nat
    requires p + n <= |data|
  {
    if n == 0 then 0 else GroupSum(data, p, n - 1) + ShiftLeft(data[p + n - 1] % 128, 7 * (n - 1))
  }

  lemma OneGroup(data: Bytes, p: nat)
    requires p < |data|
    ensures GroupSum(data, p, 1) == data[p] % 128
  {
    assert GroupSum(data, p, 0) == 0;
  }

  lemma Pow2Seven(k: nat)
    ensures Pow2(7) == 128 && Pow2(7 + k) == 128 * Pow2(k)
  {
    assert Pow2(7) == 128;
    hide Pow2;
    Pow2Sum(7, k);
  }

  lemma ScaledBelow(g: nat, m: nat, s: nat)
    requires g < m && s > 0
    ensures g * s + s <= m * s
  {
    MultipleGrows(m - g, s);
    assert (m - g) * s == m * s - g * s;
  }

  lemma {:induction false} GroupSumBelow(data: Bytes, p: nat, n: nat)
    requires p + n <= |data|
    ensures GroupSum(data, p, n) < Pow2(7 * n)
  {
    hide Pow2;
    if n == 0 {
      Pow2Step(0);
    } else {
      GroupSumBelow(data, p, n - 1);
      Pow2Seven(7 * (n - 1));
      ScaledBelow(data[p + n - 1] % 128, 128, Pow2(7 * (n - 1)));
    }
  }

  /** The number of bytes of the varint at p, or 0 if none of at most max bytes ends by limit. */
  function VarintLength(data: Bytes, p: nat, limit: nat, max: nat): (n: nat)
    requires limit <= |data|
    ensures n > 0 ==> IsVarint(data, p, limit, max, n)
    ensures n == 0 ==> forall m :: !IsVarint(data, p, limit, max, m)
    decreases max
  {
    if max == 0 || p >= limit then 0
    else if data[p] < 128 then 1
    else
      var m := VarintLength(data, p + 1, limit, max - 1);
      assert forall k: nat {:trigger IsVarint(data, p, limit, max, k)} :: IsVarint(data, p, limit, max, k) && k > 1 ==>
          IsVarint(data, p + 1, limit, max - 1, k - 1);
      if m == 0 then 0 else m + 1
  }

  lemma VarintLengthUnique(data: Bytes, p: nat, limit: nat, max: nat, n: nat)
    requires IsVarint(data, p, limit, max, n)
    ensures VarintLength(data, p, limit, max) == n
  {
    var m := VarintLength(data, p, limit, max);
    assert IsVarint(data, p, limit, max, m);
  }

  function DecodeVarint(data: Bytes, p: nat, limit: nat, max: nat, w: nat): Option<Varint>
    requires limit <= |data|
  {
    var n := VarintLength(data, p, limit, max);
    if n == 0 then None else Some(Varint(GroupSum(data, p, n) % Pow2(w), p + n))
  }

  function Varint32(data: Bytes, p: nat, limit: nat): Option<Varint>
    requires limit <= |data|
  {
    DecodeVarint(data, p, limit, 5, 32)
  }

  function Varint64(data: Bytes, p: nat, limit: nat): Option<Varint>
    requires limit <= |data|
  {
    DecodeVarint(data, p, limit, 10, 64)
  }

  /** A varint of a 32-bit number has at most five bytes, one of a 64-bit number at most ten, and
      those are accepted whatever they hold, if the last is below 128. */
  lemma VarintLimits(data: Bytes, p: nat, limit: nat)
    requires limit <= |data|
    ensures Varint32(data, p, limit).Some? <==> exists n :: IsVarint(data, p, limit, 5, n)
    ensures Varint64(data, p, limit).Some? <==> exists n :: IsVarint(data, p, limit, 10, n)
  {
    hide Pow2, GroupSum;
    var m, n := VarintLength(data, p, limit, 5), VarintLength(data, p, limit, 10);
    assert m > 0 ==> IsVarint(data, p, limit, 5, m);
    assert n > 0 ==> IsVarint(data, p, limit, 10, n);
  }

  // ---------- the decoders ----------

  /** After k rounds of a decoding loop in a w-bit word: k bytes with the high bit were read, and
      result is the sum of their groups. */
  ghost predicate AfterRounds(data: Bytes, p: nat, limit: nat, k: nat, w: nat, result: nat)
    requires limit <= |data|
  {
    && (k == 0 || p + k <= limit) && (forall i :: p <= i < p + k ==> data[i] >= 128)
    && (p + k <= |data| && 7 * k <= w ==> result == GroupSum(data, p, k))
  }

  lemma NoRounds(data: Bytes, p: nat, limit: nat, w: nat)
    requires limit <= |data|
    ensures AfterRounds(data, p, limit, 0, w, 0)
  {
    hide Pow2;
  }

  lemma NextRound(data: Bytes, p: nat, limit: nat, k: nat, w: nat, result: nat)
    requires limit <= |data| && AfterRounds(data, p, limit, k, w, result)
    requires p + k < limit && 7 * k <= w && data[p + k] >= 128
    ensures AfterRounds(data, p, limit, k + 1, w, OrShifted(result, data[p + k] % 128, 7 * k, w))
  {
    hide Pow2, OrShifted, GroupSum;
    OrNextGroup(data, p, k, w);
    SmallGroupSum(data, p, k + 1, w);
  }

  lemma LastRound(data: Bytes, p: nat, limit: nat, k: nat, max: nat, w: nat, result: nat)
    requires limit <= |data| && AfterRounds(data, p, limit, k, w, result)
    requires p + k < limit && 7 * k <= w && k < max && data[p + k] < 128
    ensures DecodeVarint(data, p, limit, max, w)
         == Some(Varint(OrShifted(result, data[p + k], 7 * k, w), p + k + 1))
  {
    hide Pow2, OrShifted, GroupSum, VarintLength;
    OrNextGroup(data, p, k, w);
    VarintLengthUnique(data, p, limit, max, k + 1);
  }

  lemma RoundsRunOut(data: Bytes, p: nat, limit: nat, k: nat, max: nat, w: nat, result: nat)
    requires limit <= |data| && AfterRounds(data, p, limit, k, w, result) && (k >= max || p + k >= limit)
    ensures DecodeVarint(data, p, limit, max, w) == None
  {
    hide Pow2, GroupSum, VarintLength;
    NoVarint(data, p, limit, max, k);
  }

  method GetVarint32PtrFallback(data: Bytes, p: nat, limit: nat) returns (r: Option<Varint>)
    requires limit <= |data|
    ensures r == Varint32(data, p, limit)
  {
    NoRounds(data, p, limit, 32);
    hide OrShifted, AfterRounds, DecodeVarint;
    var result, shift, q := 0, 0, p;
    ghost var k := 0;
    while shift <= 28 && q < limit
      invariant k <= 5 && shift == 7 * k && q == p + k
      invariant AfterRounds(data, p, limit, k, 32, result)
    {
      var byte := data[q];
      q := q + 1;
      if byte >= 128 {
        NextRound(data, p, limit, k, 32, result);
        result := OrShifted(result, byte % 128, shift, 32);
      } else {
        LastRound(data, p, limit, k, 5, 32, result);
        result := OrShifted(result, byte, shift, 32);
        return Some(Varint(result, q));
      }
      shift, k := shift + 7, k + 1;
    }
    RoundsRunOut(data, p, limit, k, 5, 32, result);
    return None;
  }

  method GetVarint32Ptr(data: Bytes, p: nat, limit: nat) returns (r: Option<Varint>)
    requires limit <= |data|
    ensures r == Varint32(data, p, limit)
  {
    if p < limit {
      var result := data[p];
      if result < 128 {
        VarintLengthUnique(data, p, limit, 5, 1);
        OneGroup(data, p);
        WordSize();
        return Some(Varint(result, p + 1));
      }
    }
    r := GetVarint32PtrFallback(data, p, limit);
  }

  method GetVarint64Ptr(data: Bytes, p: nat, limit: nat) returns (r: Option<Varint>)
    requires limit <= |data|
    ensures r == Varint64(data, p, limit)
  {
    NoRounds(data, p, limit, 64);
    hide OrShifted, AfterRounds, DecodeVarint;
    var result, shift, q := 0, 0, p;
    ghost var k := 0;
    while shift <= 63 && q < limit
      invariant k <= 10 && shift == 7 * k && q == p + k
      invariant AfterRounds(data, p, limit, k, 64, result)
    {
      var byte := data[q];
      q := q + 1;
      if byte >= 128 {
        NextRound(data, p, limit, k, 64, result);
        result := OrShifted(result, byte % 128, shift, 64);
      } else {
        LastRound(data, p, limit, k, 10, 64, result);
        result := OrShifted(result, byte, shift, 64);
        return Some(Varint(result, q));
      }
      shift, k := shift + 7, k + 1;
    }
    RoundsRunOut(data, p, limit, k, 10, 64, result);
    return None;
  }

  lemma Pow2Nibble()
    ensures Pow2(4) == 16
  {
  }

  lemma WordSize()
    ensures Pow2(32) == TWO_32 && Pow2(64) == TWO_64
  {
    hide Pow2;
    Pow2Nibble();
    Pow2Sum(4, 4);
    Pow2Sum(8, 8);
    Pow2Sum(16, 16);
    Pow2Sum(32, 32);
  }

  lemma {:induction false} Pow2Grows(j: nat, k: nat)
    requires j <= k
    ensures Pow2(j) <= Pow2(k)
  {
    if j < k {
      Pow2Grows(j, k - 1);
    }
  }

  /** One round of a decoding loop in a w-bit word. */
  lemma OrNextGroup(data: Bytes, p: nat, k: nat, w: nat)
    requires p + k < |data| && 7 * k <= w
    ensures OrShifted(GroupSum(data, p, k), data[p + k] % 128, 7 * k, w) == GroupSum(data, p, k + 1) % Pow2(w)
  {
    hide OrShifted, Pow2;
    GroupSumBelow(data, p, k);
    OrGroup(GroupSum(data, p, k), data[p + k] % 128, 7 * k, w);
  }

  lemma SmallGroupSum(data: Bytes, p: nat, k: nat, w: nat)
    requires p + k <= |data|
    ensures 7 * k <= w ==> GroupSum(data, p, k) % Pow2(w) == GroupSum(data, p, k)
  {
    hide Pow2, GroupSum;
    if 7 * k <= w {
      GroupSumBelow(data, p, k);
      Pow2Grows(7 * k, w);
      DivisionIs(GroupSum(data, p, k), 0, GroupSum(data, p, k), Pow2(w));
    }
  }

  lemma NoVarint(data: Bytes, p: nat, limit: nat, max: nat, k: nat)
    requires limit <= |data| && (k >= max || p + k >= limit)
    requires forall i :: p <= i < p + k && i < limit ==> data[i] >= 128
    ensures VarintLength(data, p, limit, max) == 0
  {
    var n := VarintLength(data, p, limit, max);
    assert n > 0 ==> IsVarint(data, p, limit, max, n) && p + n - 1 < p + k;
  }

  // ---------- round trip with the reference encoder ----------

  function EncodeVarint(v: nat): (b: Bytes) {
    if v < 128 then [v] else [128 + v % 128] + EncodeVarint(v / 128)
  }

  /** EncodeVarint(v) is a single varint, of at most n bytes when v has at most 7 * n bits. */
  lemma {:induction false} EncodedShape(v: nat, suffix: Bytes, n: nat)
    requires n > 0 && v < Pow2(7 * n)
    ensures var b := EncodeVarint(v); IsVarint(b + suffix, 0, |b|, n, |b|)
    decreases v
  {
    if v >= 128 {
      Pow2Sum(7, 7 * (n - 1));
      assert Pow2(7) == 128;
      var tail := EncodeVarint(v / 128);
      assert Pow2(0) == 1;
      EncodedShape(v / 128, suffix, n - 1);
      assert EncodeVarint(v) + suffix == [128 + v % 128] + (tail + suffix);
      var b := EncodeVarint(v) + suffix;
      forall i | 1 <= i < |b| ensures b[i] == (tail + suffix)[i - 1] {
      }
    }
  }

  /** Moving p by one drops the lowest group. */
  lemma {:induction false} GroupSumShift(data: Bytes, p: nat, n: nat)
    requires p + 1 + n <= |data|
    ensures GroupSum(data, p, n + 1) == data[p] % 128 + 128 * GroupSum(data, p + 1, n)
  {
    if n == 0 {
      OneGroup(data, p);
    } else {
      GroupSumShift(data, p, n - 1);
      Pow2Sum(7, 7 * (n - 1));
      assert Pow2(7) == 128;
      var g := data[p + n] % 128;
      assert ShiftLeft(g, 7 * n) == 128 * ShiftLeft(g, 7 * (n - 1)) by {
        assert g * (128 * Pow2(7 * (n - 1))) == 128 * (g * Pow2(7 * (n - 1)));
      }
    }
  }

  lemma {:induction false} GroupSumLocal(a: Bytes, p: nat, b: Bytes, q: nat, n: nat)
    requires p + n <= |a| && q + n <= |b| && a[p..p + n] == b[q..q + n]
    ensures GroupSum(a, p, n) == GroupSum(b, q, n)
  {
    if n > 0 {
      assert a[p..p + n][n - 1] == a[p + n - 1] && b[q..q + n][n - 1] == b[q + n - 1];
      assert a[p..p + n][..n - 1] == a[p..p + n - 1] && b[q..q + n][..n - 1] == b[q..q + n - 1];
      GroupSumLocal(a, p, b, q, n - 1);
    }
  }

  lemma {:induction false} EncodedValue(v: nat)
    ensures GroupSum(EncodeVarint(v), 0, |EncodeVarint(v)|) == v
  {
    hide GroupSum, Pow2;
    var b := EncodeVarint(v);
    if v < 128 {
      OneGroup(b, 0);
    } else {
      var tail := EncodeVarint(v / 128);
      EncodedValue(v / 128);
      GroupSumShift(b, 0, |tail|);
      assert b[1..1 + |tail|] == tail[0..|tail|];
      GroupSumLocal(b, 1, tail, 0, |tail|);
      assert b[0] % 128 == v % 128;
    }
  }

  /** Wherever the bytes stand, they are a varint with the encoded value. */
  lemma EncodedStands(prefix: Bytes, v: nat, suffix: Bytes, limit: nat, max: nat)
    requires max > 0 && v < Pow2(7 * max)
    requires |prefix| + |EncodeVarint(v)| <= limit <= |prefix + EncodeVarint(v) + suffix|
    ensures var data, p, n := prefix + EncodeVarint(v) + suffix, |prefix|, |EncodeVarint(v)|;
            IsVarint(data, p, limit, max, n) && GroupSum(data, p, n) == v
  {
    hide Pow2, EncodeVarint, GroupSum;
    var b, data, p := EncodeVarint(v), prefix + EncodeVarint(v) + suffix, |prefix|;
    EncodedShape(v, suffix, max);
    forall i | 0 <= i < |b| ensures data[p + i] == b[i] == (b + suffix)[i] {
    }
    forall i | p <= i < p + |b| - 1 ensures data[i] >= 128 {
      assert data[p + (i - p)] == (b + suffix)[i - p];
    }
    assert data[p..p + |b|] == b[0..|b|];
    GroupSumLocal(data, p, b, 0, |b|);
    EncodedValue(v);
  }

  lemma SmallRemainder(v: nat, m: nat)
    requires v < m
    ensures v % m == v
  {
  }

  /** Decoding undoes encoding, whatever precedes and follows, if max bytes are enough for v. */
  lemma VarintRoundTrip(prefix: Bytes, v: nat, suffix: Bytes, limit: nat, max: nat, w: nat)
    requires max > 0 && v < Pow2(w) && v < Pow2(7 * max)
    requires |prefix| + |EncodeVarint(v)| <= limit <= |prefix + EncodeVarint(v) + suffix|
    ensures DecodeVarint(prefix + EncodeVarint(v) + suffix, |prefix|, limit, max, w)
         == Some(Varint(v, |prefix| + |EncodeVarint(v)|))
  {
    hide Pow2, EncodeVarint, VarintLength, GroupSum, IsVarint;
    EncodedStands(prefix, v, suffix, limit, max);
    VarintLengthUnique(prefix + EncodeVarint(v) + suffix, |prefix|, limit, max, |EncodeVarint(v)|);
    SmallRemainder(v, Pow2(w));
  }

  /** Both decoders invert the reference encoder on every value of their width. */
  lemma VarintsRoundTrip(prefix: Bytes, v: nat, suffix: Bytes)
    ensures var data := prefix + EncodeVarint(v) + suffix;
            var read := Some(Varint(v, |prefix| + |EncodeVarint(v)|));
            (v < TWO_32 ==> Varint32(data, |prefix|, |data|) == read) &&
            (v < TWO_64 ==> Varint64(data, |prefix|, |data|) == read)
  {
    WordSize();
    Pow2Grows(32, 35);
    Pow2Grows(64, 70);
    var data := prefix + EncodeVarint(v) + suffix;
    if v < TWO_32 {
      VarintRoundTrip(prefix, v, suffix, |data|, 5, 32);
    }
    if v < TWO_64 {
      VarintRoundTrip(prefix, v, suffix, |data|, 10, 64);
    }
  }

  // ---------- fixed-width integers ----------

  /** Little-endian value of a byte string. */
  function LittleEndian(b: Bytes): nat {
    if b == [] then 0 else b[0] + 256 * LittleEndian(b[1..])
  }

  function DecodeFixed32(data: Bytes, p: nat): nat
    requires p + 4 <= |data|
  {
    BitOr(BitOr(BitOr(data[p], ShiftLeft(data[p + 1], 8)), ShiftLeft(data[p + 2], 16)), ShiftLeft(data[p + 3], 24))
  }

  function DecodeFixed64(data: Bytes, p: nat): nat
    requires p + 8 <= |data|
  {
    var lo := DecodeFixed32(data, p);
    var hi := DecodeFixed32(data, p + 4);
    BitOr(ShiftLeft(hi, 32), lo)
  }

  lemma Pow2Values()
    ensures Pow2(8) == 256 && Pow2(16) == 0x1_0000 && Pow2(24) == 0x100_0000
  {
    hide Pow2;
    Pow2Nibble();
    Pow2Sum(4, 4);
    Pow2Sum(8, 8);
    Pow2Sum(16, 8);
  }

  lemma {:induction false} BitOrCommutes(a: nat, b: nat)
    ensures BitOr(a, b) == BitOr(b, a)
    decreases a + b
  {
    if a + b > 0 {
      BitOrCommutes(a / 2, b / 2);
    }
  }

  lemma DecodeFixed32IsLittleEndian(data: Bytes, p: nat)
    requires p + 4 <= |data|
    ensures DecodeFixed32(data, p) == LittleEndian(data[p..p + 4]) < TWO_32
  {
    hide Pow2, BitOr;
    Pow2Values();
    var b0: nat, b1: nat, b2: nat, b3: nat := data[p], data[p + 1], data[p + 2], data[p + 3];
    BitOrDisjoint(b0, b1, 8);
    BitOrDisjoint(b0 + 256 * b1, b2, 16);
    BitOrDisjoint(b0 + 256 * b1 + 0x1_0000 * b2, b3, 24);
    FourBytes(data[p..p + 4]);
  }

  lemma FourBytes(b: Bytes)
    requires |b| == 4
    ensures var b0: nat, b1: nat, b2: nat, b3: nat := b[0], b[1], b[2], b[3];
            LittleEndian(b) == b0 + 256 * b1 + 0x1_0000 * b2 + 0x100_0000 * b3
  {
    assert b[2..][1..] == b[3..] && b[1..][1..] == b[2..] && b[3..][1..] == [];
    assert LittleEndian(b[3..]) == b[3];
    assert LittleEndian(b[2..]) == b[2] + 256 * LittleEndian(b[3..]);
    assert LittleEndian(b[1..]) == b[1] + 256 * LittleEndian(b[2..]);
  }

  lemma ScaleBy256(x: nat, s: nat)
    ensures x * (256 * s) == 256 * (x * s)
  {
  }

  lemma {:induction false} LittleEndianConcat(a: Bytes, b: Bytes)
    ensures LittleEndian(a + b) == LittleEndian(a) + ShiftLeft(LittleEndian(b), 8 * |a|)
  {
    if a == [] {
      assert a + b == b && ShiftLeft(LittleEndian(b), 0) == LittleEndian(b);
    } else {
      hide Pow2;
      LittleEndianConcat(a[1..], b);
      assert (a + b)[1..] == a[1..] + b;
      Pow2Sum(8, 8 * (|a| - 1));
      Pow2Values();
      ScaleBy256(LittleEndian(b), Pow2(8 * (|a| - 1)));
    }
  }

  lemma DecodeFixed64IsLittleEndian(data: Bytes, p: nat)
    requires p + 8 <= |data|
    ensures DecodeFixed64(data, p) == LittleEndian(data[p..p + 8]) < TWO_64
  {
    hide Pow2, BitOr, LittleEndian, DecodeFixed32;
    WordSize();
    DecodeFixed32IsLittleEndian(data, p);
    DecodeFixed32IsLittleEndian(data, p + 4);
    var lo, hi := DecodeFixed32(data, p), DecodeFixed32(data, p + 4);
    BitOrCommutes(ShiftLeft(hi, 32), lo);
    BitOrDisjoint(lo, hi, 32);
    assert data[p..p + 8] == data[p..p + 4] + data[p + 4..p + 4 + 4];
    LittleEndianConcat(data[p..p + 4], data[p + 4..p + 4 + 4]);
  }

  /** The n low bytes of a value, least significant first. */
  function LowBytes(value: nat, n: nat): (b: Bytes)
    ensures |b| == n
  {
    if n == 0 then [] else [value % 256] + LowBytes(value / 256, n - 1)
  }

  function Fixed64(value: nat): Bytes {
    LowBytes(value, 8)
  }

  lemma {:induction false} LowBytesValue(value: nat, n: nat)
    requires value < Pow2(8 * n)
    ensures LittleEndian(LowBytes(value, n)) == value
  {
    if n == 0 {
      assert Pow2(0) == 1;
    } else {
      Pow2Sum(8, 8 * (n - 1));
      Pow2Values();
      LowBytesValue(value / 256, n - 1);
      assert LowBytes(value, n)[1..] == LowBytes(value / 256, n - 1);
    }
  }

  lemma {:induction false} LittleEndianBytes(b: Bytes)
    ensures LowBytes(LittleEndian(b), |b|) == b
  {
    if b != [] {
      LittleEndianBytes(b[1..]);
      DivisionIs(LittleEndian(b), LittleEndian(b[1..]), b[0], 256);
      hide LittleEndian;
      assert b == [b[0]] + b[1..];
    }
  }

  lemma {:induction false} LowByteAt(value: nat, n: nat, i: nat)
    requires i < n
    ensures LowBytes(value, n)[i] == value / Pow2(8 * i) % 256
  {
    if i > 0 {
      LowByteAt(value / 256, n - 1, i - 1);
      Pow2Sum(8, 8 * (i - 1));
      Pow2Values();
      DivideTwice(value, Pow2(8 * (i - 1)));
    } else {
      assert Pow2(0) == 1;
    }
  }

  lemma DivideTwice(x: nat, m: nat)
    requires m > 0
    ensures x / (256 * m) == x / 256 / m
  {
    var q := x / 256;
    var r := q % m;
    assert q == q / m * m + r;
    ScaleBy256(q / m, m);
    DivisionIs(x, q / m, 256 * r + x % 256, 256 * m);
  }

  /** value >> k */
  function ShiftRight(value: nat, k: nat): nat {
    Quotient(value, Pow2(k))
  }

  function Quotient(x: nat, m: nat): nat
    requires m > 0
  {
    x / m
  }

  /** Byte by byte, the low byte first. */
  method EncodeFixed64(buf: array<Byte>, value: nat)
    requires buf.Length >= 8 && value < TWO_64
    modifies buf
    ensures buf[..8] == Fixed64(value) && buf[8..] == old(buf[8..])
  {
    hide Pow2;
    forall i | 0 <= i < 8 ensures Fixed64(value)[i] == ShiftRight(value, 8 * i) % 256 {
      LowByteAt(value, 8, i);
    }
    hide *;
    buf[0] := ShiftRight(value, 0) % 256;
    buf[1] := ShiftRight(value, 8) % 256;
    buf[2] := ShiftRight(value, 16) % 256;
    buf[3] := ShiftRight(value, 24) % 256;
    buf[4] := ShiftRight(value, 32) % 256;
    buf[5] := ShiftRight(value, 40) % 256;
    buf[6] := ShiftRight(value, 48) % 256;
    buf[7] := ShiftRight(value, 56) % 256;
  }

  method PutFixed64(dst: Bytes, value: nat) returns (r: Bytes)
    requires value < TWO_64
    ensures r == dst + Fixed64(value)
  {
    var buf := new Byte[8];
    EncodeFixed64(buf, value);
    r := dst + buf[..];
    assert buf[..] == buf[..8];
  }

  /** Encoding and decoding 64-bit integers undo each other, wherever the eight bytes stand. */
  lemma Fixed64RoundTrip(prefix: Bytes, value: nat, suffix: Bytes)
    requires value < TWO_64
    ensures DecodeFixed64(prefix + Fixed64(value) + suffix, |prefix|) == value
  {
    hide Pow2, LittleEndian, LowBytes;
    var data := prefix + Fixed64(value) + suffix;
    assert data[|prefix|..|prefix| + 8] == Fixed64(value);
    DecodeFixed64IsLittleEndian(data, |prefix|);
    WordSize();
    LowBytesValue(value, 8);
  }

  lemma DecodedBytesRoundTrip(data: Bytes, p: nat)
    requires p + 8 <= |data|
    ensures Fixed64(DecodeFixed64(data, p)) == data[p..p + 8]
  {
    DecodeFixed64IsLittleEndian(data, p);
    LittleEndianBytes(data[p..p + 8]);
  }
}
