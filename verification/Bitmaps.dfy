/** The packed bitmap (src/arrow_lite/bitmap.rs): one bit per row, least
    significant bit first, padding always zero. */
module Bitmaps {

  type Byte = bv8

  function ByteLen(len: nat): nat { (len + 7) / 8 }

  /** The byte with bit `k` set. */
  function Mask(k: nat): Byte
    requires k < 8
  {
    match k
    case 0 => 1 case 1 => 2 case 2 => 4 case 3 => 8
    case 4 => 16 case 5 => 32 case 6 => 64 case _ => 128
  }

  /** The payload bits of the final byte. */
  function TailMask(len: nat): Byte {
    if len % 8 == 0 then 0xFF else Mask(len % 8) - 1
  }

  predicate InByte(b: Byte, k: nat)
    requires k < 8
  {
    b & Mask(k) != 0
  }

  predicate Bit(bytes: seq<Byte>, i: nat)
    requires i < 8 * |bytes|
  {
    InByte(bytes[i / 8], i % 8)
  }

  /** What the bytes stand for. */
  ghost function Bits(bytes: seq<Byte>, len: nat): (bits: seq<bool>)
    requires len <= 8 * |bytes|
    ensures |bits| == len
  {
    seq(len, i requires 0 <= i < len => Bit(bytes, i))
  }

  /** Just enough bytes, and nothing set past the length. */
  ghost predicate Canonical(bytes: seq<Byte>, len: nat) {
    && |bytes| == ByteLen(len)
    && forall i :: len <= i < 8 * |bytes| ==> !Bit(bytes, i)
  }

  // -------------------------------------------------------------- one byte

  lemma ByteAnd(a: Byte, b: Byte, k: nat)
    requires k < 8
    ensures InByte(a & b, k) <==> InByte(a, k) && InByte(b, k)
  {
  }

  lemma ByteOr(a: Byte, b: Byte, k: nat)
    requires k < 8
    ensures InByte(a | b, k) <==> InByte(a, k) || InByte(b, k)
  {
  }

  lemma ByteNot(a: Byte, k: nat)
    requires k < 8
    ensures InByte(!a, k) <==> !InByte(a, k)
  {
  }

  lemma MaskBit(j: nat, k: nat)
    requires j < 8 && k < 8
    ensures InByte(Mask(j), k) <==> j == k
  {
  }

  lemma TailBit(len: nat, k: nat)
    requires k < 8
    ensures InByte(TailMask(len), k) <==> len % 8 == 0 || k < len % 8
  {
  }

  /** A byte is its eight bits. */
  lemma ByteExtensional(a: Byte, b: Byte)
    requires forall k :: 0 <= k < 8 ==> (InByte(a, k) <==> InByte(b, k))
    ensures a == b
  {
    assert InByte(a, 0) <==> InByte(b, 0);
    assert InByte(a, 1) <==> InByte(b, 1);
    assert InByte(a, 2) <==> InByte(b, 2);
    assert InByte(a, 3) <==> InByte(b, 3);
    assert InByte(a, 4) <==> InByte(b, 4);
    assert InByte(a, 5) <==> InByte(b, 5);
    assert InByte(a, 6) <==> InByte(b, 6);
    assert InByte(a, 7) <==> InByte(b, 7);
  }

  /** The byte with bit `j` written. */
  function SetByte(b: Byte, j: nat, value: bool): Byte
    requires j < 8
  {
    if value then b | Mask(j) else b & !Mask(j)
  }

  lemma WriteBit(b: Byte, j: nat, value: bool, k: nat)
    requires j < 8 && k < 8
    ensures InByte(SetByte(b, j, value), k) <==> if k == j then value else InByte(b, k)
  {
    if value { ByteOr(b, Mask(j), k); } else { ByteAnd(b, !Mask(j), k); ByteNot(Mask(j), k); }
    MaskBit(j, k);
  }

  /** One bit written: every other bit as it was. */
  lemma WritesOneBit(was: seq<Byte>, index: nat, value: bool, i: nat)
    requires index < 8 * |was| && i < 8 * |was|
    ensures Bit(was[index / 8 := SetByte(was[index / 8], index % 8, value)], i)
       <==> if i == index then value else Bit(was, i)
  {
    if i / 8 == index / 8 {
      WriteBit(was[i / 8], index % 8, value, i % 8);
      assert i == index <==> i % 8 == index % 8;
    }
  }

  // ------------------------------------------------------------ whole bitmaps

  /** In canonical form the bytes are determined by the bits, so comparing bytes is
      comparing bits. */
  lemma CanonicalIsUnique(a: seq<Byte>, b: seq<Byte>, len: nat)
    requires Canonical(a, len) && Canonical(b, len)
    ensures a == b <==> Bits(a, len) == Bits(b, len)
  {
    if Bits(a, len) == Bits(b, len) {
      forall n | 0 <= n < |a| ensures a[n] == b[n] {
        forall k | 0 <= k < 8 ensures InByte(a[n], k) <==> InByte(b[n], k) {
          SamePlace(a, n, k);
          SamePlace(b, n, k);
          if 8 * n + k < len { assert Bits(a, len)[8 * n + k] == Bits(b, len)[8 * n + k]; }
        }
        ByteExtensional(a[n], b[n]);
      }
    }
  }

  lemma SamePlace(bytes: seq<Byte>, n: nat, k: nat)
    requires n < |bytes| && k < 8
    ensures 8 * n + k < 8 * |bytes| && Bit(bytes, 8 * n + k) == InByte(bytes[n], k)
  {
    assert (8 * n + k) / 8 == n && (8 * n + k) % 8 == k;
  }

  /** The last byte masked to the payload: whatever the padding was, it is zero. */
  function MaskTail(bytes: seq<Byte>, len: nat): (r: seq<Byte>)
    requires |bytes| == ByteLen(len)
    ensures |r| == |bytes|
  {
    if bytes == [] then bytes else bytes[|bytes| - 1 := bytes[|bytes| - 1] & TailMask(len)]
  }

  /** Masking clears the padding and touches no payload bit. */
  lemma MaskTailIsCanonical(bytes: seq<Byte>, len: nat)
    requires |bytes| == ByteLen(len)
    ensures Canonical(MaskTail(bytes, len), len) && Bits(MaskTail(bytes, len), len) == Bits(bytes, len)
  {
    forall i | 0 <= i < 8 * |bytes|
      ensures Bit(MaskTail(bytes, len), i) <==> i < len && Bit(bytes, i)
    {
      MaskedBit(bytes, len, i);
    }
  }

  lemma InLastByte(len: nat, i: nat)
    requires i / 8 == ByteLen(len) - 1
    ensures i < len <==> len % 8 == 0 || i % 8 < len % 8
  {
  }

  lemma MaskedBit(bytes: seq<Byte>, len: nat, i: nat)
    requires |bytes| == ByteLen(len) && i < 8 * |bytes|
    ensures Bit(MaskTail(bytes, len), i) <==> i < len && Bit(bytes, i)
  {
    var last := |bytes| - 1;
    if i / 8 == last {
      ByteAnd(bytes[last], TailMask(len), i % 8);
      TailBit(len, i % 8);
      InLastByte(len, i);
    }
  }

  // -------------------------------------------------- byte-wise operations

  ghost function Pointwise(a: seq<bool>, b: seq<bool>, op: (bool, bool) -> bool): (r: seq<bool>)
    requires |a| == |b|
  {
    seq(|a|, i requires 0 <= i < |a| => op(a[i], b[i]))
  }

  ghost function Negated(a: seq<bool>): (r: seq<bool>) { seq(|a|, i requires 0 <= i < |a| => !a[i]) }

  function ZipBytes(a: seq<Byte>, b: seq<Byte>, op: (Byte, Byte) -> Byte): (r: seq<Byte>)
    requires |a| == |b|
  {
    seq(|a|, n requires 0 <= n < |a| => op(a[n], b[n]))
  }

  function Complement(a: seq<Byte>): seq<Byte> { seq(|a|, n requires 0 <= n < |a| => !a[n]) }

  /** A byte operation that acts bit by bit, and leaves zero padding zero, is that
      operation on the bits. */
  lemma ZipIsPointwise(a: seq<Byte>, b: seq<Byte>, len: nat, op: (Byte, Byte) -> Byte, bit: (bool, bool) -> bool)
    requires Canonical(a, len) && Canonical(b, len) && !bit(false, false)
    requires forall x, y, k: nat :: k < 8 ==> (InByte(op(x, y), k) <==> bit(InByte(x, k), InByte(y, k)))
    ensures Canonical(ZipBytes(a, b, op), len)
    ensures Bits(ZipBytes(a, b, op), len) == Pointwise(Bits(a, len), Bits(b, len), bit)
  {
    forall i | 0 <= i < 8 * |a| ensures Bit(ZipBytes(a, b, op), i) <==> bit(Bit(a, i), Bit(b, i)) {
      assert ZipBytes(a, b, op)[i / 8] == op(a[i / 8], b[i / 8]);
    }
  }

  lemma NotIsPointwise(a: seq<Byte>, len: nat)
    requires Canonical(a, len)
    ensures Canonical(MaskTail(Complement(a), len), len)
    ensures Bits(MaskTail(Complement(a), len), len) == Negated(Bits(a, len))
  {
    MaskTailIsCanonical(Complement(a), len);
    forall i | 0 <= i < len ensures Bit(Complement(a), i) == !Bit(a, i) {
      assert Complement(a)[i / 8] == !a[i / 8];
      ByteNot(a[i / 8], i % 8);
    }
  }

  // ------------------------------------------------------------- the counting

  function CountOnes(b: Byte): nat { OnesBelow(b, 8) }

  function OnesBelow(b: Byte, n: nat): nat
    requires n <= 8
  {
    if n == 0 then 0 else OnesBelow(b, n - 1) + if InByte(b, n - 1) then 1 else 0
  }

  ghost function Trues(bits: seq<bool>): nat {
    if bits == [] then 0 else Trues(bits[..|bits| - 1]) + if bits[|bits| - 1] then 1 else 0
  }

  lemma {:induction false} TruesAppend(a: seq<bool>, b: seq<bool>)
    ensures Trues(a + b) == Trues(a) + Trues(b)
  {
    if b == [] {
      assert a + b == a;
    } else {
      TruesAppend(a, b[..|b| - 1]);
      assert (a + b)[..|a + b| - 1] == a + b[..|b| - 1];
    }
  }

  /** The bits of one more byte. */
  lemma BitsOfByte(bytes: seq<Byte>, n: nat)
    requires n < |bytes|
    ensures Bits(bytes, 8 * n + 8) == Bits(bytes, 8 * n) + Bits([bytes[n]], 8)
  {
    forall k | 0 <= k < 8 ensures Bits(bytes, 8 * n + 8)[8 * n + k] == Bits([bytes[n]], 8)[k] {
      SamePlace(bytes, n, k);
      SamePlace([bytes[n]], 0, k);
    }
  }

  lemma {:induction false} OnesAreTrues(b: Byte, n: nat)
    requires n <= 8
    ensures Trues(Bits([b], n)) == OnesBelow(b, n)
  {
    if n == 0 {
    } else {
      OnesAreTrues(b, n - 1);
      SamePlace([b], 0, n - 1);
      assert Bits([b], n)[..n - 1] == Bits([b], n - 1);
    }
  }

  lemma {:induction false} NoTrues(bits: seq<bool>)
    requires forall i :: 0 <= i < |bits| ==> !bits[i]
    ensures Trues(bits) == 0
  {
    if bits == [] {
    } else {
      NoTrues(bits[..|bits| - 1]);
    }
  }

  // ------------------------------------------------------------- the set bits

  /** The indices of the set bits among the first `n`, in increasing order. */
  ghost function SetBelow(bits: seq<bool>, n: nat): seq<nat>
    requires n <= |bits|
  {
    if n == 0 then [] else SetBelow(bits, n - 1) + if bits[n - 1] then [n - 1] else []
  }

  lemma {:induction false} SetBelowIsExact(bits: seq<bool>, n: nat)
    requires n <= |bits|
    ensures forall i: nat :: i in SetBelow(bits, n) <==> i < n && bits[i]
    ensures forall p, q :: 0 <= p < q < |SetBelow(bits, n)| ==> SetBelow(bits, n)[p] < SetBelow(bits, n)[q]
  {
    if n == 0 {
    } else {
      SetBelowIsExact(bits, n - 1);
      var below := SetBelow(bits, n - 1);
      forall p | 0 <= p < |below| ensures below[p] < n - 1 { assert below[p] in below; }
    }
  }

  lemma {:induction false} SetBelowAgrees(a: seq<bool>, b: seq<bool>, n: nat)
    requires n <= |a| && n <= |b| && a[..n] == b[..n]
    ensures SetBelow(a, n) == SetBelow(b, n)
  {
    if n == 0 {
    } else {
      assert a[..n][n - 1] == b[..n][n - 1] && a[..n][..n - 1] == a[..n - 1] && b[..n][..n - 1] == b[..n - 1];
      SetBelowAgrees(a, b, n - 1);
    }
  }

  lemma {:induction false} SetBelowSkips(bits: seq<bool>, n: nat, m: nat)
    requires n <= m <= |bits| && forall i :: n <= i < m ==> !bits[i]
    ensures SetBelow(bits, m) == SetBelow(bits, n)
    decreases m
  {
    if m <= n {
    } else {
      SetBelowSkips(bits, n, m - 1);
    }
  }

  lemma CountStep(bytes: seq<Byte>, n: nat)
    requires n < |bytes|
    ensures Trues(Bits(bytes, 8 * (n + 1))) == Trues(Bits(bytes, 8 * n)) + CountOnes(bytes[n])
  {
    BitsOfByte(bytes, n);
    TruesAppend(Bits(bytes, 8 * n), Bits([bytes[n]], 8));
    OnesAreTrues(bytes[n], 8);
  }

  lemma PaddingCountsNothing(bytes: seq<Byte>, len: nat)
    requires Canonical(bytes, len)
    ensures Trues(Bits(bytes, 8 * |bytes|)) == Trues(Bits(bytes, len))
  {
    var all, value := Bits(bytes, 8 * |bytes|), Bits(bytes, len);
    assert all == value + all[len..];
    TruesAppend(value, all[len..]);
    NoTrues(all[len..]);
  }

  lemma ZeroByteSkips(bytes: seq<Byte>, n: nat)
    requires n < |bytes| && bytes[n] == 0
    ensures SetBelow(Bits(bytes, 8 * |bytes|), 8 * n + 8) == SetBelow(Bits(bytes, 8 * |bytes|), 8 * n)
  {
    var all := Bits(bytes, 8 * |bytes|);
    forall i | 8 * n <= i < 8 * n + 8 ensures !all[i] { ZeroByte(i % 8); }
    SetBelowSkips(all, 8 * n, 8 * n + 8);
  }

  /** Whole bytes or just the payload: the same set indices. */
  lemma PaddingAddsNothing(bytes: seq<Byte>, len: nat)
    requires Canonical(bytes, len)
    ensures SetBelow(Bits(bytes, 8 * |bytes|), 8 * |bytes|) == SetBelow(Bits(bytes, len), len)
  {
    var all := Bits(bytes, 8 * |bytes|);
    SetBelowSkips(all, len, 8 * |bytes|);
    assert all[..len] == Bits(bytes, len);
    SetBelowAgrees(all, Bits(bytes, len), len);
  }

  class Bitmap {
    var bytes: seq<Byte>
    const len: nat

    ghost predicate Valid()
      reads this
    {
      Canonical(bytes, len)
    }

    /** One bool per bit. */
    ghost function Value(): (bits: seq<bool>)
      requires Valid()
      reads this
    {
      Bits(bytes, len)
    }

    constructor Raw(b: seq<Byte>, n: nat)
      requires Canonical(b, n)
      ensures Valid() && bytes == b && len == n
    {
      bytes, len := b, n;
    }

    /** All set. */
    constructor NewSet(n: nat)
      ensures Valid() && Value() == seq(n, _ => true)
    {
      bytes, len := MaskTail(seq(ByteLen(n), _ => 0xFF), n), n;
      new;
      ghost var full: seq<Byte> := seq(ByteLen(n), _ => 0xFF);
      MaskTailIsCanonical(full, n);
      forall i | 0 <= i < n ensures Bits(full, n)[i] { FullByte(i % 8); }
    }

    /** All unset. */
    constructor NewUnset(n: nat)
      ensures Valid() && Value() == seq(n, _ => false)
    {
      bytes, len := seq(ByteLen(n), _ => 0), n;
    }

    /** The bit at `index`. */
    function Get(index: nat): (bit: bool)
      requires Valid() && index < len
      reads this
      ensures bit == Value()[index]
    {
      Bit(bytes, index)
    }

    /** Sets the bit at `index`, in place. */
    method Set(index: nat, value: bool)
      requires Valid() && index < len
      modifies this
      ensures Valid() && Value() == old(Value())[index := value]
    {
      ghost var was := bytes;
      bytes := bytes[index / 8 := SetByte(bytes[index / 8], index % 8, value)];
      forall i | 0 <= i < 8 * |bytes|
        ensures Bit(bytes, i) <==> if i == index then value else Bit(was, i)
      {
        WritesOneBit(was, index, value, i);
      }
    }

    /** How many bits are set, a byte at a time. */
    method CountSet() returns (count: nat)
      requires Valid()
      ensures count == Trues(Value())
    {
      count := 0;
      for n := 0 to |bytes|
        invariant count == Trues(Bits(bytes, 8 * n))
      {
        CountStep(bytes, n);
        count := count + CountOnes(bytes[n]);
      }
      PaddingCountsNothing(bytes, len);
    }

    method And(other: Bitmap) returns (r: Bitmap)
      requires Valid() && other.Valid() && len == other.len
      ensures fresh(r) && r.Valid() && r.Value() == Pointwise(Value(), other.Value(), (p, q) => p && q)
    {
      var zipped := ZipBytes(bytes, other.bytes, (a: Byte, b: Byte) => a & b);
      forall a, b, k: nat | k < 8 ensures InByte(a & b, k) <==> InByte(a, k) && InByte(b, k) { ByteAnd(a, b, k); }
      ZipIsPointwise(bytes, other.bytes, len, (a: Byte, b: Byte) => a & b, (p, q) => p && q);
      r := new Bitmap.Raw(zipped, len);
    }

    method Or(other: Bitmap) returns (r: Bitmap)
      requires Valid() && other.Valid() && len == other.len
      ensures fresh(r) && r.Valid() && r.Value() == Pointwise(Value(), other.Value(), (p, q) => p || q)
    {
      var zipped := ZipBytes(bytes, other.bytes, (a: Byte, b: Byte) => a | b);
      forall a, b, k: nat | k < 8 ensures InByte(a | b, k) <==> InByte(a, k) || InByte(b, k) { ByteOr(a, b, k); }
      ZipIsPointwise(bytes, other.bytes, len, (a: Byte, b: Byte) => a | b, (p, q) => p || q);
      r := new Bitmap.Raw(zipped, len);
    }

    /** Complements every byte, then masks the tail. */
    method Not() returns (r: Bitmap)
      requires Valid()
      ensures fresh(r) && r.Valid() && r.Value() == Negated(Value())
    {
      NotIsPointwise(bytes, len);
      r := new Bitmap.Raw(MaskTail(Complement(bytes), len), len);
    }

    /** The set indices in increasing order, whole zero bytes skipped. */
    method IterSet() returns (indices: seq<nat>)
      requires Valid()
      ensures indices == SetBelow(Value(), len)
    {
      indices := [];
      ghost var all := Bits(bytes, 8 * |bytes|);
      for n := 0 to |bytes|
        invariant indices == SetBelow(all, 8 * n)
      {
        if bytes[n] != 0 {
          indices := IterByte(bytes, n, indices);
        } else {
          ZeroByteSkips(bytes, n);
        }
      }
      PaddingAddsNothing(bytes, len);
    }
  }

  /** The set bits of one byte, after those of the bytes before it. */
  method IterByte(bytes: seq<Byte>, n: nat, before: seq<nat>) returns (indices: seq<nat>)
    requires n < |bytes| && before == SetBelow(Bits(bytes, 8 * |bytes|), 8 * n)
    ensures indices == SetBelow(Bits(bytes, 8 * |bytes|), 8 * n + 8)
  {
    indices := before;
    for k := 0 to 8
      invariant indices == SetBelow(Bits(bytes, 8 * |bytes|), 8 * n + k)
    {
      SamePlace(bytes, n, k);
      if InByte(bytes[n], k) { indices := indices + [n * 8 + k]; }
    }
  }

  lemma FullByte(k: nat)
    requires k < 8
    ensures InByte(0xFF, k)
  {
  }

  lemma ZeroByte(k: nat)
    requires k < 8
    ensures !InByte(0, k)
  {
  }

  /** One bool per bit, a byte pushed every eighth. */
  method FromBools(bools: seq<bool>) returns (r: Bitmap)
    ensures fresh(r) && r.Valid() && r.Value() == bools
  {
    var bytes: seq<Byte> := [];
    for len := 0 to |bools|
      invariant Canonical(bytes, len) && Bits(bytes, len) == bools[..len]
    {
      bytes := PushBit(bytes, len, bools[len]);
      assert bools[..len + 1] == bools[..len] + [bools[len]];
    }
    r := new Bitmap.Raw(bytes, |bools|);
  }

  function PushBit(bytes: seq<Byte>, len: nat, b: bool): (r: seq<Byte>)
    requires Canonical(bytes, len)
    ensures Canonical(r, len + 1) && Bits(r, len + 1) == Bits(bytes, len) + [b]
  {
    var grown := if len % 8 == 0 then bytes + [0] else bytes;
    var last := |grown| - 1;
    var r := if b then grown[last := grown[last] | Mask(len % 8)] else grown;
    GrownBits(bytes, len, grown);
    PushedBit(bytes, len, b, grown, r);
    r
  }

  /** The new byte, if any, is all zero. */
  lemma GrownBits(bytes: seq<Byte>, len: nat, grown: seq<Byte>)
    requires Canonical(bytes, len) && grown == if len % 8 == 0 then bytes + [0] else bytes
    ensures |grown| == ByteLen(len + 1) && len / 8 == |grown| - 1
    ensures forall i :: 0 <= i < 8 * |grown| ==> (Bit(grown, i) <==> i < len && Bit(bytes, i))
  {
    forall i | 0 <= i < 8 * |grown| ensures Bit(grown, i) <==> i < len && Bit(bytes, i) {
      if i >= 8 * |bytes| { ZeroByte(i % 8); }
    }
  }

  lemma PushedBit(bytes: seq<Byte>, len: nat, b: bool, grown: seq<Byte>, r: seq<Byte>)
    requires Canonical(bytes, len) && |grown| == ByteLen(len + 1) && len / 8 == |grown| - 1
    requires forall i :: 0 <= i < 8 * |grown| ==> (Bit(grown, i) <==> i < len && Bit(bytes, i))
    requires r == if b then grown[|grown| - 1 := SetByte(grown[|grown| - 1], len % 8, true)] else grown
    ensures Canonical(r, len + 1) && Bits(r, len + 1) == Bits(bytes, len) + [b]
  {
    forall i | 0 <= i < 8 * |r| ensures Bit(r, i) <==> if i == len then b else i < len && Bit(bytes, i) {
      if b { WritesOneBit(grown, len, true, i); }
    }
  }
}
