/** The compressed bitfield: a set of numbers below bitCount, kept as an array of bits only while it is
    neither empty nor full (bitfield.c, bitfield.h). */
module Bitfields {
  import opened BitArrays

  // ---------- whole arrays ----------

  lemma SetBitsBelow(bits: seq<bv8>, bitCount: nat)
    requires forall n :: n in SetBits(bits) ==> n < bitCount
    ensures |SetBits(bits)| == CountIn(SetBits(bits), 0, bitCount)
  {
    CountIsCardinality(SetBits(bits), 0, bitCount);
    assert SetBits(bits) == set n | n in SetBits(bits) && 0 <= n < bitCount;
  }

  predicate InRange(lo: nat, n: nat, hi: nat) {
    lo <= n < hi
  }

  function Between(lo: nat, hi: nat): set<nat> {
    set n: nat | n < hi && InRange(lo, n, hi)
  }

  function Upto(n: nat): set<nat> {
    Between(0, n)
  }

  lemma ClearedBits(bits: seq<bv8>)
    requires forall i :: 0 <= i < |bits| ==> bits[i] == 0
    ensures SetBits(bits) == {}
  {
    forall n: nat | n < 8 * |bits|
      ensures !IsSet(bits, n)
    {
      AllBits(n % 8);
    }
  }

  lemma ExtendedBits(bits: seq<bv8>, zeros: seq<bv8>)
    requires forall i :: 0 <= i < |zeros| ==> zeros[i] == 0
    ensures SetBits(bits + zeros) == SetBits(bits)
  {
    var r := bits + zeros;
    forall n: nat | n < 8 * |r|
      ensures IsSet(r, n) <==> n < 8 * |bits| && IsSet(bits, n)
    {
      if 8 * |bits| <= n {
        assert r[n / 8] == zeros[n / 8 - |bits|];
        AllBits(n % 8);
      }
    }
  }

  /** set_all_true */
  method SetAllTrue(bitCount: nat) returns (bits: seq<bv8>)
    requires 0 < bitCount
    ensures |bits| == BytesNeeded(bitCount) && SetBits(bits) == Upto(bitCount)
  {
    var n := BytesNeeded(bitCount);
    var last := LastByte(8 * n - bitCount);
    bits := seq(n - 1, _ => 0xff) + [last];
    forall k: nat | k < 8 * n
      ensures IsSet(bits, k) <==> k < bitCount
    {
      AllBits(k % 8);
      ByteOf(k);
    }
  }

  /** 0xff << excess */
  method LastByte(excess: nat) returns (b: bv8)
    requires excess < 8
    ensures forall j: nat :: j < 8 ==> (Bit(b, j) <==> j < 8 - excess)
  {
    b := Shl(0xff, excess);
    forall j: nat | j < 8
      ensures Bit(b, j) <==> j < 8 - excess
    {
      ShlBit(0xff, excess, j);
      if excess + j < 8 {
        AllBits(excess + j);
      }
    }
  }

  lemma OneAdded(s: set<nat>, n: nat, bitCount: nat)
    requires n < bitCount && n !in s
    ensures CountIn(s + {n}, 0, bitCount) == CountIn(s, 0, bitCount) + 1
  {
    assert s + {n} == s + Between(n, n + 1);
    RangeCount(s, n, n + 1, bitCount);
    CountBounds(s, n, n + 1);
  }

  /** bits[n >> 3u] |= 0x80 >> (n & 7u) */
  method SetOne(bits: seq<bv8>, n: nat) returns (r: seq<bv8>)
    requires n < 8 * |bits|
    ensures |r| == |bits| && SetBits(r) == SetBits(bits) + {n}
  {
    var b := OneMore(bits[n / 8], n % 8);
    r := bits[n / 8 := b];
    forall k: nat | k < 8 * |bits|
      ensures IsSet(r, k) <==> k == n || IsSet(bits, k)
    {
      ByteOf(k);
      ByteOf(n);
    }
  }

  method OneMore(b: bv8, k: nat) returns (r: bv8)
    requires k < 8
    ensures forall j: nat :: j < 8 ==> (Bit(r, j) <==> j == k || Bit(b, j))
  {
    var mask := Shr(0x80, k);
    r := b | mask;
    forall j: nat | j < 8
      ensures Bit(r, j) <==> j == k || Bit(b, j)
    {
      OneBit(k, j);
      OrBit(b, mask, j);
    }
  }

  /** Clears the bits past the last one. */
  method ClearExcess(bits: seq<bv8>, bitCount: nat) returns (r: seq<bv8>)
    requires 0 < bitCount && |bits| == BytesNeeded(bitCount)
    ensures |r| == |bits| && SetBits(r) == set n | n in SetBits(bits) && n < bitCount
  {
    var excess := 8 * |bits| - bitCount;
    r := bits;
    if excess > 0 {
      var b := KeepFirst(bits[|bits| - 1], excess);
      r := r[|bits| - 1 := b];
    }
    forall n: nat | n < 8 * |bits|
      ensures IsSet(r, n) <==> IsSet(bits, n) && n < bitCount
    {
      ByteOf(n);
    }
  }

  method KeepFirst(b: bv8, excess: nat) returns (r: bv8)
    requires excess < 8
    ensures forall j: nat :: j < 8 ==> (Bit(r, j) <==> j < 8 - excess && Bit(b, j))
  {
    var mask := LastByte(excess);
    r := b & mask;
    forall j: nat | j < 8
      ensures Bit(r, j) <==> j < 8 - excess && Bit(b, j)
    {
      AndBit(b, mask, j);
    }
  }

  lemma RangeSetBits(bits: seq<bv8>, first: nat, last: nat, b: bool, r: seq<bv8>)
    requires RangeSet(bits, first, last, b, r) && first <= last < 8 * |bits|
    ensures SetBits(r) == if b then SetBits(bits) + Between(first, last + 1) else SetBits(bits) - Between(first, last + 1)
  {
    forall n: nat | n < 8 * |bits|
      ensures IsSet(r, n) <==> if first <= n <= last then b else IsSet(bits, n)
    {
    }
  }

  /** How adding or removing a range changes the count */
  lemma RangeCount(s: set<nat>, lo: nat, hi: nat, bitCount: nat)
    requires lo <= hi <= bitCount
    ensures CountIn(s + Between(lo, hi), 0, bitCount) == CountIn(s, 0, bitCount) + (hi - lo) - CountIn(s, lo, hi)
    ensures CountIn(s - Between(lo, hi), 0, bitCount) == CountIn(s, 0, bitCount) - CountIn(s, lo, hi)
  {
    var more, less := s + Between(lo, hi), s - Between(lo, hi);
    CountInThree(s, 0, lo, hi, bitCount);
    CountInThree(more, 0, lo, hi, bitCount);
    CountInThree(less, 0, lo, hi, bitCount);
    CountSame(s, more, 0, lo);
    CountSame(s, more, hi, bitCount);
    CountSame(s, less, 0, lo);
    CountSame(s, less, hi, bitCount);
    CountBounds(more, lo, hi);
    CountBounds(less, lo, hi);
  }

  function FlagSet(flags: seq<bool>): set<nat> {
    set n: nat | n < |flags| && flags[n]
  }

  /** The first i flags have been added to base, and counted. */
  ghost predicate FlagsDone(base: set<nat>, flags: seq<bool>, i: nat, s: set<nat>, count: nat) {
    i <= |flags| && s == base + FlagSet(flags[..i]) && count == |FlagSet(flags[..i])|
  }

  /** Sets the bits of the flags that are up, and counts them. */
  method SetFlags(bits: seq<bv8>, flags: seq<bool>) returns (r: seq<bv8>, trueCount: nat)
    requires BytesNeeded(|flags|) <= |bits|
    ensures |r| == |bits| && SetBits(r) == SetBits(bits) + FlagSet(flags) && trueCount == |FlagSet(flags)|
  {
    r, trueCount := bits, 0;
    var i: nat := 0;
    NoFlags(SetBits(bits), flags);
    while i < |flags|
      invariant |r| == |bits| && FlagsDone(SetBits(bits), flags, i, SetBits(r), trueCount)
    {
      FlagsStep(SetBits(bits), flags, i, SetBits(r), trueCount);
      if flags[i] {
        trueCount := trueCount + 1;
        r := SetOne(r, i);
      }
      i := i + 1;
    }
    assert flags[..i] == flags;
  }

  lemma NoFlags(base: set<nat>, flags: seq<bool>)
    ensures FlagsDone(base, flags, 0, base, 0)
  {
  }

  lemma FlagsStep(base: set<nat>, flags: seq<bool>, i: nat, s: set<nat>, count: nat)
    requires FlagsDone(base, flags, i, s, count) && i < |flags|
    ensures if flags[i] then FlagsDone(base, flags, i + 1, s + {i}, count + 1) else FlagsDone(base, flags, i + 1, s, count)
  {
    var before := FlagSet(flags[..i]);
    assert FlagSet(flags[..i + 1]) == if flags[i] then before + {i} else before;
    assert i !in before;
  }

  /** The mask in tr_bitfieldRem, 0xff7f >> k in an unsigned char */
  method ClearOne(bits: seq<bv8>, n: nat) returns (r: seq<bv8>)
    requires n < 8 * |bits|
    ensures |r| == |bits| && SetBits(r) == SetBits(bits) - {n}
  {
    var b := OneLess(bits[n / 8], n % 8);
    r := bits[n / 8 := b];
    forall k: nat | k < 8 * |bits|
      ensures IsSet(r, k) <==> k != n && IsSet(bits, k)
    {
      ByteOf(k);
      ByteOf(n);
    }
  }

  method OneLess(b: bv8, k: nat) returns (r: bv8)
    requires k < 8
    ensures forall j: nat :: j < 8 ==> (Bit(r, j) <==> j != k && Bit(b, j))
  {
    var one := Shr(0x80, k);
    r := b & !one;
    forall j: nat | j < 8
      ensures Bit(r, j) <==> j != k && Bit(b, j)
    {
      OneBit(k, j);
      NotBit(one, j);
      AndBit(b, !one, j);
    }
  }

  lemma RangeAdded(bits: seq<bv8>, lo: nat, hi: nat, bitCount: nat, r: seq<bv8>)
    requires lo < hi <= bitCount && hi <= 8 * |bits| && SetBits(bits) <= Upto(bitCount)
    requires RangeSet(bits, lo, hi - 1, true, r)
    ensures SetBits(r) == SetBits(bits) + Between(lo, hi) && SetBits(r) <= Upto(bitCount)
    ensures CountIn(SetBits(r), 0, bitCount) ==
      CountIn(SetBits(bits), 0, bitCount) + (hi - lo) - CountIn(SetBits(bits), lo, hi)
  {
    RangeSetBits(bits, lo, hi - 1, true, r);
    RangeCount(SetBits(bits), lo, hi, bitCount);
  }

  lemma RangeRemoved(bits: seq<bv8>, lo: nat, hi: nat, bitCount: nat, r: seq<bv8>)
    requires lo < hi <= bitCount && hi <= 8 * |bits| && SetBits(bits) <= Upto(bitCount)
    requires RangeSet(bits, lo, hi - 1, false, r)
    ensures SetBits(r) == SetBits(bits) - Between(lo, hi) && SetBits(r) <= Upto(bitCount)
    ensures CountIn(SetBits(r), 0, bitCount) == CountIn(SetBits(bits), 0, bitCount) - CountIn(SetBits(bits), lo, hi)
  {
    RangeSetBits(bits, lo, hi - 1, false, r);
    RangeCount(SetBits(bits), lo, hi, bitCount);
  }

  class Bitfield {
    var bits: seq<bv8>
    var bitCount: nat
    var trueCount: nat
    // used while the number of bits is not known, which is when bitCount is 0
    var haveAllHint: bool
    var haveNoneHint: bool

    predicate HasAll()
      reads this
    {
      if bitCount > 0 then trueCount == bitCount else haveAllHint
    }

    predicate HasNone()
      reads this
    {
      if bitCount > 0 then trueCount == 0 else haveNoneHint
    }

    predicate Has(n: nat)
      reads this
    {
      HasAll() || (!HasNone() && IsSet(bits, n))
    }

    ghost function Members(): set<nat>
      reads this
    {
      set n: nat | n < bitCount && Has(n)
    }

    /** The array is there exactly when it is needed, has no excess bits, and trueCount counts it. */
    ghost predicate Valid()
      reads this
    {
      0 < bitCount &&
      if HasAll() || HasNone() then bits == []
      else |bits| <= BytesNeeded(bitCount) && trueCount == |SetBits(bits)| && SetBits(bits) <= Upto(bitCount)
    }

    /** trueCount counts the members; an array holds just them. */
    lemma MembersCounted()
      requires Valid()
      ensures trueCount == |Members()| == CountIn(Members(), 0, bitCount)
      ensures !HasAll() && !HasNone() ==> SetBits(bits) == Members()
    {
      var m := Members();
      CountIsCardinality(m, 0, bitCount);
      assert m == set n | n in m && 0 <= n < bitCount;
      CountBounds(m, 0, bitCount);
      if !HasAll() && !HasNone() {
        assert m == SetBits(bits);
      }
    }

    constructor (bitCount: nat)
      ensures this.bitCount == bitCount && trueCount == 0 && bits == [] && !haveAllHint && !haveNoneHint
      ensures 0 < bitCount ==> Valid() && Members() == {}
    {
      this.bitCount := bitCount;
      trueCount := 0;
      bits := [];
      haveAllHint, haveNoneHint := false, false;
    }

    method SetHasNone()
      modifies this
      ensures bitCount == old(bitCount) && HasNone() && bits == [] && trueCount == 0
      ensures 0 < bitCount ==> Valid() && Members() == {}
    {
      bits := [];
      trueCount := 0;
      haveAllHint, haveNoneHint := false, true;
    }

    method SetHasAll()
      modifies this
      ensures bitCount == old(bitCount) && HasAll() && bits == [] && trueCount == bitCount
      ensures 0 < bitCount ==> Valid() && Members() == Upto(bitCount)
    {
      bits := [];
      trueCount := bitCount;
      haveAllHint, haveNoneHint := true, false;
    }

    /** tr_bitfieldSetTrueCount: drops the array when all or none of the bits are set */
    method SetTrueCount(n: nat)
      requires 0 < bitCount && |bits| <= BytesNeeded(bitCount) && SetBits(bits) <= Upto(bitCount)
      modifies this
      ensures bitCount == old(bitCount) && trueCount == n
      ensures bits == if n == 0 || n == bitCount then [] else old(bits)
      ensures Valid() <==> n == 0 || n == bitCount || n == old(|SetBits(bits)|)
      ensures Members() == if n == 0 then {} else if n == bitCount then Upto(bitCount) else old(SetBits(bits))
    {
      trueCount := n;
      if HasAll() || HasNone() {
        bits := [];
      }
    }

    /** tr_bitfieldEnsureBitsAlloced: an array with room for n bits, holding all members */
    method EnsureBitsAlloced(n: nat)
      requires 0 < bitCount && n <= bitCount && |bits| <= BytesNeeded(bitCount)
      requires HasAll() ==> bits == []
      modifies `bits
      ensures BytesNeeded(n) <= |bits| <= BytesNeeded(bitCount)
      ensures SetBits(bits) == if HasAll() then Upto(bitCount) else old(SetBits(bits))
    {
      var hasAll := HasAll();
      var bytesNeeded := BytesNeeded(if hasAll && n < trueCount then trueCount else n);
      if |bits| < bytesNeeded {
        var zeros: seq<bv8> := seq(bytesNeeded - |bits|, _ => 0);
        ExtendedBits(bits, zeros);
        bits := bits + zeros;
        if hasAll {
          bits := SetAllTrue(trueCount);
        }
      }
    }

    /** countRange behind the two special cases: tr_bitfieldCountRange */
    method CountRange(begin: nat, end: nat) returns (ret: nat)
      requires Valid() && begin < end
      ensures ret <= end - begin
      ensures end <= bitCount ==> ret == CountIn(Members(), begin, end)
    {
      MembersCounted();
      CountBounds(Members(), 0, bitCount);
      if end <= bitCount {
        CountBounds(Members(), begin, end);
      }
      if HasAll() {
        return end - begin;
      }
      if HasNone() {
        return 0;
      }
      ret := BitArrays.CountRange(bits, begin, end);
      CountBounds(SetBits(bits), begin, end);
    }

    /** The array of a field that is about to change */
    method Materialise(n: nat)
      requires Valid() && n <= bitCount
      modifies `bits
      ensures BytesNeeded(n) <= |bits| <= BytesNeeded(bitCount) && SetBits(bits) == old(Members())
      ensures trueCount == CountIn(SetBits(bits), 0, bitCount)
    {
      ghost var s := Members();
      MembersCounted();
      EnsureBitsAlloced(n);
      assert SetBits(bits) == s;
    }

    method TakeBits(r: seq<bv8>, n: nat)
      requires 0 < bitCount && |r| <= BytesNeeded(bitCount)
      requires SetBits(r) <= Upto(bitCount) && n == CountIn(SetBits(r), 0, bitCount)
      modifies this
      ensures Valid() && bitCount == old(bitCount) && Members() == SetBits(r)
    {
      bits := r;
      SetBitsBelow(r, bitCount);
      CountBounds(SetBits(r), 0, bitCount);
      assert n == bitCount ==> SetBits(r) == Upto(bitCount);
      SetTrueCount(n);
    }

    method Add(n: nat)
      requires Valid() && n < bitCount
      modifies this
      ensures Valid() && bitCount == old(bitCount) && Members() == old(Members()) + {n}
    {
      if !Has(n) {
        Materialise(n + 1);
        var r := SetOne(bits, n);
        OneAdded(SetBits(bits), n, bitCount);
        TakeBits(r, trueCount + 1);
      }
    }

    /** Sets the bits begin..end, if they are bits of this field. */
    method AddRange(begin: nat, end: nat)
      requires Valid() && begin < end
      modifies this
      ensures Valid() && bitCount == old(bitCount)
      ensures Members() == if end <= bitCount then old(Members()) + Between(begin, end) else old(Members())
    {
      var had := CountRange(begin, end);
      var diff := end - begin - had;
      if diff == 0 {
        if end <= bitCount {
          CountBounds(Members(), begin, end);
          assert Members() == Members() + Between(begin, end);
        }
      } else if end - 1 < bitCount {
        Materialise(end);
        var r := SetRange(bits, begin, end - 1);
        RangeAdded(bits, begin, end, bitCount, r);
        TakeBits(r, trueCount + diff);
      }
    }

    method RemRange(begin: nat, end: nat)
      requires Valid() && begin < end
      modifies this
      ensures Valid() && bitCount == old(bitCount)
      ensures Members() == if end <= bitCount then old(Members()) - Between(begin, end) else old(Members())
    {
      var diff := CountRange(begin, end);
      if diff == 0 {
        if end <= bitCount {
          CountBounds(Members(), begin, end);
          assert Members() == Members() - Between(begin, end);
        }
      } else if end - 1 < bitCount {
        Materialise(end);
        var r := ClearRange(bits, begin, end - 1);
        RangeRemoved(bits, begin, end, bitCount, r);
        TakeBits(r, trueCount - diff);
      }
    }

    /** tr_bitfieldSetRaw, bounded; its asserts demand enough bytes */
    method SetRaw(raw: seq<bv8>)
      requires 0 < bitCount && BytesNeeded(bitCount) <= |raw|
      modifies this
      ensures Valid() && bitCount == old(bitCount)
      ensures Members() == set n | n in SetBits(raw) && n < bitCount
    {
      var r := ClearExcess(raw[..BytesNeeded(bitCount)], bitCount);
      assert forall n: nat :: n < bitCount ==> (n in SetBits(r) <==> n in SetBits(raw));
      var n := CountArray(r);
      SetBitsBelow(r, bitCount);
      TakeBits(r, n);
    }

    method SetFromBitfield(src: Bitfield)
      requires 0 < bitCount == src.bitCount && src.Valid() && src != this
      requires src.HasAll() || src.HasNone() || |src.bits| == BytesNeeded(bitCount)
      modifies this
      ensures Valid() && bitCount == old(bitCount) && Members() == src.Members()
    {
      src.MembersCounted();
      if src.HasAll() {
        SetHasAll();
        assert src.Members() == Upto(bitCount);
      } else if src.HasNone() {
        SetHasNone();
        assert src.Members() == {};
      } else {
        SetRaw(src.bits);
      }
    }

    method GetRaw() returns (raw: seq<bv8>)
      requires Valid()
      ensures |raw| == BytesNeeded(bitCount) && SetBits(raw) == Members()
    {
      MembersCounted();
      var n := BytesNeeded(bitCount);
      if bits != [] {
        var zeros: seq<bv8> := seq(n - |bits|, _ => 0);
        ExtendedBits(bits, zeros);
        raw := bits + zeros;
      } else if HasAll() {
        raw := SetAllTrue(bitCount);
        assert Members() == Upto(bitCount);
      } else {
        raw := seq(n, _ => 0);
        ClearedBits(raw);
        assert Members() == {};
      }
    }
  
    /** tr_bitfieldSetFromFlags: right, unless the field was full and is neither to stay so nor to become empty */
    method SetFromFlags(flags: seq<bool>)
      requires Valid() && |flags| <= bitCount
      modifies this
      ensures bitCount == old(bitCount)
      ensures Valid() && Members() == FlagSet(flags) <==> !(old(HasAll()) && 0 < |FlagSet(flags)| < bitCount)
    {
      bits := [];
      ClearedBits(bits);
      EnsureBitsAlloced(|flags|);
      var r, n := SetFlags(bits, flags);
      FlagsWithin(flags, bitCount);
      UptoCount(bitCount);
      assert SetBits(r) == if old(HasAll()) then Upto(bitCount) else FlagSet(flags);
      bits := r;
      SetTrueCount(n);
    }

    /** tr_bitfieldRem tests for the opposite of what it should, so it never removes what it is asked to and
        keeps the count right. */
    method Rem(n: nat)
      requires Valid() && n < bitCount < 0xffff_ffff_ffff_ffff
      modifies this
      ensures !(Valid() && Members() == old(Members()) - {n})
    {
      MembersCounted();
      if !Has(n) {
        ghost var s := Members();
        Materialise(n + 1);
        var r := ClearOne(bits, n);
        assert SetBits(r) == s;
        SetBitsBelow(r, bitCount);
        CountBounds(s, 0, bitCount);
        bits := r;
        SetTrueCount(if trueCount > 0 then trueCount - 1 else 0xffff_ffff_ffff_ffff);
      } else {
        assert n in Members();
      }
    }
  }

  lemma FlagsWithin(flags: seq<bool>, bitCount: nat)
    requires |flags| <= bitCount
    ensures FlagSet(flags) <= Upto(bitCount) && |FlagSet(flags)| <= bitCount
    ensures |FlagSet(flags)| == 0 <==> FlagSet(flags) == {}
    ensures |FlagSet(flags)| == bitCount <==> FlagSet(flags) == Upto(bitCount)
  {
    CountBounds(FlagSet(flags), 0, bitCount);
    CountIsCardinality(FlagSet(flags), 0, bitCount);
    assert FlagSet(flags) == set n | n in FlagSet(flags) && 0 <= n < bitCount;
  }

  lemma UptoCount(bitCount: nat)
    ensures |Upto(bitCount)| == bitCount
  {
    CountIsCardinality(Upto(bitCount), 0, bitCount);
    CountBounds(Upto(bitCount), 0, bitCount);
    assert Upto(bitCount) == set n | n in Upto(bitCount) && 0 <= n < bitCount;
  }

  // ---------- saving and loading (resume.c) ----------

  const ALL: seq<bv8> := [0x61, 0x6C, 0x6C]
  const NONE: seq<bv8> := [0x6E, 0x6F, 0x6E, 0x65]

  lemma SameByte(a: bv8, b: bv8)
    requires forall j: nat :: j < 8 ==> (Bit(a, j) <==> Bit(b, j))
    ensures a == b
  {
    assert Bit(a, 0) == Bit(b, 0) && Bit(a, 1) == Bit(b, 1) && Bit(a, 2) == Bit(b, 2) && Bit(a, 3) == Bit(b, 3);
    assert Bit(a, 4) == Bit(b, 4) && Bit(a, 5) == Bit(b, 5) && Bit(a, 6) == Bit(b, 6) && Bit(a, 7) == Bit(b, 7);
  }

  lemma SameArray(a: seq<bv8>, b: seq<bv8>)
    requires |a| == |b| && SetBits(a) == SetBits(b)
    ensures a == b
  {
    forall i: nat | i < |a|
      ensures a[i] == b[i]
    {
      forall j: nat | j < 8
        ensures Bit(a[i], j) <==> Bit(b[i], j)
      {
        ByteOf(8 * i + j);
        assert 8 * i + j in SetBits(a) <==> 8 * i + j in SetBits(b);
      }
      SameByte(a[i], b[i]);
    }
  }

  /** bitfieldToBenc */
  method Save(b: Bitfield) returns (text: seq<bv8>)
    requires b.Valid()
    ensures b.HasAll() ==> text == ALL
    ensures b.HasNone() ==> text == NONE
    ensures !b.HasAll() && !b.HasNone() ==> |text| == BytesNeeded(b.bitCount) && SetBits(text) == b.Members()
  {
    if b.HasAll() {
      return ALL;
    }
    if b.HasNone() {
      return NONE;
    }
    text := b.GetRaw();
  }

  /** The part of loadProgress that reads it again */
  method Load(text: seq<bv8>, bitCount: nat) returns (b: Bitfield)
    requires 0 < bitCount && (text == ALL || text == NONE || BytesNeeded(bitCount) <= |text|)
    ensures fresh(b) && b.Valid() && b.bitCount == bitCount
    ensures b.Members() == if text == ALL then Upto(bitCount) else if text == NONE then {} else set n | n in SetBits(text) && n < bitCount
  {
    b := new Bitfield(bitCount);
    if text == ALL {
      b.SetHasAll();
    } else if text == NONE {
      b.SetHasNone();
    } else {
      b.SetRaw(text);
    }
  }

  /** The raw bytes of a field with these members happen to spell one of the two words. */
  ghost predicate Spells(members: set<nat>, bitCount: nat) {
    (BytesNeeded(bitCount) == |ALL| && members == SetBits(ALL)) || (BytesNeeded(bitCount) == |NONE| && members == SetBits(NONE))
  }

  /** Such fields exist: 22 numbers are enough. */
  lemma SomeFieldSpells()
    ensures Spells(SetBits(ALL), 22) && SetBits(ALL) < Upto(22) && SetBits(ALL) != {}
  {
    forall n: nat | n < 24
      ensures IsSet(ALL, n) ==> n < 22
    {
      ByteOf(n);
    }
    assert IsSet(ALL, 1) && !IsSet(ALL, 0);
    assert 1 in SetBits(ALL) && 0 !in SetBits(ALL) && 0 in Upto(22);
  }

  /** What is saved and loaded again is the same, unless the raw bytes spell a word. */
  method SaveAndLoad(saved: Bitfield) returns (loaded: Bitfield)
    requires saved.Valid()
    ensures fresh(loaded) && loaded.Valid() && loaded.bitCount == saved.bitCount
    ensures loaded.Members() == saved.Members() <==> saved.HasAll() || saved.HasNone() || !Spells(saved.Members(), saved.bitCount)
  {
    saved.MembersCounted();
    CountBounds(saved.Members(), 0, saved.bitCount);
    var text := Save(saved);
    if |text| == |ALL| && SetBits(text) == SetBits(ALL) {
      SameArray(text, ALL);
    }
    if |text| == |NONE| && SetBits(text) == SetBits(NONE) {
      SameArray(text, NONE);
    }
    loaded := Load(text, saved.bitCount);
  }
}
