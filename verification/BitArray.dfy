/** Bytes as arrays of bits, the most significant bit of each byte first, and the masks that bitfield.c
    works with. */
module BitArrays {

  /** b << k in an unsigned char, by constants so that no shift amount is a variable */
  function Shl(b: bv8, k: nat): bv8
    requires k <= 8
  {
    match k
    case 0 => b
    case 1 => b << 1
    case 2 => b << 2
    case 3 => b << 3
    case 4 => b << 4
    case 5 => b << 5
    case 6 => b << 6
    case 7 => b << 7
    case _ => 0
  }

  function Shr(b: bv8, k: nat): bv8
    requires k <= 8
  {
    match k
    case 0 => b
    case 1 => b >> 1
    case 2 => b >> 2
    case 3 => b >> 3
    case 4 => b >> 4
    case 5 => b >> 5
    case 6 => b >> 6
    case 7 => b >> 7
    case _ => 0
  }

  /** Bit k, as tr_bitfieldHas picks it */
  predicate Bit(b: bv8, k: nat)
    requires k < 8
  {
    Shl(b, k) & 0x80 != 0
  }

  lemma ShlBit(b: bv8, i: nat, j: nat)
    requires i <= 8 && j < 8
    ensures Bit(Shl(b, i), j) <==> i + j < 8 && Bit(b, i + j)
  {
  }

  lemma ShrBit(b: bv8, i: nat, j: nat)
    requires i <= 8 && j < 8
    ensures Bit(Shr(b, i), j) <==> i <= j && Bit(b, j - i)
  {
  }

  /** Shifting there and back clears the bits at one end. */
  lemma ClearHigh(b: bv8, i: nat, j: nat)
    requires i <= 8 && j < 8
    ensures Bit(Shr(Shl(b, i), i), j) <==> i <= j && Bit(b, j)
  {
    ShrBit(Shl(b, i), i, j);
    if i <= j {
      ShlBit(b, i, j - i);
    }
  }

  lemma ClearLow(b: bv8, i: nat, j: nat)
    requires i <= 8 && j < 8
    ensures Bit(Shl(Shr(b, i), i), j) <==> i + j < 8 && Bit(b, j)
  {
    ShlBit(Shr(b, i), i, j);
    if i + j < 8 {
      ShrBit(b, i, i + j);
    }
  }

  lemma NotBit(a: bv8, j: nat)
    requires j < 8
    ensures Bit(!a, j) <==> !Bit(a, j)
  {
  }

  lemma AndBit(a: bv8, b: bv8, j: nat)
    requires j < 8
    ensures Bit(a & b, j) <==> Bit(a, j) && Bit(b, j)
  {
    if j < 4 {
    } else {
    }
  }

  lemma OrBit(a: bv8, b: bv8, j: nat)
    requires j < 8
    ensures Bit(a | b, j) <==> Bit(a, j) || Bit(b, j)
  {
    NotBit(a, j);
    NotBit(b, j);
    AndBit(!a, !b, j);
    NotBit(!a & !b, j);
    assert a | b == !(!a & !b);
  }

  lemma AllBits(j: nat)
    requires j < 8
    ensures Bit(0xff, j) && !Bit(0, j)
  {
  }

  lemma OneBit(k: nat, j: nat)
    requires k < 8 && j < 8
    ensures Bit(Shr(0x80, k), j) <==> j == k
  {
    ShrBit(0x80, k, j);
  }

  // ---------- arrays of bits ----------

  predicate IsSet(bits: seq<bv8>, n: nat) {
    n / 8 < |bits| && Bit(bits[n / 8], n % 8)
  }

  /** get_bytes_needed */
  function BytesNeeded(bitCount: nat): nat {
    (bitCount + 7) / 8
  }

  /** How many of the numbers of a set lie in a range */
  function CountIn(s: set<nat>, lo: nat, hi: nat): nat {
    if hi <= lo then 0 else CountIn(s, lo, hi - 1) + if hi - 1 in s then 1 else 0
  }

  lemma {:induction false} CountIsCardinality(s: set<nat>, lo: nat, hi: nat)
    ensures CountIn(s, lo, hi) == |set n | n in s && lo <= n < hi|
  {
    var r := set n | n in s && lo <= n < hi;
    if hi <= lo {
      assert r == {};
    } else {
      CountIsCardinality(s, lo, hi - 1);
      var q := set n | n in s && lo <= n < hi - 1;
      assert r == if hi - 1 in s then q + {hi - 1} else q;
    }
  }

  lemma {:induction false} CountSplit(s: set<nat>, lo: nat, mid: nat, hi: nat)
    requires lo <= mid <= hi
    ensures CountIn(s, lo, hi) == CountIn(s, lo, mid) + CountIn(s, mid, hi)
  {
    if mid < hi {
      CountSplit(s, lo, mid, hi - 1);
    }
  }

  lemma {:induction false} CountBounds(s: set<nat>, lo: nat, hi: nat)
    requires lo <= hi
    ensures CountIn(s, lo, hi) <= hi - lo
    ensures CountIn(s, lo, hi) == hi - lo <==> forall n :: lo <= n < hi ==> n in s
    ensures CountIn(s, lo, hi) == 0 <==> forall n :: lo <= n < hi ==> n !in s
  {
    if lo < hi {
      CountBounds(s, lo, hi - 1);
    }
  }

  lemma {:induction false} CountSame(s: set<nat>, t: set<nat>, lo: nat, hi: nat)
    requires forall n :: lo <= n < hi ==> (n in s <==> n in t)
    ensures CountIn(s, lo, hi) == CountIn(t, lo, hi)
  {
    if lo < hi {
      CountSame(s, t, lo, hi - 1);
    }
  }

  /** The positions of the bits that are set */
  function SetBits(bits: seq<bv8>): set<nat> {
    set n: nat | n < 8 * |bits| && IsSet(bits, n)
  }

  /** The bits set among bits from..to of one byte */
  function CountBits(b: bv8, from: nat, to: nat): nat
    requires to <= 8
  {
    if to <= from then 0 else CountBits(b, from, to - 1) + if Bit(b, to - 1) then 1 else 0
  }

  /** What the table trueBitCount holds for b */
  function TrueBitCount(b: bv8): nat {
    CountBits(b, 0, 8)
  }

  lemma {:induction false} CountMasked(b: bv8, v: bv8, from: nat, to: nat, k: nat)
    requires from <= to <= 8 && k <= 8
    requires forall j: nat :: j < 8 ==> (Bit(v, j) <==> from <= j < to && Bit(b, j))
    ensures CountBits(v, 0, k) == CountBits(b, from, if k < to then k else to)
  {
    if k > 0 {
      CountMasked(b, v, from, to, k - 1);
    }
  }

  lemma {:induction false} CountByte(bits: seq<bv8>, i: nat, from: nat, to: nat)
    requires i < |bits| && from <= to <= 8
    ensures CountIn(SetBits(bits), 8 * i + from, 8 * i + to) == CountBits(bits[i], from, to)
  {
    if from < to {
      CountByte(bits, i, from, to - 1);
      assert (8 * i + to - 1) / 8 == i && (8 * i + to - 1) % 8 == to - 1;
      assert 8 * i + to - 1 in SetBits(bits) <==> IsSet(bits, 8 * i + to - 1);
    }
  }

  lemma CountBeyond(bits: seq<bv8>, lo: nat, hi: nat)
    requires 8 * |bits| <= lo
    ensures CountIn(SetBits(bits), lo, hi) == 0
  {
    if lo <= hi {
      CountBounds(SetBits(bits), lo, hi);
    }
  }

  /** countArray */
  method CountArray(bits: seq<bv8>) returns (ret: nat)
    ensures ret == |SetBits(bits)| == CountIn(SetBits(bits), 0, 8 * |bits|)
  {
    ret := 0;
    var i := |bits|;
    while i > 0
      invariant 0 <= i <= |bits| && ret == CountIn(SetBits(bits), 8 * i, 8 * |bits|)
    {
      i := i - 1;
      ret := ret + TrueBitCount(bits[i]);
      CountByte(bits, i, 0, 8);
      CountSplit(SetBits(bits), 8 * i, 8 * i + 8, 8 * |bits|);
    }
    CountIsCardinality(SetBits(bits), 0, 8 * |bits|);
    assert SetBits(bits) == set n | n in SetBits(bits) && 0 <= n < 8 * |bits|;
  }

  /** A byte of which only the bits from..to are looked at */
  method CountInByte(bits: seq<bv8>, byte: nat, from: nat, to: nat) returns (ret: nat)
    requires byte < |bits| && from <= to <= 8
    ensures ret == CountIn(SetBits(bits), 8 * byte + from, 8 * byte + to)
  {
    var high := Shr(Shl(bits[byte], from), from);
    var val := Shl(Shr(high, 8 - to), 8 - to);
    forall j: nat | j < 8
      ensures Bit(val, j) <==> from <= j < to && Bit(bits[byte], j)
    {
      ClearHigh(bits[byte], from, j);
      ClearLow(high, 8 - to, j);
    }
    CountMasked(bits[byte], val, from, to, 8);
    CountByte(bits, byte, from, to);
    ret := TrueBitCount(val);
  }

  /** Bytes from..to whole */
  method CountBytes(bits: seq<bv8>, from: nat, to: nat) returns (ret: nat)
    requires from <= to <= |bits|
    ensures ret == CountIn(SetBits(bits), 8 * from, 8 * to)
  {
    ret := 0;
    var i: nat := from;
    while i < to
      invariant from <= i <= to && ret == CountIn(SetBits(bits), 8 * from, 8 * i)
    {
      ret := ret + TrueBitCount(bits[i]);
      CountByte(bits, i, 0, 8);
      CountSplit(SetBits(bits), 8 * from, 8 * i, 8 * i + 8);
      i := i + 1;
    }
  }

  /** Byte i holds bit n. */
  predicate HoldsBit(i: nat, n: nat) {
    8 * i <= n < 8 * i + 8
  }

  lemma ByteOf(n: nat)
    ensures HoldsBit(n / 8, n) && n % 8 == n - 8 * (n / 8)
  {
  }

  /** countRange */
  method CountRange(bits: seq<bv8>, begin: nat, end: nat) returns (ret: nat)
    requires begin < end
    ensures ret == CountIn(SetBits(bits), begin, end)
  {
    var firstByte: nat, lastByte: nat := begin / 8, (end - 1) / 8;
    ByteOf(begin);
    ByteOf(end - 1);
    if firstByte >= |bits| {
      CountBeyond(bits, begin, end);
      return 0;
    }
    if firstByte == lastByte {
      ret := CountInByte(bits, firstByte, begin - 8 * firstByte, end - 8 * firstByte);
    } else {
      ret := CountAcross(bits, begin, end, firstByte, lastByte);
    }
  }

  method CountAcross(bits: seq<bv8>, begin: nat, end: nat, firstByte: nat, lastByte: nat) returns (ret: nat)
    requires begin < end && HoldsBit(firstByte, begin) && HoldsBit(lastByte, end - 1)
    requires firstByte < lastByte && firstByte < |bits|
    ensures ret == CountIn(SetBits(bits), begin, end)
  {
    var walkEnd: nat := if |bits| < lastByte then |bits| else lastByte;
    var first := CountInByte(bits, firstByte, begin - 8 * firstByte, 8);
    var middle := CountBytes(bits, firstByte + 1, walkEnd);
    var last := CountLast(bits, walkEnd, end, lastByte);
    ret := first + middle + last;
    CountInThree(SetBits(bits), begin, 8 * firstByte + 8, 8 * walkEnd, end);
  }

  lemma CountInThree(s: set<nat>, a: nat, b: nat, c: nat, d: nat)
    requires a <= b <= c <= d
    ensures CountIn(s, a, d) == CountIn(s, a, b) + CountIn(s, b, c) + CountIn(s, c, d)
  {
    CountSplit(s, a, b, d);
    CountSplit(s, b, c, d);
  }

  /** The last byte of a range, unless the array ends before it */
  method CountLast(bits: seq<bv8>, walkEnd: nat, end: nat, lastByte: nat) returns (ret: nat)
    requires 0 < end && HoldsBit(lastByte, end - 1) && walkEnd == if |bits| < lastByte then |bits| else lastByte
    ensures ret == CountIn(SetBits(bits), 8 * walkEnd, end)
  {
    if lastByte < |bits| {
      ret := CountInByte(bits, lastByte, 0, end - 8 * lastByte);
    } else {
      ret := 0;
      CountBeyond(bits, 8 * walkEnd, end);
    }
  }

  // ---------- setting and clearing ----------

  /** memset */
  function Filled(bits: seq<bv8>, from: nat, to: nat, val: bv8): (r: seq<bv8>)
    requires from <= to <= |bits|
    ensures |r| == |bits| && forall k :: 0 <= k < |bits| ==> r[k] == if from <= k < to then val else bits[k]
  {
    bits[..from] + seq(to - from, _ => val) + bits[to..]
  }

  /** r differs from bits only in the bits first..last, which are all b in r. */
  ghost predicate RangeSet(bits: seq<bv8>, first: nat, last: nat, b: bool, r: seq<bv8>) {
    |r| == |bits| && forall n: nat :: n < 8 * |bits| ==> (IsSet(r, n) <==> if first <= n <= last then b else IsSet(bits, n))
  }

  /** Likewise for one byte and its bits from..to */
  ghost predicate ByteRangeSet(byte: bv8, from: int, to: int, b: bool, r: bv8) {
    forall j: nat :: j < 8 ==> (Bit(r, j) <==> if from <= j < to then b else Bit(byte, j))
  }

  ghost predicate IsMask(mask: bv8, from: int, to: int) {
    forall j: nat :: j < 8 ==> (Bit(mask, j) <==> from <= j < to)
  }

  ghost predicate IsKeepMask(mask: bv8, from: int, to: int) {
    forall j: nat :: j < 8 ==> (Bit(mask, j) <==> !(from <= j < to))
  }

  lemma OrMask(byte: bv8, mask: bv8, from: int, to: int)
    requires IsMask(mask, from, to)
    ensures ByteRangeSet(byte, from, to, true, byte | mask)
  {
    var r := byte | mask;
    forall j: nat | j < 8
      ensures Bit(r, j) <==> from <= j < to || Bit(byte, j)
    {
      OrBit(byte, mask, j);
    }
  }

  lemma AndMask(byte: bv8, mask: bv8, from: int, to: int)
    requires IsKeepMask(mask, from, to)
    ensures ByteRangeSet(byte, from, to, false, byte & mask)
  {
    var r := byte & mask;
    forall j: nat | j < 8
      ensures Bit(r, j) <==> !(from <= j < to) && Bit(byte, j)
    {
      AndBit(byte, mask, j);
    }
  }

  lemma FillByte(byte: bv8)
    ensures ByteRangeSet(byte, 0, 8, true, 0xff) && ByteRangeSet(byte, 0, 8, false, 0)
  {
    forall j: nat | j < 8
      ensures Bit(0xff, j) && !Bit(0, j)
    {
      AllBits(j);
    }
  }

  /** The masks for the bytes with the first and the last bit of a range */
  lemma FromMask(f: nat)
    requires f < 8
    ensures IsMask(!Shl(0xff, 8 - f), f, 8) && IsKeepMask(Shl(0xff, 8 - f), f, 8)
  {
    var mask := Shl(0xff, 8 - f);
    forall j: nat | j < 8
      ensures Bit(mask, j) <==> !(f <= j)
    {
      ShlBit(0xff, 8 - f, j);
      if 8 - f + j < 8 {
        AllBits(8 - f + j);
      }
    }
    InvertedMask(mask, f, 8);
  }

  lemma UpToMask(l: nat)
    requires l < 8
    ensures IsMask(Shl(0xff, 7 - l), 0, l + 1) && IsKeepMask(!Shl(0xff, 7 - l), 0, l + 1)
  {
    var mask := Shl(0xff, 7 - l);
    forall j: nat | j < 8
      ensures Bit(mask, j) <==> j <= l
    {
      ShlBit(0xff, 7 - l, j);
      if 7 - l + j < 8 {
        AllBits(7 - l + j);
      }
    }
    InvertedMask(mask, 0, l + 1);
  }

  lemma InvertedMask(mask: bv8, from: int, to: int)
    ensures IsMask(mask, from, to) ==> IsKeepMask(!mask, from, to)
    ensures IsKeepMask(mask, from, to) ==> IsMask(!mask, from, to)
  {
    var inverted := !mask;
    forall j: nat | j < 8
      ensures Bit(inverted, j) <==> !Bit(mask, j)
    {
      NotBit(mask, j);
    }
  }

  lemma MaskBoth(sm: bv8, em: bv8, f: nat, l: nat)
    requires IsMask(sm, f, 8) && IsMask(em, 0, l + 1)
    ensures IsMask(sm & em, f, l + 1)
  {
    var mask := sm & em;
    forall j: nat | j < 8
      ensures Bit(mask, j) <==> f <= j < l + 1
    {
      AndBit(sm, em, j);
    }
  }

  /** The bytes of a range that starts in byte sb and ends in byte eb */
  ghost predicate BytesSet(bits: seq<bv8>, first: nat, last: nat, sb: nat, eb: nat, b: bool, r: seq<bv8>) {
    |r| == |bits| && sb <= eb < |bits| && HoldsBit(sb, first) && HoldsBit(eb, last) &&
    (forall i: nat :: i < |bits| && !(sb <= i <= eb) ==> r[i] == bits[i]) &&
    (forall i: nat :: sb < i < eb ==> r[i] == if b then 0xff else 0) &&
    ByteRangeSet(bits[sb], first - 8 * sb, if sb == eb then last + 1 - 8 * eb else 8, b, r[sb]) &&
    ByteRangeSet(bits[eb], if sb == eb then first - 8 * sb else 0, last + 1 - 8 * eb, b, r[eb])
  }

  lemma RangeOfBytes(bits: seq<bv8>, first: nat, last: nat, sb: nat, eb: nat, b: bool, r: seq<bv8>)
    requires BytesSet(bits, first, last, sb, eb, b, r)
    ensures RangeSet(bits, first, last, b, r)
  {
    forall n: nat | n < 8 * |bits|
      ensures IsSet(r, n) <==> if first <= n <= last then b else IsSet(bits, n)
    {
      ByteOf(n);
      var i: nat, j: nat := n / 8, n % 8;
      FillByte(bits[i]);
      assert Bit(r[i], j) <==> if first <= 8 * i + j <= last then b else Bit(bits[i], j);
    }
  }

  /** The two bytes at the ends, and those in between */
  function Edged(bits: seq<bv8>, sb: nat, eb: nat, x: bv8, y: bv8, fill: bv8): seq<bv8>
    requires sb < eb < |bits|
  {
    Filled(bits[sb := x][eb := y], sb + 1, eb, fill)
  }

  lemma EdgedBytes(bits: seq<bv8>, first: nat, last: nat, sb: nat, eb: nat, b: bool, x: bv8, y: bv8)
    requires sb < eb < |bits| && HoldsBit(sb, first) && HoldsBit(eb, last)
    requires ByteRangeSet(bits[sb], first - 8 * sb, 8, b, x) && ByteRangeSet(bits[eb], 0, last + 1 - 8 * eb, b, y)
    ensures BytesSet(bits, first, last, sb, eb, b, Edged(bits, sb, eb, x, y, if b then 0xff else 0))
  {
  }

  lemma SingleByte(bits: seq<bv8>, first: nat, last: nat, sb: nat, b: bool, x: bv8)
    requires sb < |bits| && HoldsBit(sb, first) && HoldsBit(sb, last)
    requires ByteRangeSet(bits[sb], first - 8 * sb, last + 1 - 8 * sb, b, x)
    ensures BytesSet(bits, first, last, sb, sb, b, bits[sb := x])
  {
  }

  method SetRange(bits: seq<bv8>, first: nat, last: nat) returns (r: seq<bv8>)
    requires first <= last < 8 * |bits|
    ensures RangeSet(bits, first, last, true, r)
  {
    var sb: nat, eb: nat := first / 8, last / 8;
    ByteOf(first);
    ByteOf(last);
    r := SetRangeBytes(bits, first, last, sb, eb);
    RangeOfBytes(bits, first, last, sb, eb, true, r);
  }

  /** The byte with bits f..l set, by the masks sm and em of the source */
  method SetInByte(byte: bv8, f: nat, l: nat) returns (x: bv8)
    requires f < 8 && l < 8
    ensures ByteRangeSet(byte, f, l + 1, true, x)
  {
    var sm, em := !Shl(0xff, 8 - f), Shl(0xff, 7 - l);
    FromMask(f);
    UpToMask(l);
    MaskBoth(sm, em, f, l);
    OrMask(byte, sm & em, f, l + 1);
    x := byte | (sm & em);
  }

  method SetFrom(byte: bv8, f: nat) returns (x: bv8)
    requires f < 8
    ensures ByteRangeSet(byte, f, 8, true, x)
  {
    var sm := !Shl(0xff, 8 - f);
    FromMask(f);
    OrMask(byte, sm, f, 8);
    x := byte | sm;
  }

  method SetUpTo(byte: bv8, l: nat) returns (x: bv8)
    requires l < 8
    ensures ByteRangeSet(byte, 0, l + 1, true, x)
  {
    var em := Shl(0xff, 7 - l);
    UpToMask(l);
    OrMask(byte, em, 0, l + 1);
    x := byte | em;
  }

  method SetRangeBytes(bits: seq<bv8>, first: nat, last: nat, sb: nat, eb: nat) returns (r: seq<bv8>)
    requires first <= last && HoldsBit(sb, first) && HoldsBit(eb, last) && eb < |bits|
    ensures BytesSet(bits, first, last, sb, eb, true, r)
  {
    if sb == eb {
      var x := SetInByte(bits[sb], first - 8 * sb, last - 8 * sb);
      r := bits[sb := x];
      SingleByte(bits, first, last, sb, true, x);
    } else {
      var x := SetFrom(bits[sb], first - 8 * sb);
      var y := SetUpTo(bits[eb], last - 8 * eb);
      r := Edged(bits, sb, eb, x, y, 0xff);
      EdgedBytes(bits, first, last, sb, eb, true, x, y);
    }
  }

  method ClearRange(bits: seq<bv8>, first: nat, last: nat) returns (r: seq<bv8>)
    requires first <= last < 8 * |bits|
    ensures RangeSet(bits, first, last, false, r)
  {
    var sb: nat, eb: nat := first / 8, last / 8;
    ByteOf(first);
    ByteOf(last);
    r := ClearRangeBytes(bits, first, last, sb, eb);
    RangeOfBytes(bits, first, last, sb, eb, false, r);
  }

  method ClearInByte(byte: bv8, f: nat, l: nat) returns (x: bv8)
    requires f < 8 && l < 8
    ensures ByteRangeSet(byte, f, l + 1, false, x)
  {
    var sm, em := Shl(0xff, 8 - f), !Shl(0xff, 7 - l);
    FromMask(f);
    UpToMask(l);
    KeepBoth(sm, em, f, l);
    AndMask(byte, sm | em, f, l + 1);
    x := byte & (sm | em);
  }

  method ClearFrom(byte: bv8, f: nat) returns (x: bv8)
    requires f < 8
    ensures ByteRangeSet(byte, f, 8, false, x)
  {
    var sm := Shl(0xff, 8 - f);
    FromMask(f);
    AndMask(byte, sm, f, 8);
    x := byte & sm;
  }

  method ClearUpTo(byte: bv8, l: nat) returns (x: bv8)
    requires l < 8
    ensures ByteRangeSet(byte, 0, l + 1, false, x)
  {
    var em := !Shl(0xff, 7 - l);
    UpToMask(l);
    AndMask(byte, em, 0, l + 1);
    x := byte & em;
  }

  method ClearRangeBytes(bits: seq<bv8>, first: nat, last: nat, sb: nat, eb: nat) returns (r: seq<bv8>)
    requires first <= last && HoldsBit(sb, first) && HoldsBit(eb, last) && eb < |bits|
    ensures BytesSet(bits, first, last, sb, eb, false, r)
  {
    if sb == eb {
      var x := ClearInByte(bits[sb], first - 8 * sb, last - 8 * sb);
      r := bits[sb := x];
      SingleByte(bits, first, last, sb, false, x);
    } else {
      var x := ClearFrom(bits[sb], first - 8 * sb);
      var y := ClearUpTo(bits[eb], last - 8 * eb);
      r := Edged(bits, sb, eb, x, y, 0);
      EdgedBytes(bits, first, last, sb, eb, false, x, y);
    }
  }

  lemma KeepBoth(sm: bv8, em: bv8, f: nat, l: nat)
    requires IsKeepMask(sm, f, 8) && IsKeepMask(em, 0, l + 1)
    ensures IsKeepMask(sm | em, f, l + 1)
  {
    var mask := sm | em;
    forall j: nat | j < 8
      ensures Bit(mask, j) <==> !(f <= j < l + 1)
    {
      OrBit(sm, em, j);
    }
  }
}
