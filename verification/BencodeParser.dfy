/** The parser: tr_bencParseImpl keeps the open containers on a stack of its own; the recursive-descent
    parser it replaces is its specification (bencode.c). */
module BencodeParser {
  import opened Base
  import opened BencodeValues

  /** memchr from position from on; |buf| stands for not found */
  function FindByte(buf: Bytes, from: nat, c: Byte): (at: nat)
    requires from <= |buf|
    ensures from <= at <= |buf| && (at < |buf| ==> buf[at] == c)
    ensures forall k :: from <= k < at ==> buf[k] != c
    decreases |buf| - from
  {
    if from == |buf| || buf[from] == c then from else FindByte(buf, from + 1, c)
  }

  /** What reading something comes to: the value and where its text ends, an error code, or a string, whose text begins
      at that place, that takes the parser out of the buffer or is stored with a length other than its own */
  datatype Read<T> = Got(value: T, end: nat) | Failed | Wild(at: nat)

  /** The machine: where the buffer begins, how many addresses there are, and the largest int */
  datatype Memory = Memory(base: nat, addresses: nat, intMax: nat)

  /** A buffer at some address of the machine the program runs on */
  function At(base: nat): Memory {
    Memory(base, ADDRESSES, INT32_MAX)
  }

  /** The buffer lies in memory, and every size_t is less than the number of addresses. */
  predicate Placed(buf: Bytes, mem: Memory) {
    mem.base + |buf| < mem.addresses && mem.intMax <= ULONG_MAX < mem.addresses
  }

  /** tr_bencParseInt: the number at pos, and where its text ends */
  function ParseInt(buf: Bytes, pos: nat): (r: Read<int>)
    requires pos <= |buf|
    ensures r.Got? ==> pos < r.end <= |buf|
    ensures !r.Wild?
  {
    if pos == |buf| || buf[pos] != CH_I then Failed else
      var end := FindByte(buf, pos + 1, CH_E);
      if end == |buf| then Failed else
        var val := Strtoll(buf[pos + 1..end]);
        if val.None? || (val.value != 0 && buf[pos + 1] == 48) then Failed  // no leading zeroes
        else Got(val.value, end + 1)
  }

  // ---------- strings ----------

  /** The place of the colon, and the length in front of it */
  function LengthAt(buf: Bytes, pos: nat): (r: Option<(nat, nat)>)
    requires pos <= |buf|
    ensures r.Some? ==> pos < |buf| && IsDigit(buf[pos]) && pos < r.value.0 < |buf| && r.value.1 <= ULONG_MAX
  {
    if pos == |buf| || !IsDigit(buf[pos]) then None else
      var colon := FindByte(buf, pos, CH_COLON);
      if colon == |buf| then None else
        var len := Strtoul(buf[pos..colon]);
        if len.None? then None else Some((colon, len.value))
  }

  /** What is left of n when it goes into an unsigned variable that has room for m values: n modulo m */
  function Wrapped(n: nat, m: nat): (r: nat)
    requires m > 0
    ensures r < m
  {
    if n < m then n else Wrapped(n - m, m)
  }

  lemma WrappedOnce(n: nat, m: nat)
    requires n < 2 * m
    ensures Wrapped(n, m) == if n < m then n else n - m
  {
  }

  /** end + 1 + len in a pointer, counted from the beginning of the buffer */
  function EndOf(colon: nat, len: nat, mem: Memory): int
    requires mem.addresses > 0
  {
    Wrapped(mem.base + colon + 1 + len, mem.addresses) - mem.base
  }

  /** What tr_bencInitStr keeps of the bytes from the string on: its length is an int, and a negative one stands for a
      string that ends at its first zero byte.  None stands for reading on past the buffer. */
  function Stored(rest: Bytes, len: nat, mem: Memory): Option<Bytes> {
    var n := AsInt(len, mem);
    var m := if n < 0 then AsInt(FindByte(rest, 0, 0), mem) else n;
    if 0 <= m <= |rest| && (n < 0 ==> FindByte(rest, 0, 0) < |rest|) then Some(rest[..m]) else None
  }

  /** A size_t in an int */
  function AsInt(n: nat, mem: Memory): int {
    var ints := 2 * (mem.intMax + 1);
    var m := Wrapped(n, ints);
    if m <= mem.intMax then m else m - ints
  }

  /** tr_bencParseStr, with what tr_bencInitStr makes of it */
  function ParseStr(buf: Bytes, pos: nat, mem: Memory): (r: Read<Bytes>)
    requires pos <= |buf| && Placed(buf, mem)
    ensures r.Got? ==> pos < r.end <= |buf|
  {
    var at := LengthAt(buf, pos);
    if at.None? then Failed else
      var (colon, len) := at.value;
      var end := EndOf(colon, len, mem);
      if end > |buf| then Failed
      else if end != colon + 1 + len || Stored(buf[colon + 1..], len, mem) != Some(buf[colon + 1..end]) then Wild(pos)
      else Got(buf[colon + 1..end], end)
  }

  /** The end that is found for a string is behind the string and inside the buffer, or the string is refused, exactly as
      long as the addresses up to that end do not wrap around. */
  lemma EndIsInside(buf: Bytes, pos: nat, mem: Memory)
    requires pos <= |buf| && Placed(buf, mem) && LengthAt(buf, pos).Some?
    ensures var (colon, len) := LengthAt(buf, pos).value; var end := EndOf(colon, len, mem);
      (end > |buf| || (pos < end && end == colon + 1 + len)) <==> mem.base + colon + 1 + len < mem.addresses
  {
    var (colon, len) := LengthAt(buf, pos).value;
    WrappedOnce(mem.base + colon + 1 + len, mem.addresses);
  }

  /** A string is stored as it is exactly as long as its length fits an int. */
  lemma StoredAsItIs(s: Bytes, rest: Bytes, mem: Memory)
    ensures Stored(s + rest, |s|, mem) == Some(s) <==> |s| <= mem.intMax
  {
    assert (s + rest)[..|s|] == s;
  }

  /** Reading a string goes wrong exactly when the addresses wrap around, or when its length does not fit an int. */
  lemma WildExactly(buf: Bytes, pos: nat, mem: Memory)
    requires pos <= |buf| && Placed(buf, mem)
    ensures ParseStr(buf, pos, mem).Wild? <==> IsStrange(buf, pos, mem)
    ensures ParseStr(buf, pos, mem).Wild? ==> ParseStr(buf, pos, mem).at == pos
  {
    var at := LengthAt(buf, pos);
    if at.Some? {
      var (colon, len) := at.value;
      EndIsInside(buf, pos, mem);
      if colon + 1 + len <= |buf| {
        var s, rest := buf[colon + 1..colon + 1 + len], buf[colon + 1 + len..];
        assert buf[colon + 1..] == s + rest;
        StoredAsItIs(s, rest, mem);
      }
    }
  }

  predicate IsStrange(buf: Bytes, pos: nat, mem: Memory)
    requires pos <= |buf|
  {
    var at := LengthAt(buf, pos);
    at.Some? &&
    var (colon, len) := at.value;
    mem.base + colon + 1 + len >= mem.addresses || (len > mem.intMax && colon + 1 + len <= |buf|)
  }

  /** A length and a colon, and nothing behind them */
  lemma BareLength(n: nat)
    requires n <= ULONG_MAX
    ensures var buf := Digits(n) + [CH_COLON]; LengthAt(buf, 0) == Some((|buf| - 1, n))
  {
    var d := Digits(n);
    var buf := d + [CH_COLON];
    DigitsRoundTrip(n);
    assert buf[0..|d|] == d;
    assert FindByte(buf, 0, CH_COLON) == |d|;
  }

  lemma LengthWraps(n: nat, buf: Bytes, mem: Memory)
    requires mem.addresses == n + 1 && Placed(buf, mem) && buf != [] && LengthAt(buf, 0) == Some((|buf| - 1, n))
    ensures EndOf(|buf| - 1, n, mem) == |buf| - 1 && ParseStr(buf, 0, mem) == Wild(0)
  {
    WrappedOnce(mem.base + |buf| + n, n + 1);
    WildExactly(buf, 0, mem);
  }

  /** The largest length there is: wherever the buffer lies, parsing would go on with the colon. */
  lemma LargestLengthWraps(n: nat, buf: Bytes, base: nat)
    requires n == ULONG_MAX && buf == Digits(n) + [CH_COLON] && Placed(buf, At(base))
    ensures EndOf(|buf| - 1, n, At(base)) == |buf| - 1 && ParseStr(buf, 0, At(base)) == Wild(0)
  {
    BareLength(n);
    LengthWraps(n, buf, At(base));
  }

  /** A container whose end has not been read yet */
  datatype Frame = ListFrame(items: seq<Benc>) | DictFrame(pairs: seq<Pair>, key: Option<Bytes>)

  /** getNode refuses anything but a string where a dictionary wants its next key. */
  predicate Accepts(f: Frame, isString: bool) {
    f.DictFrame? && f.key.None? ==> isString
  }

  function Add(f: Frame, v: Benc): Frame
    requires Accepts(f, v.Str?)
  {
    match f
    case ListFrame(items) => ListFrame(items + [v])
    case DictFrame(pairs, None) => DictFrame(pairs, Some(v.s))
    case DictFrame(pairs, Some(key)) => DictFrame(pairs + [Pair(key, v)], None)
  }

  function Close(f: Frame): Option<Benc> {
    match f
    case ListFrame(items) => Some(List(items))
    case DictFrame(pairs, None) => Some(Dict(pairs))
    case DictFrame(_, Some(_)) => None  // odd number of children
  }

  predicate StartsValue(c: Byte) {
    c == CH_I || c == CH_L || c == CH_D || IsDigit(c)
  }

  // ---------- recursive descent ----------

  /** The value whose first byte is at pos */
  function ParseHere(buf: Bytes, pos: nat, mem: Memory): (r: Read<Benc>)
    requires pos < |buf| && StartsValue(buf[pos]) && Placed(buf, mem)
    ensures r.Got? ==> pos < r.end <= |buf| && (r.value.Str? <==> IsDigit(buf[pos]))
    decreases |buf| - pos, 0
  {
    if buf[pos] == CH_I then
      var r := ParseInt(buf, pos);
      if r.Got? then Got(Int(r.value), r.end) else Failed
    else if buf[pos] == CH_L then ParseMembers(buf, pos + 1, mem, ListFrame([]))
    else if buf[pos] == CH_D then ParseMembers(buf, pos + 1, mem, DictFrame([], None))
    else
      match ParseStr(buf, pos, mem)
      case Got(s, end) => Got(Str(s), end)
      case Failed => Failed
      case Wild(at) => Wild(at)
  }

  /** What is left of an open container, up to its end; bytes that begin nothing are skipped */
  function ParseMembers(buf: Bytes, pos: nat, mem: Memory, f: Frame): (r: Read<Benc>)
    requires pos <= |buf| && Placed(buf, mem)
    ensures r.Got? ==> pos < r.end <= |buf| && !r.value.Str?
    decreases |buf| - pos, 1
  {
    if pos == |buf| then Failed
    else if buf[pos] == CH_E then
      if Close(f).None? then Failed else Got(Close(f).value, pos + 1)
    else if StartsValue(buf[pos]) then
      if !Accepts(f, IsDigit(buf[pos])) then Failed else
        var r := ParseHere(buf, pos, mem);
        if r.Got? then ParseMembers(buf, r.end, mem, Add(f, r.value)) else r
    else ParseMembers(buf, pos + 1, mem, f)
  }

  /** The first value at or after pos */
  function ParseValue(buf: Bytes, pos: nat, mem: Memory): (r: Read<Benc>)
    requires pos <= |buf| && Placed(buf, mem)
    ensures r.Got? ==> pos < r.end <= |buf|
    decreases |buf| - pos
  {
    if pos == |buf| || buf[pos] == CH_E then Failed
    else if StartsValue(buf[pos]) then ParseHere(buf, pos, mem)
    else ParseValue(buf, pos + 1, mem)
  }

  // ---------- the stack machine ----------

  /** Hands the outcome of the innermost value to the containers around it, one after the other. */
  function Finish(buf: Bytes, mem: Memory, stack: seq<Frame>, r: Read<Benc>): Read<Benc>
    requires Placed(buf, mem) && (r.Got? ==> r.end <= |buf|)
    decreases |stack|
  {
    if !r.Got? || stack == [] then r else
      var f, outer := stack[|stack| - 1], stack[..|stack| - 1];
      if !Accepts(f, r.value.Str?) then Failed
      else Finish(buf, mem, outer, ParseMembers(buf, r.end, mem, Add(f, r.value)))
  }

  /** What recursive descent would go on to return, standing at pos inside the containers of stack */
  function Outcome(buf: Bytes, pos: nat, mem: Memory, stack: seq<Frame>): Read<Benc>
    requires pos <= |buf| && Placed(buf, mem)
  {
    if stack == [] then ParseValue(buf, pos, mem)
    else Finish(buf, mem, stack[..|stack| - 1], ParseMembers(buf, pos, mem, stack[|stack| - 1]))
  }

  /** Opening a container inside another one: both ways agree. */
  lemma OutcomeOfOpening(buf: Bytes, pos: nat, mem: Memory, stack: seq<Frame>, f: Frame)
    requires pos < |buf| && (buf[pos] == CH_L || buf[pos] == CH_D) && Placed(buf, mem)
    requires f == if buf[pos] == CH_L then ListFrame([]) else DictFrame([], None)
    ensures stack != [] && !Accepts(stack[|stack| - 1], false) ==> Outcome(buf, pos, mem, stack) == Failed
    ensures (stack == [] || Accepts(stack[|stack| - 1], false)) ==>
      Outcome(buf, pos, mem, stack) == Outcome(buf, pos + 1, mem, stack + [f])
  {
    assert (stack + [f])[..|stack|] == stack;
    var r := ParseMembers(buf, pos + 1, mem, f);
    assert ParseHere(buf, pos, mem) == r;
    if stack != [] && Accepts(stack[|stack| - 1], false) {
      var top := stack[|stack| - 1];
      assert ParseMembers(buf, pos, mem, top) == if r.Got? then ParseMembers(buf, r.end, mem, Add(top, r.value)) else r;
    }
  }

  /** A finished value goes to the innermost open container. */
  lemma OutcomeOfValue(buf: Bytes, mem: Memory, stack: seq<Frame>, v: Benc, end: nat)
    requires stack != [] && end <= |buf| && Placed(buf, mem) && Accepts(stack[|stack| - 1], v.Str?)
    ensures Finish(buf, mem, stack, Got(v, end))
         == Outcome(buf, end, mem, stack[|stack| - 1 := Add(stack[|stack| - 1], v)])
  {
    var next := stack[|stack| - 1 := Add(stack[|stack| - 1], v)];
    assert next[..|next| - 1] == stack[..|stack| - 1];
  }

  /** tr_bencParse: the value, and where parsing stopped; Failed stands for every error code.  Once a string has led it
      astray, what the parser goes on to do is not described. */
  method ParseImpl(buf: Bytes, mem: Memory) returns (r: Read<Benc>)
    requires Placed(buf, mem)
    ensures r == ParseValue(buf, 0, mem)
  {
    var parentStack: seq<Frame> := [];
    var pos: nat := 0;
    while pos < |buf|
      invariant pos <= |buf| && Outcome(buf, pos, mem, parentStack) == ParseValue(buf, 0, mem)
      invariant forall i :: 0 <= i < |parentStack| - 1 ==> Accepts(parentStack[i], false)
      decreases |buf| - pos
    {
      var c := buf[pos];
      if c == CH_L || c == CH_D {
        var f := if c == CH_L then ListFrame([]) else DictFrame([], None);
        OutcomeOfOpening(buf, pos, mem, parentStack, f);
        if parentStack != [] && !Accepts(parentStack[|parentStack| - 1], false) {
          return Failed;
        }
        parentStack, pos := parentStack + [f], pos + 1;
      } else if c == CH_E {
        if parentStack == [] {
          return Failed;
        }
        var v := Close(parentStack[|parentStack| - 1]);
        if v.None? {
          return Failed;
        }
        parentStack, pos := parentStack[..|parentStack| - 1], pos + 1;
        if parentStack == [] {
          return Got(v.value, pos);
        }
        OutcomeOfValue(buf, mem, parentStack, v.value, pos);
        parentStack := parentStack[|parentStack| - 1 := Add(parentStack[|parentStack| - 1], v.value)];
      } else if c == CH_I || IsDigit(c) {
        var got := ParseHere(buf, pos, mem);
        if !got.Got? || parentStack == [] {
          return got;
        }
        if !Accepts(parentStack[|parentStack| - 1], got.value.Str?) {
          return Failed;
        }
        OutcomeOfValue(buf, mem, parentStack, got.value, got.end);
        parentStack := parentStack[|parentStack| - 1 := Add(parentStack[|parentStack| - 1], got.value)];
        pos := got.end;
      } else {
        pos := pos + 1;
      }
    }
    return Failed;
  }

  // ---------- when nothing goes astray ----------

  /** No length in the buffer is so large that a string is misread. */
  predicate IsTame(buf: Bytes, mem: Memory) {
    forall pos: nat :: pos < |buf| ==> !IsStrange(buf, pos, mem)
  }

  /** A parse goes astray only at a strange length. */
  lemma {:induction false} WildIsStrange(buf: Bytes, pos: nat, mem: Memory)
    requires pos <= |buf| && Placed(buf, mem)
    ensures var r := ParseValue(buf, pos, mem); r.Wild? ==> r.at < |buf| && IsStrange(buf, r.at, mem)
    decreases |buf| - pos
  {
    if pos < |buf| && buf[pos] != CH_E {
      if StartsValue(buf[pos]) {
        HereIsStrange(buf, pos, mem);
      } else {
        WildIsStrange(buf, pos + 1, mem);
      }
    }
  }

  lemma {:induction false} HereIsStrange(buf: Bytes, pos: nat, mem: Memory)
    requires pos < |buf| && StartsValue(buf[pos]) && Placed(buf, mem)
    ensures var r := ParseHere(buf, pos, mem); r.Wild? ==> r.at < |buf| && IsStrange(buf, r.at, mem)
    decreases |buf| - pos, 0
  {
    if buf[pos] == CH_L {
      MembersAreStrange(buf, pos + 1, mem, ListFrame([]));
    } else if buf[pos] == CH_D {
      MembersAreStrange(buf, pos + 1, mem, DictFrame([], None));
    } else if IsDigit(buf[pos]) {
      WildExactly(buf, pos, mem);
    }
  }

  lemma {:induction false} MembersAreStrange(buf: Bytes, pos: nat, mem: Memory, f: Frame)
    requires pos <= |buf| && Placed(buf, mem)
    ensures var r := ParseMembers(buf, pos, mem, f); r.Wild? ==> r.at < |buf| && IsStrange(buf, r.at, mem)
    decreases |buf| - pos, 1
  {
    if pos < |buf| && buf[pos] != CH_E {
      if StartsValue(buf[pos]) {
        if Accepts(f, IsDigit(buf[pos])) {
          HereIsStrange(buf, pos, mem);
          var r := ParseHere(buf, pos, mem);
          if r.Got? {
            MembersAreStrange(buf, r.end, mem, Add(f, r.value));
          }
        }
      } else {
        MembersAreStrange(buf, pos + 1, mem, f);
      }
    }
  }

  /** Without strange lengths, parsing ends with a value inside the buffer or with an error code. */
  lemma TameParses(buf: Bytes, mem: Memory)
    requires Placed(buf, mem) && IsTame(buf, mem)
    ensures var r := ParseValue(buf, 0, mem); r.Failed? || (r.Got? && 0 < r.end <= |buf|)
  {
    WildIsStrange(buf, 0, mem);
  }
}
