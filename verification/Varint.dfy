/** Base 128 varints: the encoder, its closed-form size, and the decoding loop that
    the generated code repeats for every tag, length and number. */
module Varint {
  import opened Words

  datatype Error =
    | IntOverflow
    | UnexpectedEOF
    | InvalidLength
    | UnexpectedEndOfGroup
    | EndGroupForNonGroup
    | IllegalTag(fieldNum: int, wire: nat)
    | WrongWireType(wireType: nat, field: int)
    | IllegalWireType(found: nat)

  datatype Status = Good | Bad(error: Error)

  // What a decoding loop has accumulated (as an unbounded number), how many bytes it consumed, how it ended.
  datatype Read = Read(value: nat, size: nat, status: Status)

  // sovDenom, sovGenesis, sovParams.
  function Sov(x: nat): nat { (BitLen(BitOr(x, 1)) + 6) / 7 }

  // The bytes of the minimal varint for v, low group first.
  function Encode(v: nat): Bytes
  {
    if v < 128 then [v] else [v % 128 + 128] + Encode(v / 128)
  }

  // The number that a sequence of 7-bit groups stands for.
  function Value(w: Bytes): nat { if w == [] then 0 else w[0] % 128 + 128 * Value(w[1..]) }

  // At most ten bytes, exactly the last of which has its top bit clear.
  predicate IsVarint(w: Bytes)
  {
    1 <= |w| <= 10 && w[|w| - 1] < 128 && forall k :: 0 <= k < |w| - 1 ==> w[k] >= 128
  }

  // The decoding loop with `left` turns to go: a tenth continuation byte overflows, even at the end of input.
  function ReadUpTo(s: Bytes, left: nat): (r: Read)
    ensures r.size <= |s| && r.size <= left
    ensures r.status.Good? ==> r.size >= 1
  {
    if left == 0 then Read(0, 0, Bad(IntOverflow))
    else if s == [] then Read(0, 0, Bad(UnexpectedEOF))
    else if s[0] < 128 then Read(s[0], 1, Good)
    else
      var r := ReadUpTo(s[1..], left - 1);
      Read(s[0] % 128 + 128 * r.value, r.size + 1, r.status)
  }

  function ReadFrom(s: Bytes): (r: Read)
    ensures r.size <= |s| && r.size <= 10
    ensures r.status.Good? ==> r.size >= 1
  {
    ReadUpTo(s, 10)
  }

  lemma GroupWeight(n: nat)
    requires n > 0
    ensures Pow2(7 * n) == 128 * Pow2(7 * (n - 1))
  {
    assert Pow2(7) == 128;
    Pow2Add(7, 7 * (n - 1));
  }

  lemma Distribute(a: int, v: int, x: int, p: int)
    ensures a + 128 * (v + x * p) == a + 128 * v + x * (128 * p)
  {
  }

  lemma {:induction false} ValueBound(w: Bytes)
    ensures Value(w) < Pow2(7 * |w|)
  {
    if w != [] {
      ValueBound(w[1..]);
      GroupWeight(|w|);
    }
  }

  lemma {:induction false} ValueSnoc(w: Bytes, b: byte)
    ensures Value(w + [b]) == Value(w) + (b % 128) * Pow2(7 * |w|)
  {
    if w == [] {
      assert (w + [b])[1..] == [];
    } else {
      var t := w[1..];
      assert (w + [b])[1..] == t + [b];
      ValueSnoc(t, b);
      GroupWeight(|w|);
      Distribute(w[0] % 128, Value(t), b % 128, Pow2(7 * |t|));
    }
  }

  lemma BitOrOne(x: nat)
    ensures BitOr(x, 1) == if x % 2 == 0 then x + 1 else x
  {
    BitOrZero(x / 2);
  }

  // The size is the least n with x < 128^n, but never less than one.
  lemma SovIsLeast(x: nat, n: nat)
    requires n >= 1
    ensures Sov(x) <= n <==> x < Pow2(7 * n)
  {
    hide BitOr, BitLen, Pow2;
    var y := BitOr(x, 1);
    BitOrOne(x);
    BitLenBound(y, 7 * n);
    CeilingOfSevenths(BitLen(y), n);
    Pow2Even(7 * n);
  }

  lemma CeilingOfSevenths(l: nat, n: nat)
    ensures (l + 6) / 7 <= n <==> l <= 7 * n
  {
  }

  lemma BitLenDrop7(y: nat)
    requires y >= 128
    ensures BitLen(y) == 7 + BitLen(y / 128)
  {
    assert BitLen(y) == 1 + BitLen(y / 2);
    assert BitLen(y / 2) == 1 + BitLen(y / 4) by { assert y / 2 / 2 == y / 4; }
    assert BitLen(y / 4) == 1 + BitLen(y / 8) by { assert y / 4 / 2 == y / 8; }
    assert BitLen(y / 8) == 1 + BitLen(y / 16) by { assert y / 8 / 2 == y / 16; }
    assert BitLen(y / 16) == 1 + BitLen(y / 32) by { assert y / 16 / 2 == y / 32; }
    assert BitLen(y / 32) == 1 + BitLen(y / 64) by { assert y / 32 / 2 == y / 64; }
    assert BitLen(y / 64) == 1 + BitLen(y / 128) by { assert y / 64 / 2 == y / 128; }
  }

  // Setting the lowest bit changes the length of 0 alone.
  lemma BitLenOrOne(x: nat)
    ensures BitLen(BitOr(x, 1)) == if x == 0 then 1 else BitLen(x)
  {
    BitOrOne(x);
    var y := BitOr(x, 1);
    assert y / 2 == x / 2;
    assert BitLen(y) == 1 + BitLen(y / 2);
  }

  lemma SovStep(v: nat)
    ensures v < 128 ==> Sov(v) == 1
    ensures v >= 128 ==> Sov(v) == 1 + Sov(v / 128)
  {
    BitLenOrOne(v);
    if v < 128 {
      Pow2Words();
      SovIsLeast(v, 1);
    } else {
      BitLenDrop7(v);
      BitLenOrOne(v / 128);
    }
  }

  /** The closed form agrees with the loop: for every number the minimal varint has Sov bytes,
      for every uint64 that is 1 to 10, it is well formed, and it stands for that number. */
  lemma {:induction false} EncodeExact(v: nat)
    ensures |Encode(v)| == Sov(v) >= 1 && Value(Encode(v)) == v
    ensures v < TWO64 ==> IsVarint(Encode(v))
  {
    hide Encode, Value, Sov;
    EncodeLength(v);
    EncodeValue(v);
    EncodeShape(v);
    if v < TWO64 {
      Pow2Words();
      Pow2Monotone(64, 70);
      SovIsLeast(v, 10);
    }
  }

  lemma {:induction false} EncodeLength(v: nat)
    ensures |Encode(v)| == Sov(v) >= 1
  {
    hide Sov;
    SovStep(v);
    if v >= 128 {
      EncodeLength(v / 128);
    }
  }

  lemma {:induction false} EncodeValue(v: nat)
    ensures Value(Encode(v)) == v
  {
    if v >= 128 {
      EncodeValue(v / 128);
      assert Encode(v)[1..] == Encode(v / 128);
      assert Encode(v)[0] == v % 128 + 128;
    }
  }

  lemma {:induction false} EncodeShape(v: nat)
    ensures var e := Encode(v);
      |e| >= 1 && e[|e| - 1] < 128 && forall k :: 0 <= k < |e| - 1 ==> e[k] >= 128
  {
    if v >= 128 {
      EncodeShape(v / 128);
    }
  }

  lemma SovAtMost(x: nat, n: nat)
    requires n >= 1 && x < Pow2(7 * n)
    ensures Sov(x) <= n
  {
    SovIsLeast(x, n);
  }

  /** No varint is shorter than the minimal one, also when the reader keeps only 64 or 32 bits. */
  lemma {:induction false} VarintAtLeastMinimal(w: Bytes)
    requires IsVarint(w)
    ensures Sov(Value(w)) <= |w| && Sov(Value(w) % TWO64) <= |w| && Sov(Value(w) % TWO32) <= |w|
  {
    var v := Value(w);
    ValueBound(w);
    assert v % TWO64 <= v && v % TWO32 <= v;
    SovAtMost(v, |w|);
    SovAtMost(v % TWO64, |w|);
    SovAtMost(v % TWO32, |w|);
  }

  // The value read is that of the bytes consumed, also when the reading fails.
  lemma {:induction false} ReadUpToValue(s: Bytes, left: nat)
    ensures var r := ReadUpTo(s, left); r.value == Value(s[..r.size])
  {
    if left > 0 && s != [] {
      if s[0] < 128 {
        assert s[..1][1..] == [];
      } else {
        ReadUpToValue(s[1..], left - 1);
        var r := ReadUpTo(s[1..], left - 1);
        assert s[..r.size + 1][1..] == s[1..][..r.size];
      }
    }
  }

  lemma {:induction false} ReadUpToComplete(w: Bytes, rest: Bytes, left: nat)
    requires 1 <= |w| <= left && w[|w| - 1] < 128
    requires forall k :: 0 <= k < |w| - 1 ==> w[k] >= 128
    ensures ReadUpTo(w + rest, left) == Read(Value(w), |w|, Good)
  {
    if |w| == 1 {
      assert w[1..] == [];
    } else {
      assert (w + rest)[1..] == w[1..] + rest;
      assert w[1..][|w| - 2] == w[|w| - 1];
      ReadUpToComplete(w[1..], rest, left - 1);
    }
  }

  lemma {:induction false} ReadUpToSound(s: Bytes, left: nat)
    ensures var r := ReadUpTo(s, left);
      && (forall k :: 0 <= k < r.size - 1 ==> s[k] >= 128)
      && match r.status
         case Good => s[r.size - 1] < 128
         case Bad(e) =>
           && (r.size > 0 ==> s[r.size - 1] >= 128)
           && ((e == IntOverflow && r.size == left) || (e == UnexpectedEOF && r.size == |s| < left))
  {
    if left > 0 && s != [] && s[0] >= 128 {
      ReadUpToSound(s[1..], left - 1);
      var r := ReadUpTo(s[1..], left - 1);
      forall k | 0 <= k < r.size ensures s[k] >= 128 || (k == r.size - 1 + 1) {
        if k > 0 { assert s[k] == s[1..][k - 1]; }
      }
      if r.size > 0 { assert s[r.size] == s[1..][r.size - 1]; }
    }
  }

  /** Reading succeeds exactly on an input that starts with a varint, and then yields it;
      with ten continuation bytes it overflows; otherwise the input ends too early. */
  lemma ReadExact(s: Bytes)
    ensures var r := ReadFrom(s);
      match r.status
      case Good => IsVarint(s[..r.size]) && r.value == Value(s[..r.size])
      case Bad(e) =>
        && (forall n :: 0 <= n <= |s| ==> !IsVarint(s[..n]))
        && (e == IntOverflow || e == UnexpectedEOF)
        && (e == IntOverflow <==> |s| >= 10)
  {
    ReadUpToSound(s, 10);
    ReadUpToValue(s, 10);
    var r := ReadFrom(s);
    if r.status.Bad? {
      forall n | 0 <= n <= |s| ensures !IsVarint(s[..n]) {
        assert s[..n] + s[n..] == s;
        if IsVarint(s[..n]) { ReadComplete(s[..n], s[n..]); }
      }
    }
  }

  lemma ReadComplete(w: Bytes, rest: Bytes)
    requires IsVarint(w)
    ensures ReadFrom(w + rest) == Read(Value(w), |w|, Good)
  {
    ReadUpToComplete(w, rest, 10);
  }

  /** Decoding inverts encoding for every uint64, whatever follows. */
  lemma {:induction false} RoundTrip(v: uint64, rest: Bytes)
    ensures ReadFrom(Encode(v) + rest) == Read(v, Sov(v), Good)
  {
    EncodeExact(v);
    ReadComplete(Encode(v), rest);
  }

  // The byte v & 0x7f | 0x80.
  function Continued(v: nat): (b: byte)
    ensures b == v % 128 + 128
  {
    Pow2Words();
    BitOrDisjoint(v % 128, 1, 7);
    BitOr(v % 128, 128)
  }

  // What is left to write after one turn of the encoding loop.
  lemma NextGroup(e: Bytes, k: nat, x: nat)
    requires k <= |e| && e[k..] == Encode(x)
    ensures k < |e|
    ensures x < 128 ==> e[k] == x && k + 1 == |e|
    ensures x >= 128 ==> e[k] == Continued(x) && e[k + 1..] == Encode(x / 128)
  {
    assert e[k] == e[k..][0];
    assert e[k + 1..] == e[k..][1..];
  }

  /** encodeVarintDenom: the bytes land in the Sov(v) places that end at offset, and nowhere else. */
  method EncodeInto(buf: array<byte>, offset: nat, v: uint64) returns (base: nat)
    requires Sov(v) <= offset <= buf.Length
    modifies buf
    ensures base == offset - Sov(v)
    ensures |Encode(v)| == Sov(v) && buf[..] == Patch(old(buf[..]), base, Encode(v))
  {
    hide *;
    EncodeExact(v);
    ghost var e := Encode(v);
    base := offset - Sov(v);
    var i, x := base, v;
    assert e[0..] == e;
    NextGroup(e, 0, x);
    while x >= 128
      invariant base <= i < offset == base + |e|
      invariant e[i - base..] == Encode(x)
      invariant forall k :: base <= k < i ==> buf[k] == e[k - base]
      invariant forall k :: 0 <= k < base || offset <= k < buf.Length ==> buf[k] == old(buf[k])
      decreases x
    {
      NextGroup(e, i - base, x);
      buf[i] := Continued(x);
      x := x / 128;
      i := i + 1;
      NextGroup(e, i - base, x);
    }
    NextGroup(e, i - base, x);
    buf[i] := x;
    PatchByElements(old(buf[..]), buf[..], base, e);
  }

  lemma PatchByElements(before: Bytes, after: Bytes, i: nat, b: Bytes)
    requires |before| == |after| && i + |b| <= |before|
    requires forall k :: i <= k < i + |b| ==> after[k] == b[k - i]
    requires forall k :: 0 <= k < i || i + |b| <= k < |after| ==> after[k] == before[k]
    ensures after == Patch(before, i, b)
  {
  }

  // The invariant of the decoding loops: k continuation bytes read, the rest still to come.
  ghost predicate Reading(s: Bytes, k: nat)
  {
    && k <= 10 && k <= |s|
    && Value(s[..k]) < Pow2(7 * k)
    && var r, t := ReadFrom(s), ReadUpTo(s[k..], 10 - k);
       r.size == k + t.size && r.status == t.status
  }

  lemma ReadingStart(s: Bytes)
    ensures Reading(s, 0) && Value(s[..0]) == 0
  {
    assert s[0..] == s;
  }

  lemma ReadingStop(s: Bytes, k: nat)
    requires Reading(s, k) && (k == 10 || k == |s|)
    ensures k <= |s|
    ensures ReadFrom(s) == Read(Value(s[..k]), k, Bad(if k == 10 then IntOverflow else UnexpectedEOF))
  {
    ReadUpToValue(s, 10);
  }

  lemma ReadingStep(s: Bytes, k: nat)
    requires Reading(s, k) && k < 10 && k < |s|
    ensures Value(s[..k + 1]) == Value(s[..k]) + (s[k] % 128) * Pow2(7 * k)
    ensures s[k] < 128 ==> ReadFrom(s) == Read(Value(s[..k + 1]), k + 1, Good)
    ensures s[k] >= 128 ==> Reading(s, k + 1)
  {
    ReadUpToValue(s, 10);
    assert s[..k + 1] == s[..k] + [s[k]];
    ValueSnoc(s[..k], s[k]);
    ValueBound(s[..k + 1]);
    assert s[k..][0] == s[k];
    assert s[k..][1..] == s[k + 1..];
  }

  // What one turn does to an accumulator of w bits.
  lemma {:induction false} AccumulateStep(s: Bytes, k: nat, w: nat)
    requires k < |s| && Value(s[..k]) < Pow2(7 * k)
    requires Value(s[..k + 1]) == Value(s[..k]) + (s[k] % 128) * Pow2(7 * k)
    ensures BitOr(Value(s[..k]) % Pow2(w), ShiftLeft(s[k] % 128, 7 * k, w)) == Value(s[..k + 1]) % Pow2(w)
  {
    OrShift(Value(s[..k]), s[k] % 128, 7 * k, w);
  }

  lemma {:induction false} Turn(s: Bytes, k: nat)
    requires Reading(s, k) && k < 10 && k < |s|
    ensures BitOr(Value(s[..k]) % TWO64, ShiftLeft(s[k] % 128, 7 * k, 64)) == Value(s[..k + 1]) % TWO64
    ensures BitOr(Value(s[..k]) % TWO32, ShiftLeft(s[k] % 128, 7 * k, 32)) == Value(s[..k + 1]) % TWO32
    ensures s[k] < 128 ==> ReadFrom(s) == Read(Value(s[..k + 1]), k + 1, Good)
    ensures s[k] >= 128 ==> Reading(s, k + 1)
  {
    ReadingStep(s, k);
    AccumulateStep(s, k, 64);
    AccumulateStep(s, k, 32);
    Pow2Words();
  }

  /** The loop that collects a uint64 (or the bit pattern of an int) from start on. */
  method ReadUint64(data: Bytes, start: nat) returns (value: uint64, next: nat, status: Status)
    requires start <= |data|
    ensures var r := ReadFrom(data[start..]);
      value == r.value % TWO64 && next == start + r.size && status == r.status
  {
    hide Reading, ReadFrom, ReadUpTo, Value, BitOr, ShiftLeft;
    ghost var s := data[start..];
    value, next := 0, start;
    var shift := 0;
    ReadingStart(s);
    while true
      invariant start <= next <= |data| && next - start <= 10 && shift == 7 * (next - start)
      invariant Reading(s, next - start)
      invariant value == Value(s[..next - start]) % TWO64
      decreases |data| - next
    {
      if shift >= 64 {
        ReadingStop(s, next - start);
        return value, next, Bad(IntOverflow);
      }
      if next >= |data| {
        ReadingStop(s, next - start);
        return value, next, Bad(UnexpectedEOF);
      }
      var b := data[next];
      ghost var k := next - start;
      Turn(s, k);
      next := next + 1;
      value := BitOr(value, ShiftLeft(b % 128, shift, 64));
      if b < 128 {
        return value, next, Good;
      }
      shift := shift + 7;
    }
  }

  /** The loop that collects an int32 field: shifts of 32 and more contribute nothing. */
  method ReadInt32(data: Bytes, start: nat) returns (value: int32, next: nat, status: Status)
    requires start <= |data|
    ensures var r := ReadFrom(data[start..]);
      value == ToInt32(r.value % TWO32) && next == start + r.size && status == r.status
  {
    hide Reading, ReadFrom, ReadUpTo, Value, BitOr, ShiftLeft;
    ghost var s := data[start..];
    value, next := 0, start;
    var shift := 0;
    ReadingStart(s);
    while true
      invariant start <= next <= |data| && next - start <= 10 && shift == 7 * (next - start)
      invariant Reading(s, next - start)
      invariant value == ToInt32(Value(s[..next - start]) % TWO32)
      decreases |data| - next
    {
      if shift >= 64 {
        ReadingStop(s, next - start);
        return value, next, Bad(IntOverflow);
      }
      if next >= |data| {
        ReadingStop(s, next - start);
        return value, next, Bad(UnexpectedEOF);
      }
      var b := data[next];
      ghost var k := next - start;
      Turn(s, k);
      next := next + 1;
      value := ToInt32(BitOr(ToUint32(value), ShiftLeft(b % 128, shift, 32)));
      if b < 128 {
        return value, next, Good;
      }
      shift := shift + 7;
    }
  }
}
