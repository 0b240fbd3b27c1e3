/** Go's fixed-width words over unbounded integers: conversions that wrap, shifts that
    truncate, bitwise "or" and `bits.Len64`.  A slice length is a Go `int`, hence MAX_INT. */
module Words {
  const TWO31 := 0x8000_0000
  const TWO32 := 0x1_0000_0000
  const TWO63 := 0x8000_0000_0000_0000
  const TWO64 := 0x1_0000_0000_0000_0000
  const MAX_INT := TWO63 - 1

  type byte = x: int | 0 <= x < 256
  type uint64 = x: int | 0 <= x < TWO64
  type int64 = x: int | -TWO63 <= x < TWO63
  type uint32 = x: int | 0 <= x < TWO32
  type int32 = x: int | -TWO31 <= x < TWO31
  type Bytes = seq<byte>

  // Reinterpretations of a bit pattern, as Go's conversions between words of one width do.
  function ToInt64(x: uint64): int64 { if x < TWO63 then x else x - TWO64 }

  function ToInt32(x: uint32): int32 { if x < TWO31 then x else x - TWO32 }

  function ToUint32(x: int32): uint32 { if x < 0 then x + TWO32 else x }

  // uint64(x) for a signed x: sign extension.
  function ToUint64(x: int64): uint64 { if x < 0 then x + TWO64 else x }

  // The sum of two Go ints, which wraps around.
  function WrapInt(x: int): int64 { ToInt64(x % TWO64) }

  lemma WrapOnce(x: nat)
    requires x < TWO64
    ensures WrapInt(x) == if x < TWO63 then x else x - TWO64
  {
  }

  function Pow2(n: nat): (p: nat)
    ensures p >= 1
  {
    if n == 0 then 1 else 2 * Pow2(n - 1)
  }

  // x << s in a word of w bits; the result is 0 once s reaches w.
  function ShiftLeft(x: nat, s: nat, w: nat): nat { (x * Pow2(s)) % Pow2(w) }

  function BitOr(x: nat, y: nat): nat
    decreases x + y
  {
    if x + y == 0 then 0
    else 2 * BitOr(x / 2, y / 2) + (if x % 2 == 1 || y % 2 == 1 then 1 else 0)
  }

  // bits.Len64: the number of bits needed to write x.
  function BitLen(x: nat): nat { if x == 0 then 0 else 1 + BitLen(x / 2) }

  lemma {:induction false} Pow2Add(a: nat, b: nat)
    ensures Pow2(a + b) == Pow2(a) * Pow2(b)
  {
    if a > 0 {
      Pow2Add(a - 1, b);
      assert Pow2(a + b) == 2 * Pow2(a - 1 + b);
      Associate(2, Pow2(a - 1), Pow2(b));
    } else {
      assert Pow2(a) == 1;
    }
  }

  lemma Associate(x: int, y: int, z: int)
    ensures x * y * z == x * (y * z)
  {
  }

  lemma Pow2Words()
    ensures Pow2(7) == 128 && Pow2(32) == TWO32 && Pow2(63) == TWO63 && Pow2(64) == TWO64
  {
    hide Pow2;
    SmallPow2();
    Pow2Add(8, 8);
    Pow2Add(16, 16);
    Pow2Add(32, 32);
    Pow2Add(1, 63);
  }

  lemma SmallPow2()
    ensures Pow2(1) == 2 && Pow2(3) == 8 && Pow2(7) == 128 && Pow2(8) == 256
  {
  }

  lemma Pow2Even(n: nat)
    requires n >= 1
    ensures Pow2(n) % 2 == 0
  {
  }

  lemma {:induction false} Pow2Monotone(a: nat, b: nat)
    requires a <= b
    ensures Pow2(a) <= Pow2(b)
  {
    if a < b {
      Pow2Monotone(a, b - 1);
    }
  }

  lemma {:induction false} BitLenBound(x: nat, n: nat)
    ensures BitLen(x) <= n <==> x < Pow2(n)
  {
    if x > 0 && n > 0 {
      BitLenBound(x / 2, n - 1);
    }
  }

  lemma {:induction false} BitOrZero(x: nat)
    ensures BitOr(x, 0) == x && BitOr(0, x) == x
  {
    if x > 0 {
      BitOrZero(x / 2);
    }
  }

  lemma EvenSplit(y: nat, p: nat, s: nat)
    requires p == 2 * s
    ensures y * p == 2 * (y * s) && y * p % 2 == 0 && y * p / 2 == y * s
  {
    assert y * p == 2 * (y * s);
  }

  // Bits below s and a multiple of 2^s do not overlap, so "or" adds them.
  lemma {:induction false} BitOrDisjoint(a: nat, y: nat, s: nat)
    requires a < Pow2(s)
    ensures BitOr(a, y * Pow2(s)) == a + y * Pow2(s)
  {
    if s == 0 {
      BitOrZero(y);
    } else {
      EvenSplit(y, Pow2(s), Pow2(s - 1));
      BitOrDisjoint(a / 2, y, s - 1);
    }
  }

  lemma Grows(d: int, w: nat)
    ensures d >= 1 ==> d * w >= w
    ensures d <= -1 ==> d * w + w <= 0
  {
  }

  lemma {:induction false} ModOf(q: int, w: int, r: int)
    requires 0 <= r < w
    ensures (q * w + r) % w == r
  {
    var x := q * w + r;
    var d := x / w - q;
    assert x == w * (x / w) + x % w;
    assert d * w == r - x % w;
    Grows(d, w);
  }

  // Shifting inside a word of S * T keeps the low part x % T.
  lemma {:induction false} ShiftedModulo(x: nat, S: nat, T: nat)
    requires S >= 1 && T >= 1
    ensures x * S == (x / T) * (S * T) + (x % T) * S
    ensures (x % T) * S + S <= S * T
  {
    var q, r := x / T, x % T;
    assert x == q * T + r;
    assert (q * T + r) * S == q * T * S + r * S;
    Associate(q, T, S);
    Grows(T - r, S);
    assert (T - r) * S == T * S - r * S;
  }

  lemma {:induction false} OrShiftLow(a: nat, x: nat, s: nat, W: nat, T: nat)
    requires a < Pow2(s) && T >= 1 && W == Pow2(s) * T
    requires W >= 1
    ensures BitOr(a % W, (x * Pow2(s)) % W) == (a + x * Pow2(s)) % W
  {
    hide BitOr;
    var S := Pow2(s);
    ShiftedModulo(x, S, T);
    var q, low := x / T, (x % T) * S;
    ModOf(q, W, low);
    ModOf(q, W, a + low);
    ModOf(0, W, a);
    BitOrDisjoint(a, x % T, s);
  }

  lemma {:induction false} OrShiftHigh(a: nat, x: nat, W: nat, T: nat)
    requires W >= 1
    ensures BitOr(a % W, (x * (W * T)) % W) == (a + x * (W * T)) % W
  {
    var q := x * T;
    assert x * (W * T) == q * W by {
      Associate(x, T, W);
      assert W * T == T * W;
    }
    assert (q * W + 0) % W == 0 by { ModOf(q, W, 0); }
    assert a + q * W == (a / W + q) * W + a % W by {
      assert a == W * (a / W) + a % W;
      assert (a / W + q) * W == (a / W) * W + q * W;
    }
    assert (a + q * W) % W == a % W by { ModOf(a / W + q, W, a % W); }
    BitOrZero(a % W);
  }

  /** One turn of a varint loop: or-ing x << s into the low w bits of an accumulator that so
      far holds a value below 2^s adds x * 2^s modulo 2^w, also when the shift passes w. */
  lemma {:induction false} OrShift(a: nat, x: nat, s: nat, w: nat)
    requires a < Pow2(s)
    ensures BitOr(a % Pow2(w), ShiftLeft(x, s, w)) == (a + x * Pow2(s)) % Pow2(w)
  {
    if s <= w {
      Pow2Add(s, w - s);
      OrShiftLow(a, x, s, Pow2(w), Pow2(w - s));
    } else {
      Pow2Add(w, s - w);
      OrShiftHigh(a, x, Pow2(w), Pow2(s - w));
    }
  }

  // s with the bytes from index i on replaced by b.
  function Patch(s: Bytes, i: nat, b: Bytes): (r: Bytes)
    requires i + |b| <= |s|
    ensures |r| == |s|
  {
    s[..i] + b + s[i + |b|..]
  }

  // Writing b and then a directly in front of it writes a + b.
  lemma PatchJoin(s: Bytes, i: nat, a: Bytes, b: Bytes)
    requires i + |a| + |b| <= |s|
    ensures Patch(Patch(s, i + |a|, b), i, a) == Patch(s, i, a + b)
  {
    assert Patch(s, i + |a|, b)[i + |a|..] == b + s[i + |a| + |b|..];
  }

  lemma PatchNothing(s: Bytes, i: nat)
    requires i <= |s|
    ensures Patch(s, i, []) == s
  {
  }
}
