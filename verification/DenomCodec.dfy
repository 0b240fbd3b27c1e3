/** The wire codec of the Denom message. */
module DenomCodec {
  import opened Words
  import opened Varint
  import opened Wire

  datatype Denom = Denom(denom: Bytes, description: Bytes, ticker: Bytes, precision: int32, url: Bytes,
                         maxSupply: int32, supply: int32, canChangeMaxSupply: bool, owner: Bytes)

  const EMPTY := Denom([], [], [], 0, [], 0, 0, false, [])

  // ---------- the schema: which field number holds what ----------

  predicate IsText(n: int) { n == 1 || n == 2 || n == 3 || n == 5 || n == 9 }

  predicate IsNumber(n: int) { n == 4 || n == 6 || n == 7 }

  const FLAG := 8

  predicate IsKnown(n: int) { 1 <= n <= 9 }

  function TextOf(d: Denom, n: int): Bytes
    requires IsText(n)
  {
    match n
    case 1 => d.denom
    case 2 => d.description
    case 3 => d.ticker
    case 5 => d.url
    case _ => d.owner
  }

  function WithText(d: Denom, n: int, s: Bytes): Denom
    requires IsText(n)
  {
    match n
    case 1 => d.(denom := s)
    case 2 => d.(description := s)
    case 3 => d.(ticker := s)
    case 5 => d.(url := s)
    case _ => d.(owner := s)
  }

  function IntOf(d: Denom, n: int): int32
    requires IsNumber(n)
  {
    match n
    case 4 => d.precision
    case 6 => d.maxSupply
    case _ => d.supply
  }

  function WithInt(d: Denom, n: int, v: int32): Denom
    requires IsNumber(n)
  {
    match n
    case 4 => d.(precision := v)
    case 6 => d.(maxSupply := v)
    case _ => d.(supply := v)
  }

  // ---------- encoding ----------

  function Tag(n: nat, wireType: nat): Bytes { Encode(8 * n + wireType) }

  // The pattern a number is written as: Marshal sign-extends to 64 bits; 32 bits would do as well.
  function Pattern(v: int32, narrow: bool): uint64 { if narrow then ToUint32(v) else ToUint64(v) }

  // The fields of a message in ascending order, default values left out, varints minimal.
  function FieldFor(d: Denom, n: int, narrow: bool): seq<Field>
    requires IsKnown(n)
  {
    if IsText(n) then
      var s := TextOf(d, n);
      if s == [] then [] else [BytesField(Tag(n, 2), Encode(|s|), s)]
    else if IsNumber(n) then
      var v := IntOf(d, n);
      if v == 0 then [] else [VarintField(Tag(n, 0), Encode(Pattern(v, narrow)))]
    else
      if d.canChangeMaxSupply then [VarintField(Tag(n, 0), Encode(1))] else []
  }

  function FieldsFrom(d: Denom, n: int, narrow: bool): seq<Field>
    requires 1 <= n <= 10
    decreases 10 - n
  {
    if n == 10 then [] else FieldFor(d, n, narrow) + FieldsFrom(d, n + 1, narrow)
  }

  function FieldsOf(d: Denom): seq<Field> { FieldsFrom(d, 1, false) }

  // The bytes that Marshal produces.
  function EncodeDenom(d: Denom): Bytes { RenderAll(FieldsOf(d)) }

  // (*Denom).Size
  function SizeText(s: Bytes): nat { if |s| > 0 then 1 + |s| + Sov(|s|) else 0 }

  function SizeInt(v: int32): nat { if v != 0 then 1 + Sov(ToUint64(v)) else 0 }

  function SizeOf(d: Denom): nat
  {
    SizeText(d.denom) + SizeText(d.description) + SizeText(d.ticker) + SizeInt(d.precision) + SizeText(d.url)
    + SizeInt(d.maxSupply) + SizeInt(d.supply) + (if d.canChangeMaxSupply then 2 else 0) + SizeText(d.owner)
  }

  // A buffer of Size bytes can be allocated.
  predicate Fits(d: Denom) { SizeOf(d) <= MAX_INT }

  // ---------- decoding ----------

  datatype Step = Step(m: Denom, size: nat, status: Status)

  // One turn of the loop in Unmarshal: s is the rest of the input, which starts at index `at`.
  function StepAt(m: Denom, s: Bytes, at: nat): (r: Step)
    ensures r.status.Good? ==> 1 <= r.size <= |s|
  {
    var h := HeaderAt(s);
    if h.status.Bad? then Step(m, 0, h.status) else
    var body := s[h.size..];
    if IsText(h.number) then
      if h.wireType != 2 then Step(m, 0, Bad(WrongWireType(h.wireType, h.number))) else
      var c := ChunkAt(body, at + h.size);
      if c.status.Bad? then Step(m, 0, c.status) else Step(WithText(m, h.number, c.payload), h.size + c.size, Good)
    else if IsNumber(h.number) then
      if h.wireType != 0 then Step(m, 0, Bad(WrongWireType(h.wireType, h.number))) else
      // The field is or-ed together in place, so a failing read leaves a partial number in it.
      var r := ReadFrom(body);
      Step(WithInt(m, h.number, ToInt32(r.value % TWO32)), h.size + r.size, r.status)
    else if h.number == FLAG then
      if h.wireType != 0 then Step(m, 0, Bad(WrongWireType(h.wireType, h.number))) else
      var r := ReadFrom(body);
      if r.status.Bad? then Step(m, 0, r.status)
      else Step(m.(canChangeMaxSupply := r.value % TWO64 != 0), h.size + r.size, Good)
    else
      var k := UnknownAt(s, at);
      Step(m, k.end, k.status)
  }

  datatype Decoded = Decoded(m: Denom, status: Status)

  function DecodeFrom(m: Denom, s: Bytes, at: nat): Decoded
    decreases |s|
  {
    if s == [] then Decoded(m, Good) else
    var r := StepAt(m, s, at);
    if r.status.Bad? then Decoded(r.m, r.status) else DecodeFrom(r.m, s[r.size..], at + r.size)
  }

  // Unmarshal into a receiver that holds m; it is merged into, not reset.
  function Merge(m: Denom, s: Bytes): Decoded { DecodeFrom(m, s, 0) }

  // Unmarshal into a fresh message.
  function DecodeDenom(s: Bytes): Decoded { Merge(EMPTY, s) }

  // ---------- what a field means ----------

  // A decoder takes f at the top level: its number is positive, and known numbers have their wire type.
  predicate Legal(f: Field)
  {
    var n := NumberOf(f);
    && WellFormed(f) && n > 0
    && (IsText(n) ==> f.BytesField?)
    && (IsNumber(n) || n == FLAG ==> f.VarintField?)
  }

  predicate AllLegal(fs: seq<Field>) { forall k :: 0 <= k < |fs| ==> Legal(fs[k]) }

  function Apply(m: Denom, f: Field): Denom
    requires Legal(f)
  {
    var n := NumberOf(f);
    if IsText(n) then WithText(m, n, f.payload)
    else if IsNumber(n) then WithInt(m, n, ToInt32(Value(f.number) % TWO32))
    else if n == FLAG then m.(canChangeMaxSupply := Value(f.number) % TWO64 != 0)
    else m
  }

  function ApplyAll(m: Denom, fs: seq<Field>): Denom
    requires AllLegal(fs)
    decreases |fs|
  {
    if fs == [] then m else ApplyAll(Apply(m, fs[0]), fs[1..])
  }

  lemma {:induction false} StepComplete(m: Denom, f: Field, rest: Bytes, at: nat)
    requires Legal(f) && at + |Render(f)| <= MAX_INT
    ensures StepAt(m, Render(f) + rest, at) == Step(Apply(m, f), |Render(f)|, Good)
  {
    hide ReadFrom, HeaderAt, ChunkAt, UnknownAt, Render, Value, IsVarint, Number, WithText, WithInt;
    HeaderComplete(f, rest);
    var n := NumberOf(f);
    if IsText(n) {
      ChunkComplete(f, rest, at + |f.tag|);
    } else if IsNumber(n) || n == FLAG {
      ReadComplete(f.number, rest);
    } else {
      UnknownComplete(f, rest, at);
    }
  }

  lemma {:induction false} StepSound(m: Denom, s: Bytes, at: nat) returns (f: Field)
    requires at + |s| <= MAX_INT && StepAt(m, s, at).status.Good?
    ensures var r := StepAt(m, s, at);
      Legal(f) && Render(f) == s[..r.size] && r.m == Apply(m, f)
  {
    hide ReadFrom, HeaderAt, ChunkAt, UnknownAt, SkipFrom, Value, IsVarint, Number, WithText, WithInt;
    var h, n := HeaderAt(s), StepAt(m, s, at).size;
    var tag := HeaderSound(s);
    var body := s[h.size..];
    if IsText(h.number) {
      SliceSplit(s, h.size, n);
      f := ChunkSound(body, at + h.size, tag);
    } else if IsNumber(h.number) || h.number == FLAG {
      SliceSplit(s, h.size, n);
      ReadExact(body);
      f := VarintField(tag, body[..n - h.size]);
    } else {
      f := UnknownSound(s, at, tag);
    }
    assert NumberOf(f) == h.number;
  }

  // ---------- decoding is a fold over the fields of the input ----------

  /** Decoding any legal fields followed by any further input applies them in order and goes on
      with the rest, whatever that does (it may fail). */
  lemma {:induction false} DecodeFields(m: Denom, fs: seq<Field>, rest: Bytes, at: nat)
    requires AllLegal(fs) && at + |RenderAll(fs)| <= MAX_INT
    ensures DecodeFrom(m, RenderAll(fs) + rest, at) == DecodeFrom(ApplyAll(m, fs), rest, at + |RenderAll(fs)|)
    decreases |fs|
  {
    hide StepAt, Legal, Apply, Render;
    if fs == [] {
      assert RenderAll(fs) + rest == rest;
    } else {
      var f, tail := fs[0], RenderAll(fs[1..]) + rest;
      assert RenderAll(fs) + rest == Render(f) + tail;
      StepComplete(m, f, tail, at);
      Prefix(Render(f), tail);
      DecodeFields(Apply(m, f), fs[1..], rest, at + |Render(f)|);
    }
  }

  lemma {:induction false} DecodeAll(m: Denom, fs: seq<Field>, at: nat)
    requires AllLegal(fs) && at + |RenderAll(fs)| <= MAX_INT
    ensures DecodeFrom(m, RenderAll(fs), at) == Decoded(ApplyAll(m, fs), Good)
  {
    hide AllLegal, ApplyAll, RenderAll, StepAt;
    DecodeFields(m, fs, [], at);
    assert RenderAll(fs) + [] == RenderAll(fs);
  }

  lemma {:induction false} FieldsIn(m: Denom, s: Bytes, at: nat) returns (fs: seq<Field>)
    requires at + |s| <= MAX_INT && DecodeFrom(m, s, at).status.Good?
    ensures AllLegal(fs) && RenderAll(fs) == s && ApplyAll(m, fs) == DecodeFrom(m, s, at).m
    decreases |s|
  {
    hide StepAt, Legal, Apply, Render;
    if s == [] {
      fs := [];
    } else {
      var r := StepAt(m, s, at);
      var f := StepSound(m, s, at);
      var tail := FieldsIn(r.m, s[r.size..], at + r.size);
      fs := [f] + tail;
      assert fs[1..] == tail;
      assert s == s[..r.size] + s[r.size..];
    }
  }

  /** What the decoder accepts and what it makes of it: input s turns m into m' if and only if s is
      a sequence of legal fields whose effects, applied in order, lead from m to m'. */
  lemma {:induction false} DecodeLanguage(m: Denom, s: Bytes, m': Denom)
    requires |s| <= MAX_INT
    ensures Merge(m, s) == Decoded(m', Good)
       <==> exists fs :: AllLegal(fs) && RenderAll(fs) == s && ApplyAll(m, fs) == m'
  {
    hide DecodeFrom, Legal, RenderAll, ApplyAll;
    if Merge(m, s) == Decoded(m', Good) {
      var fs := FieldsIn(m, s, 0);
    }
    if fs :| AllLegal(fs) && RenderAll(fs) == s && ApplyAll(m, fs) == m' {
      DecodeAll(m, fs, 0);
    }
  }

  // A rejected input: the legal fields in front of the failing turn, and what is left at that turn.
  lemma {:induction false} DecodeStops(m: Denom, s: Bytes, at: nat) returns (fs: seq<Field>, rest: Bytes)
    requires at + |s| <= MAX_INT && DecodeFrom(m, s, at).status.Bad?
    ensures AllLegal(fs) && s == RenderAll(fs) + rest && rest != []
    ensures var r := StepAt(ApplyAll(m, fs), rest, at + |RenderAll(fs)|);
      r.status.Bad? && DecodeFrom(m, s, at) == Decoded(r.m, r.status)
    decreases |s|
  {
    hide StepAt, Legal, Apply, Render;
    var r := StepAt(m, s, at);
    if r.status.Bad? {
      fs, rest := [], s;
    } else {
      var f := StepSound(m, s, at);
      var tail;
      tail, rest := DecodeStops(r.m, s[r.size..], at + r.size);
      fs := [f] + tail;
      assert fs[1..] == tail;
      assert s == s[..r.size] + s[r.size..];
      assert RenderAll(fs) + rest == Render(f) + (RenderAll(tail) + rest);
    }
  }

  /** Whether an input is accepted does not depend on what the receiver held before. */
  lemma {:induction false} AcceptanceIgnoresReceiver(m1: Denom, m2: Denom, s: Bytes)
    requires |s| <= MAX_INT
    ensures Merge(m1, s).status.Good? <==> Merge(m2, s).status.Good?
  {
    hide DecodeFrom, AllLegal, RenderAll, ApplyAll;
    if Merge(m1, s).status.Good? {
      var fs := FieldsIn(m1, s, 0);
      DecodeAll(m2, fs, 0);
    }
    if Merge(m2, s).status.Good? {
      var fs := FieldsIn(m2, s, 0);
      DecodeAll(m1, fs, 0);
    }
  }

  // Moving the input to another index changes nothing about an accepted one.
  lemma Relocate(m: Denom, s: Bytes, at: nat)
    requires at + |s| <= MAX_INT
    ensures DecodeFrom(m, s, at).status.Good? <==> Merge(m, s).status.Good?
    ensures Merge(m, s).status.Good? ==> DecodeFrom(m, s, at) == Merge(m, s)
  {
    hide DecodeFrom, AllLegal, RenderAll, ApplyAll;
    if DecodeFrom(m, s, at).status.Good? {
      var fs := FieldsIn(m, s, at);
      DecodeAll(m, fs, 0);
    }
    if Merge(m, s).status.Good? {
      var fs := FieldsIn(m, s, 0);
      DecodeAll(m, fs, at);
    }
  }

  /** Decoding folds over concatenation: once a is accepted, a + b is accepted if and only if b is
      accepted into the value that a left, and then both give the same message. */
  lemma {:induction false} DecodeConcat(m: Denom, a: Bytes, b: Bytes)
    requires |a| + |b| <= MAX_INT && Merge(m, a).status.Good?
    ensures var m1 := Merge(m, a).m;
      && (Merge(m, a + b).status.Good? <==> Merge(m1, b).status.Good?)
      && (Merge(m1, b).status.Good? ==> Merge(m, a + b) == Merge(m1, b))
  {
    hide DecodeFrom, AllLegal, RenderAll, ApplyAll;
    var fs := FieldsIn(m, a, 0);
    DecodeFields(m, fs, b, 0);
    Relocate(ApplyAll(m, fs), b, |a|);
  }

  // ---------- the last occurrence of a field wins ----------

  // The value a decoder takes from a field of known number.
  datatype Content = Text(bytes: Bytes) | Int(value: int32) | Bool(on: bool)

  function ContentOf(d: Denom, n: int): Content
    requires IsKnown(n)
  {
    if IsText(n) then Text(TextOf(d, n)) else if IsNumber(n) then Int(IntOf(d, n)) else Bool(d.canChangeMaxSupply)
  }

  function ContentIn(f: Field): Content
    requires Legal(f) && IsKnown(NumberOf(f))
  {
    var n := NumberOf(f);
    if IsText(n) then Text(f.payload)
    else if IsNumber(n) then Int(ToInt32(Value(f.number) % TWO32))
    else Bool(Value(f.number) % TWO64 != 0)
  }

  lemma ApplyContent(m: Denom, f: Field, n: int)
    requires Legal(f) && IsKnown(n)
    ensures ContentOf(Apply(m, f), n) == if NumberOf(f) == n then ContentIn(f) else ContentOf(m, n)
  {
    hide WellFormed, Value, Number;
  }

  lemma {:induction false} ApplyAllContent(m: Denom, fs: seq<Field>, n: int, last: int)
    requires AllLegal(fs) && IsKnown(n) && -1 <= last < |fs|
    requires last >= 0 ==> NumberOf(fs[last]) == n
    requires forall k :: last < k < |fs| ==> NumberOf(fs[k]) != n
    ensures ContentOf(ApplyAll(m, fs), n) == if last >= 0 then ContentIn(fs[last]) else ContentOf(m, n)
    decreases |fs|
  {
    hide Legal, Apply, ContentOf, ContentIn, NumberOf;
    if fs != [] {
      ApplyContent(m, fs[0], n);
      ApplyAllContent(Apply(m, fs[0]), fs[1..], n, if last >= 1 then last - 1 else -1);
    }
  }

  /** After decoding a sequence of legal fields, each of the nine fields holds what its last occurrence
      says, or what the receiver held if it does not occur. */
  lemma {:induction false} LastWins(m: Denom, fs: seq<Field>, n: int, last: int)
    requires AllLegal(fs) && |RenderAll(fs)| <= MAX_INT && IsKnown(n) && -1 <= last < |fs|
    requires last >= 0 ==> NumberOf(fs[last]) == n
    requires forall k :: last < k < |fs| ==> NumberOf(fs[k]) != n
    ensures var r := Merge(m, RenderAll(fs));
      && r.status.Good?
      && ContentOf(r.m, n) == if last >= 0 then ContentIn(fs[last]) else ContentOf(m, n)
  {
    hide DecodeFrom, ApplyAll, ContentOf, ContentIn, NumberOf, Legal, RenderAll;
    DecodeAll(m, fs, 0);
    ApplyAllContent(m, fs, n, last);
  }

  // ---------- round trip ----------

  function WithContent(d: Denom, n: int, c: Content): Denom
    requires IsKnown(n)
    requires IsText(n) ==> c.Text?
    requires IsNumber(n) ==> c.Int?
    requires n == FLAG ==> c.Bool?
  {
    if IsText(n) then WithText(d, n, c.bytes)
    else if IsNumber(n) then WithInt(d, n, c.value)
    else d.(canChangeMaxSupply := c.on)
  }

  lemma TagExact(n: nat, wireType: nat)
    requires IsKnown(n) && wireType < 8
    ensures Tag(n, wireType) == [8 * n + wireType]
    ensures IsTag(Tag(n, wireType), wireType) && Number(Value(Tag(n, wireType)) % TWO64) == n
  {
    hide Sov, IsVarint, Value;
    var v := 8 * n + wireType;
    EncodeExact(v);
    assert v / 8 == n && v % 8 == wireType;
  }

  // Both patterns of a signed number read back as that number in 32 bits.
  lemma PatternExact(v: int32, narrow: bool)
    ensures ToInt32(Pattern(v, narrow) % TWO32) == v
  {
    if v < 0 {
      ModOf(TWO32 - 1, TWO32, v + TWO32);
    }
  }

  // A negative number takes ten bytes with sign extension and would take five without.
  lemma NegativeSize(v: int32)
    requires v < 0
    ensures Sov(Pattern(v, false)) == 10 && Sov(Pattern(v, true)) == 5
  {
    hide Sov, Pow2;
    SmallPow2();
    Pow2Words();
    Pow2Add(1, 31);
    Pow2Add(32, 3);
    Pow2Monotone(64, 70);
    Pow2Monotone(28, 31);
    SovIsLeast(Pattern(v, false), 10);
    SovIsLeast(Pattern(v, false), 9);
    SovIsLeast(Pattern(v, true), 5);
    SovIsLeast(Pattern(v, true), 4);
  }

  // Where field n of d stands in its encoding, it is legal and sets exactly that field.
  lemma {:induction false} OwnField(m: Denom, d: Denom, n: int, narrow: bool)
    requires IsKnown(n) && Fits(d) && ContentOf(m, n) == ContentOf(EMPTY, n)
    ensures AllLegal(FieldFor(d, n, narrow))
    ensures ApplyAll(m, FieldFor(d, n, narrow)) == WithContent(m, n, ContentOf(d, n))
  {
    hide Encode, Value, IsVarint, Sov, Number, ToInt32, Pattern;
    var fs := FieldFor(d, n, narrow);
    TagExact(n, 0);
    TagExact(n, 2);
    if IsText(n) {
      EncodeExact(|TextOf(d, n)|);
    } else if IsNumber(n) {
      EncodeExact(Pattern(IntOf(d, n), narrow));
      PatternExact(IntOf(d, n), narrow);
    } else {
      EncodeExact(1);
    }
    if fs != [] {
      assert Legal(fs[0]);
      assert ApplyAll(m, fs) == Apply(m, fs[0]) by { assert fs[1..] == []; }
    }
  }

  lemma {:induction false} ApplyAppend(m: Denom, a: seq<Field>, b: seq<Field>)
    requires AllLegal(a) && AllLegal(b)
    ensures AllLegal(a + b) && ApplyAll(m, a + b) == ApplyAll(ApplyAll(m, a), b)
    decreases |a|
  {
    hide Legal, Apply;
    assert AllLegal(a + b);
    if a == [] {
      assert a + b == b;
    } else {
      assert (a + b)[1..] == a[1..] + b;
      ApplyAppend(Apply(m, a[0]), a[1..], b);
    }
  }

  lemma {:induction false} OwnFields(m: Denom, d: Denom, n: int, narrow: bool)
    requires 1 <= n <= 10 && Fits(d)
    requires forall k :: n <= k <= 9 ==> ContentOf(m, k) == ContentOf(EMPTY, k)
    requires forall k :: 1 <= k < n ==> ContentOf(m, k) == ContentOf(d, k)
    ensures AllLegal(FieldsFrom(d, n, narrow)) && ApplyAll(m, FieldsFrom(d, n, narrow)) == d
    decreases 10 - n
  {
    hide FieldFor, Legal, Apply, SizeOf;
    if n == 10 {
      assert forall k :: 1 <= k <= 9 ==> ContentOf(m, k) == ContentOf(d, k);
      SameContents(m, d);
    } else {
      var m' := WithContent(m, n, ContentOf(d, n));
      OwnField(m, d, n, narrow);
      OwnFields(m', d, n + 1, narrow);
      ApplyAppend(m, FieldFor(d, n, narrow), FieldsFrom(d, n + 1, narrow));
    }
  }

  lemma SameContents(a: Denom, b: Denom)
    requires forall k :: 1 <= k <= 9 ==> ContentOf(a, k) == ContentOf(b, k)
    ensures a == b
  {
    assert ContentOf(a, 1) == ContentOf(b, 1) && ContentOf(a, 2) == ContentOf(b, 2);
    assert ContentOf(a, 3) == ContentOf(b, 3) && ContentOf(a, 4) == ContentOf(b, 4);
    assert ContentOf(a, 5) == ContentOf(b, 5) && ContentOf(a, 6) == ContentOf(b, 6);
    assert ContentOf(a, 7) == ContentOf(b, 7) && ContentOf(a, 8) == ContentOf(b, 8);
    assert ContentOf(a, 9) == ContentOf(b, 9);
  }

  lemma FieldForSize(d: Denom, n: int, narrow: bool)
    requires IsKnown(n)
    ensures |RenderAll(FieldFor(d, n, narrow))| ==
      if IsText(n) then SizeText(TextOf(d, n))
      else if IsNumber(n) then SizeInt(IntOf(d, n)) - (if narrow then Excess(IntOf(d, n)) else 0)
      else if d.canChangeMaxSupply then 2 else 0
  {
    hide Value, IsVarint, Sov, Number;
    var fs := FieldFor(d, n, narrow);
    TagExact(n, 0);
    TagExact(n, 2);
    if IsText(n) {
      EncodeExact(|TextOf(d, n)|);
    } else if IsNumber(n) {
      EncodeExact(Pattern(IntOf(d, n), narrow));
      if IntOf(d, n) < 0 { NegativeSize(IntOf(d, n)); }
    } else {
      EncodeExact(1);
      assert Encode(1) == [1];
    }
    if fs != [] {
      assert fs[1..] == [];
      assert RenderAll(fs) == Render(fs[0]) + [];
    }
  }

  // What sign extension costs over the narrow pattern.
  function Excess(v: int32): nat { if v < 0 then 5 else 0 }

  function ExcessOf(d: Denom): nat { Excess(d.precision) + Excess(d.maxSupply) + Excess(d.supply) }

  lemma {:induction false} RenderedSize(d: Denom, narrow: bool)
    ensures |RenderAll(FieldsFrom(d, 1, narrow))| == SizeOf(d) - (if narrow then ExcessOf(d) else 0)
  {
    hide FieldFor, RenderAll, SizeText, SizeInt;
    forall n | 1 <= n <= 9
      ensures RenderAll(FieldsFrom(d, n, narrow))
           == RenderAll(FieldFor(d, n, narrow)) + RenderAll(FieldsFrom(d, n + 1, narrow))
    {
      RenderAppend(FieldFor(d, n, narrow), FieldsFrom(d, n + 1, narrow));
    }
    NoFields();
    FieldForSize(d, 1, narrow);
    FieldForSize(d, 2, narrow);
    FieldForSize(d, 3, narrow);
    FieldForSize(d, 4, narrow);
    FieldForSize(d, 5, narrow);
    FieldForSize(d, 6, narrow);
    FieldForSize(d, 7, narrow);
    FieldForSize(d, 8, narrow);
    FieldForSize(d, 9, narrow);
  }

  /** The encoding has exactly the length that Size computes. */
  lemma {:induction false} EncodedSize(d: Denom)
    ensures |EncodeDenom(d)| == SizeOf(d)
  {
    hide SizeOf, FieldsFrom, RenderAll;
    RenderedSize(d, false);
  }

  /** Round trip: unmarshalling what Marshal wrote into a fresh message gives back the message. */
  lemma {:induction false} RoundTripDenom(d: Denom)
    requires Fits(d)
    ensures DecodeDenom(EncodeDenom(d)) == Decoded(d, Good)
  {
    hide SizeOf, FieldsFrom, RenderAll, AllLegal, ApplyAll, DecodeFrom;
    OwnFields(EMPTY, d, 1, false);
    EncodedSize(d);
    DecodeAll(EMPTY, FieldsOf(d), 0);
  }

  // ---------- decoding and encoding again ----------

  // The size of a message, each negative number counted as its narrow pattern.
  function Weight(d: Denom): int { SizeOf(d) - ExcessOf(d) }

  lemma WeightInt(v: int32)
    ensures 0 <= SizeInt(v) - Excess(v) == if v == 0 then 0 else 1 + Sov(Pattern(v, true))
  {
    hide Sov;
    EncodeExact(Pattern(v, true));
    if v < 0 { NegativeSize(v); }
  }

  // One field of the input adds no more weight than it has bytes.
  lemma {:induction false} WeightStep(m: Denom, f: Field)
    requires Legal(f)
    ensures Weight(Apply(m, f)) <= Weight(m) + |Render(f)|
  {
    hide Value, IsVarint, Sov, Number, SizeInt, Excess;
    var n := NumberOf(f);
    assert Render(f) == f.tag + Rest(f) && |f.tag| >= 1 by { VarintAtLeastMinimal(f.tag); EncodeExact(Value(f.tag)); }
    if IsText(n) {
      VarintAtLeastMinimal(f.length);
      assert SizeText(f.payload) <= |Render(f)|;
    } else if IsNumber(n) {
      var v := ToInt32(Value(f.number) % TWO32);
      VarintAtLeastMinimal(f.number);
      WeightInt(v);
      WeightInt(IntOf(m, n));
      assert SizeInt(v) - Excess(v) <= |Render(f)|;
    } else if n == FLAG {
      VarintAtLeastMinimal(f.number);
      EncodeExact(Value(f.number));
    }
  }

  lemma {:induction false} WeightAll(m: Denom, fs: seq<Field>)
    requires AllLegal(fs)
    ensures Weight(ApplyAll(m, fs)) <= Weight(m) + |RenderAll(fs)|
    decreases |fs|
  {
    hide Legal, Apply, Weight, Render;
    if fs != [] {
      WeightStep(m, fs[0]);
      WeightAll(Apply(m, fs[0]), fs[1..]);
    }
  }

  /** Re-encoding what was decoded grows by at most five bytes for each negative number, so not
      at all without negative numbers, and decodes to the same message. */
  lemma {:induction false} ReencodeBound(s: Bytes)
    requires |s| <= MAX_INT && DecodeDenom(s).status.Good?
    ensures var d := DecodeDenom(s).m;
      && SizeOf(d) <= |s| + ExcessOf(d)
      && (Fits(d) ==> DecodeDenom(EncodeDenom(d)) == DecodeDenom(s))
  {
    hide DecodeFrom, AllLegal, ApplyAll, RenderAll, EncodeDenom;
    var fs := FieldsIn(EMPTY, s, 0);
    WeightAll(EMPTY, fs);
    if Fits(DecodeDenom(s).m) { RoundTripDenom(DecodeDenom(s).m); }
  }

  /** That bound is met for every message: writing its negative numbers in 32 bits decodes to it too. */
  lemma {:induction false} NarrowEncoding(d: Denom)
    requires Fits(d)
    ensures var s := RenderAll(FieldsFrom(d, 1, true));
      DecodeDenom(s) == Decoded(d, Good) && SizeOf(d) == |s| + ExcessOf(d)
  {
    hide SizeOf, ExcessOf, FieldsFrom, RenderAll, AllLegal, ApplyAll, DecodeFrom;
    OwnFields(EMPTY, d, 1, true);
    RenderedSize(d, true);
    DecodeAll(EMPTY, FieldsFrom(d, 1, true), 0);
  }

  /** Marshal writes a shortest input that decodes to d if and only if no number in d is negative. */
  lemma {:induction false} MarshalIsShortest(d: Denom)
    requires Fits(d)
    ensures (forall s: Bytes :: |s| <= MAX_INT && DecodeDenom(s) == Decoded(d, Good) ==> |EncodeDenom(d)| <= |s|)
       <==> d.precision >= 0 && d.maxSupply >= 0 && d.supply >= 0
  {
    hide SizeOf, FieldsFrom, RenderAll, DecodeDenom, EncodeDenom;
    EncodedSize(d);
    NarrowEncoding(d);
    if ExcessOf(d) == 0 {
      forall s: Bytes | |s| <= MAX_INT && DecodeDenom(s) == Decoded(d, Good) ensures SizeOf(d) <= |s| {
        ReencodeBound(s);
      }
    } else {
      var s := RenderAll(FieldsFrom(d, 1, true));
      assert |s| < SizeOf(d);
    }
  }
}
