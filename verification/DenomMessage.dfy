/** The Go struct Denom with the methods that fill a buffer from it and fill it from a buffer.
    A subslice dAtA[:hi] is modelled as the array together with the bound hi. */
module DenomMessage {
  import opened Words
  import opened Varint
  import opened Wire
  import opened DenomCodec

  function OneText(key: byte, s: Bytes): Bytes { if s == [] then [] else [key] + (Encode(|s|) + s) }

  function OneInt(key: byte, v: int32): Bytes { if v == 0 then [] else [key] + Encode(ToUint64(v)) }

  // copy(dAtA[i:], s)
  method CopyInto(buf: array<byte>, i: nat, s: Bytes)
    requires i + |s| <= buf.Length
    modifies buf
    ensures buf[..] == Patch(old(buf[..]), i, s)
  {
    forall k | 0 <= k < |s| {
      buf[i + k] := s[k];
    }
    forall k | i <= k < i + |s| ensures buf[..][k] == s[k - i] {
      assert buf[i + (k - i)] == s[k - i];
    }
    PatchByElements(old(buf[..]), buf[..], i, s);
  }

  // i--; dAtA[i] = b
  method PutByte(buf: array<byte>, hi: nat, b: byte) returns (i: nat)
    requires 1 <= hi <= buf.Length
    modifies buf
    ensures i == hi - 1 && buf[..] == Patch(old(buf[..]), i, [b])
  {
    i := hi - 1;
    buf[i] := b;
  }

  // The block `if len(m.X) > 0 { ... }`: the text, in front of it its length, in front of that the key.
  method PutText(buf: array<byte>, hi: nat, key: byte, s: Bytes) returns (i: nat)
    requires SizeText(s) <= hi <= buf.Length <= MAX_INT
    modifies buf
    ensures i == hi - SizeText(s) == hi - |OneText(key, s)|
    ensures buf[..] == Patch(old(buf[..]), i, OneText(key, s))
  {
    hide Encode, Sov, Patch;
    ghost var before := buf[..];
    i := hi;
    if |s| > 0 {
      i := i - |s|;
      CopyInto(buf, i, s);
      i := EncodeInto(buf, i, |s|);
      PatchJoin(before, i, Encode(|s|), s);
      i := PutByte(buf, i, key);
      PatchJoin(before, i, [key], Encode(|s|) + s);
    } else {
      PatchNothing(before, i);
    }
  }

  // The block `if m.X != 0 { ... }` for a number.
  method PutInt(buf: array<byte>, hi: nat, key: byte, v: int32) returns (i: nat)
    requires SizeInt(v) <= hi <= buf.Length
    modifies buf
    ensures i == hi - SizeInt(v) == hi - |OneInt(key, v)|
    ensures buf[..] == Patch(old(buf[..]), i, OneInt(key, v))
  {
    hide Encode, Sov, Patch;
    ghost var before := buf[..];
    i := hi;
    if v != 0 {
      i := EncodeInto(buf, i, ToUint64(v));
      i := PutByte(buf, i, key);
      PatchJoin(before, i, [key], Encode(ToUint64(v)));
    } else {
      PatchNothing(before, i);
    }
  }

  lemma TextFirst(d: Denom, n: int)
    requires IsText(n)
    ensures RenderAll(FieldsFrom(d, n, false))
         == OneText(8 * n + 2, TextOf(d, n)) + RenderAll(FieldsFrom(d, n + 1, false))
  {
    hide Encode, IsVarint, Value, FieldsFrom, RenderAll, WellFormed;
    NoFields();
    TagExact(n, 2);
    First(d, n);
    var fs, s := FieldFor(d, n, false), TextOf(d, n);
    if s != [] {
      assert fs == [fs[0]];
      RenderOne(fs[0]);
    }
  }

  lemma IntFirst(d: Denom, n: int)
    requires IsNumber(n)
    ensures RenderAll(FieldsFrom(d, n, false))
         == OneInt(8 * n, IntOf(d, n)) + RenderAll(FieldsFrom(d, n + 1, false))
  {
    hide Encode, IsVarint, Value, FieldsFrom, RenderAll, WellFormed;
    NoFields();
    TagExact(n, 0);
    First(d, n);
    var fs := FieldFor(d, n, false);
    if fs != [] {
      assert fs == [fs[0]];
      RenderOne(fs[0]);
    }
  }

  lemma FlagFirst(d: Denom)
    ensures RenderAll(FieldsFrom(d, 8, false))
         == (if d.canChangeMaxSupply then [0x40] + [1] else []) + RenderAll(FieldsFrom(d, 9, false))
  {
    hide IsVarint, Value, FieldsFrom, RenderAll, WellFormed;
    NoFields();
    TagExact(8, 0);
    First(d, 8);
    var fs := FieldFor(d, 8, false);
    if fs != [] {
      assert fs == [fs[0]];
      assert Encode(1) == [1];
      RenderOne(fs[0]);
    }
  }

  lemma First(d: Denom, n: int)
    requires IsKnown(n)
    ensures RenderAll(FieldsFrom(d, n, false))
         == RenderAll(FieldFor(d, n, false)) + RenderAll(FieldsFrom(d, n + 1, false))
  {
    hide FieldFor, RenderAll;
    RenderAppend(FieldFor(d, n, false), FieldsFrom(d, n + 1, false));
  }

  /** The layout of an encoded Denom, byte by byte: the nine fields in ascending order, each behind its key,
      default values left out, texts behind their length, negative numbers in 64-bit two's complement.
      `Encode` is the minimal varint (EncodeExact). */
  lemma {:induction false} DenomLayout(d: Denom)
    ensures EncodeDenom(d) ==
      (if d.denom == [] then [] else [0x0a] + Encode(|d.denom|) + d.denom)
      + (if d.description == [] then [] else [0x12] + Encode(|d.description|) + d.description)
      + (if d.ticker == [] then [] else [0x1a] + Encode(|d.ticker|) + d.ticker)
      + (if d.precision == 0 then [] else [0x20] + Encode(if d.precision < 0 then TWO64 + d.precision else d.precision))
      + (if d.url == [] then [] else [0x2a] + Encode(|d.url|) + d.url)
      + (if d.maxSupply == 0 then [] else [0x30] + Encode(if d.maxSupply < 0 then TWO64 + d.maxSupply else d.maxSupply))
      + (if d.supply == 0 then [] else [0x38] + Encode(if d.supply < 0 then TWO64 + d.supply else d.supply))
      + (if d.canChangeMaxSupply then [0x40, 0x01] else [])
      + (if d.owner == [] then [] else [0x4a] + Encode(|d.owner|) + d.owner)
  {
    hide EncodeDenom, Encode, OneText, OneInt;
    LayoutParts(d);
    TextLayout(0x0a, d.denom);
    TextLayout(0x12, d.description);
    TextLayout(0x1a, d.ticker);
    IntLayout(0x20, d.precision);
    TextLayout(0x2a, d.url);
    IntLayout(0x30, d.maxSupply);
    IntLayout(0x38, d.supply);
    TextLayout(0x4a, d.owner);
  }

  lemma {:induction false} LayoutParts(d: Denom)
    ensures EncodeDenom(d) ==
      OneText(0x0a, d.denom) + OneText(0x12, d.description) + OneText(0x1a, d.ticker) + OneInt(0x20, d.precision)
      + OneText(0x2a, d.url) + OneInt(0x30, d.maxSupply) + OneInt(0x38, d.supply)
      + (if d.canChangeMaxSupply then [0x40, 0x01] else []) + OneText(0x4a, d.owner)
  {
    hide RenderAll, FieldsFrom, OneText, OneInt;
    TextFirst(d, 1);
    TextFirst(d, 2);
    TextFirst(d, 3);
    IntFirst(d, 4);
    TextFirst(d, 5);
    IntFirst(d, 6);
    IntFirst(d, 7);
    FlagFirst(d);
    TextFirst(d, 9);
    NoneLeft(d);
    var flag := if d.canChangeMaxSupply then [0x40, 0x01] else [];
    assert RenderAll(FieldsFrom(d, 8, false)) == flag + RenderAll(FieldsFrom(d, 9, false));
    NineParts(OneText(0x0a, d.denom), OneText(0x12, d.description), OneText(0x1a, d.ticker),
              OneInt(0x20, d.precision), OneText(0x2a, d.url), OneInt(0x30, d.maxSupply), OneInt(0x38, d.supply),
              flag, OneText(0x4a, d.owner));
  }

  lemma {:induction false} NineParts(a1: Bytes, a2: Bytes, a3: Bytes, a4: Bytes, a5: Bytes, a6: Bytes, a7: Bytes,
                                     a8: Bytes, a9: Bytes)
    ensures a1 + (a2 + (a3 + (a4 + (a5 + (a6 + (a7 + (a8 + (a9 + []))))))))
         == a1 + a2 + a3 + a4 + a5 + a6 + a7 + a8 + a9
  {
    var t8 := a8 + a9;
    var t7 := a7 + t8;
    var t6 := a6 + t7;
    var t5 := a5 + t6;
    var t4 := a4 + t5;
    var t3 := a3 + t4;
    assert a9 + [] == a9;
    Regroup(a1, a2, t3);
    Regroup(a1 + a2, a3, t4);
    Regroup(a1 + a2 + a3, a4, t5);
    Regroup(a1 + a2 + a3 + a4, a5, t6);
    Regroup(a1 + a2 + a3 + a4 + a5, a6, t7);
    Regroup(a1 + a2 + a3 + a4 + a5 + a6, a7, t8);
    Regroup(a1 + a2 + a3 + a4 + a5 + a6 + a7, a8, a9);
  }

  lemma Regroup(a: Bytes, b: Bytes, c: Bytes)
    ensures a + (b + c) == a + b + c
  {
  }

  lemma TextLayout(key: byte, s: Bytes)
    ensures OneText(key, s) == if s == [] then [] else [key] + Encode(|s|) + s
  {
    hide Encode;
    Regroup([key], Encode(|s|), s);
  }

  lemma IntLayout(key: byte, v: int32)
    ensures OneInt(key, v) == if v == 0 then [] else [key] + Encode(if v < 0 then TWO64 + v else v)
  {
    hide Encode;
  }

  lemma PatchWhole(before: Bytes, b: Bytes)
    requires |b| == |before|
    ensures Patch(before, 0, b) == b
  {
  }

  lemma NoneLeft(d: Denom)
    ensures RenderAll(FieldsFrom(d, 10, false)) == []
  {
  }

  // The text in front of what is already written extends it from field n + 1 to field n.
  lemma Join(before: Bytes, i: nat, d: Denom, n: int, a: Bytes)
    requires IsKnown(n) && n != FLAG
    requires a == if IsText(n) then OneText(8 * n + 2, TextOf(d, n)) else OneInt(8 * n, IntOf(d, n))
    requires i + |a| + |RenderAll(FieldsFrom(d, n + 1, false))| <= |before|
    ensures RenderAll(FieldsFrom(d, n, false)) == a + RenderAll(FieldsFrom(d, n + 1, false))
    ensures Patch(Patch(before, i + |a|, RenderAll(FieldsFrom(d, n + 1, false))), i, a)
         == Patch(before, i, RenderAll(FieldsFrom(d, n, false)))
  {
    hide RenderAll, FieldsFrom, OneText, OneInt, Patch;
    if IsText(n) { TextFirst(d, n); } else { IntFirst(d, n); }
    PatchJoin(before, i, a, RenderAll(FieldsFrom(d, n + 1, false)));
  }

  lemma JoinFlag(before: Bytes, i: nat, d: Denom)
    requires i + (if d.canChangeMaxSupply then 2 else 0) + |RenderAll(FieldsFrom(d, 9, false))| <= |before|
    ensures var tail := RenderAll(FieldsFrom(d, 9, false));
      && |RenderAll(FieldsFrom(d, 8, false))| == |tail| + (if d.canChangeMaxSupply then 2 else 0)
      && Patch(before, i, RenderAll(FieldsFrom(d, 8, false)))
         == if d.canChangeMaxSupply then Patch(Patch(Patch(before, i + 2, tail), i + 1, [1]), i, [0x40])
            else Patch(before, i, tail)
  {
    hide RenderAll, FieldsFrom, Patch;
    var tail := RenderAll(FieldsFrom(d, 9, false));
    FlagFirst(d);
    if d.canChangeMaxSupply {
      PatchJoin(before, i + 1, [1], tail);
      PatchJoin(before, i, [0x40], [1] + tail);
      assert [0x40] + ([1] + tail) == [0x40] + [1] + tail;
    } else {
      assert [] + tail == tail;
    }
  }

  class DenomMessage {
    var denom: Bytes
    var description: Bytes
    var ticker: Bytes
    var precision: int32
    var url: Bytes
    var maxSupply: int32
    var supply: int32
    var canChangeMaxSupply: bool
    var owner: Bytes

    function Contents(): Denom
      reads this
    {
      Denom(denom, description, ticker, precision, url, maxSupply, supply, canChangeMaxSupply, owner)
    }

    constructor (d: Denom)
      ensures Contents() == d
    {
      denom, description, ticker, url, owner := d.denom, d.description, d.ticker, d.url, d.owner;
      precision, maxSupply, supply := d.precision, d.maxSupply, d.supply;
      canChangeMaxSupply := d.canChangeMaxSupply;
    }

    method Size() returns (n: nat)
      ensures n == |EncodeDenom(Contents())| == SizeOf(Contents())
    {
      hide EncodeDenom, Sov, ToUint64;
      n := 0;
      if |denom| > 0 { n := n + 1 + |denom| + Sov(|denom|); }
      if |description| > 0 { n := n + 1 + |description| + Sov(|description|); }
      if |ticker| > 0 { n := n + 1 + |ticker| + Sov(|ticker|); }
      assert n == SizeText(denom) + SizeText(description) + SizeText(ticker);
      ghost var n3 := n;
      if precision != 0 { n := n + 1 + Sov(ToUint64(precision)); }
      if |url| > 0 { n := n + 1 + |url| + Sov(|url|); }
      if maxSupply != 0 { n := n + 1 + Sov(ToUint64(maxSupply)); }
      assert n == n3 + SizeInt(precision) + SizeText(url) + SizeInt(maxSupply);
      ghost var n6 := n;
      if supply != 0 { n := n + 1 + Sov(ToUint64(supply)); }
      if canChangeMaxSupply { n := n + 2; }
      if |owner| > 0 { n := n + 1 + |owner| + Sov(|owner|); }
      assert n == n6 + SizeInt(supply) + (if canChangeMaxSupply then 2 else 0) + SizeText(owner);
      assert n == SizeOf(Contents());
      EncodedSize(Contents());
    }

    /** Backward marshalling is exact: it fills the last Size bytes in front of hi with the encoding
        and leaves every other byte of the buffer alone. */
    method MarshalToSizedBuffer(buf: array<byte>, hi: nat) returns (n: nat)
      requires SizeOf(Contents()) <= hi <= buf.Length <= MAX_INT
      modifies buf
      ensures n == SizeOf(Contents()) == |EncodeDenom(Contents())|
      ensures buf[..] == Patch(old(buf[..]), hi - n, EncodeDenom(Contents()))
    {
      hide FieldsFrom, RenderAll, Patch, SizeText, SizeInt, OneText, OneInt;
      ghost var d, before := Contents(), buf[..];
      EncodedSize(d);
      NoneLeft(d);
      PatchNothing(before, hi);
      var i := hi;
      i := PutText(buf, i, 0x4a, owner);
      Join(before, i, d, 9, OneText(0x4a, owner));
      if canChangeMaxSupply {
        i := PutByte(buf, i, 1);
        i := PutByte(buf, i, 0x40);
      }
      JoinFlag(before, i, d);
      i := PutInt(buf, i, 0x38, supply);
      Join(before, i, d, 7, OneInt(0x38, supply));
      i := PutInt(buf, i, 0x30, maxSupply);
      Join(before, i, d, 6, OneInt(0x30, maxSupply));
      i := PutText(buf, i, 0x2a, url);
      Join(before, i, d, 5, OneText(0x2a, url));
      i := PutInt(buf, i, 0x20, precision);
      Join(before, i, d, 4, OneInt(0x20, precision));
      i := PutText(buf, i, 0x1a, ticker);
      Join(before, i, d, 3, OneText(0x1a, ticker));
      i := PutText(buf, i, 0x12, description);
      Join(before, i, d, 2, OneText(0x12, description));
      i := PutText(buf, i, 0xa, denom);
      Join(before, i, d, 1, OneText(0xa, denom));
      n := hi - i;
    }

    /** Marshal: a buffer of Size bytes, which the encoding fills from index 0. */
    method Marshal() returns (buf: array<byte>)
      requires Fits(Contents())
      ensures fresh(buf) && buf[..] == EncodeDenom(Contents())
    {
      hide EncodeDenom, SizeOf;
      var size := Size();
      buf := new byte[size];
      ghost var before := buf[..];
      var n := MarshalToSizedBuffer(buf, size);
      PatchWhole(before, EncodeDenom(Contents()));
    }

    // One turn of the loop in Unmarshal.  A failing number field keeps the bits read so far.
    method UnmarshalField(data: Bytes, start: nat) returns (next: nat, status: Status)
      requires start < |data| <= MAX_INT
      modifies this
      ensures var r := StepAt(old(Contents()), data[start..], start);
        && Contents() == r.m && status == r.status
        && (status.Good? ==> next == start + r.size <= |data|)
    {
      hide HeaderAt, ChunkAt, UnknownAt, ReadFrom;
      var number, wireType;
      ghost var s := data[start..];
      number, wireType, next, status := ReadHeader(data, start);
      if status.Bad? {
        return;
      }
      assert data[next..] == s[next - start..];
      if IsText(number) {
        if wireType != 2 {
          return next, Bad(WrongWireType(wireType, number));
        }
        var text;
        text, next, status := ReadChunk(data, next);
        if status.Good? {
          match number {
            case 1 => denom := text;
            case 2 => description := text;
            case 3 => ticker := text;
            case 5 => url := text;
            case _ => owner := text;
          }
        }
      } else if IsNumber(number) {
        if wireType != 0 {
          return next, Bad(WrongWireType(wireType, number));
        }
        var v;
        v, next, status := ReadInt32(data, next);
        match number {
          case 4 => precision := v;
          case 6 => maxSupply := v;
          case _ => supply := v;
        }
      } else if number == FLAG {
        if wireType != 0 {
          return next, Bad(WrongWireType(wireType, number));
        }
        var v;
        v, next, status := ReadUint64(data, next);
        if status.Good? {
          canChangeMaxSupply := v != 0;
        }
      } else {
        next, status := SkipUnknown(data, start);
      }
    }

    /** Unmarshal computes exactly the decoding function, with the partial message on failure. */
    method Unmarshal(data: Bytes) returns (status: Status)
      requires |data| <= MAX_INT
      modifies this
      ensures Decoded(Contents(), status) == Merge(old(Contents()), data)
    {
      hide StepAt;
      var i := 0;
      assert data[0..] == data;
      while i < |data|
        invariant i <= |data|
        invariant DecodeFrom(Contents(), data[i..], i) == Merge(old(Contents()), data)
        decreases |data| - i
      {
        ghost var rest, start := data[i..], i;
        i, status := UnmarshalField(data, i);
        if status.Bad? {
          return;
        }
        assert rest[i - start..] == data[i..];
      }
      // The check `iNdEx > l` after the loop never fires.
      assert i == |data|;
      status := Good;
    }
  }
}
