/** The Go struct GenesisState with its Marshal and Unmarshal methods.  Elements of the list are values;
    the element that Unmarshal fills in place is a fresh message whose contents are appended. */
module GenesisMessage {
  import opened Words
  import opened Varint
  import opened Wire
  import opened DenomCodec
  import opened DenomMessage
  import opened GenesisCodec

  lemma {:induction false} SuffixSize(ds: seq<Denom>, k: nat)
    requires k <= |ds|
    ensures SizeEntries(ds[k..]) <= SizeEntries(ds)
    ensures k < |ds| ==> SizeEntries(ds[k..]) == SizeEntry(ds[k]) + SizeEntries(ds[k + 1..])
    decreases |ds|
  {
    hide SizeEntry;
    assert ds[0..] == ds;
    if k < |ds| { assert ds[k..][1..] == ds[k + 1..]; }
    if k > 0 {
      assert ds[1..][k - 1..] == ds[k..];
      SuffixSize(ds[1..], k - 1);
    }
  }

  // One element and its length and key, in front of the elements already written.
  lemma {:induction false} JoinEntry(before: Bytes, i: nat, ds: seq<Denom>, k: nat)
    requires k < |ds| && i + SizeEntry(ds[k]) + |RenderAll(EntryFields(ds[k + 1..]))| <= |before|
    ensures |EncodeDenom(ds[k])| == SizeOf(ds[k]) && |Encode(SizeOf(ds[k]))| == Sov(SizeOf(ds[k]))
    ensures |RenderAll(EntryFields(ds[k..]))| == SizeEntry(ds[k]) + |RenderAll(EntryFields(ds[k + 1..]))|
    ensures var d, tail := ds[k], RenderAll(EntryFields(ds[k + 1..]));
      var n := i + 1 + Sov(SizeOf(d));
      Patch(before, i, RenderAll(EntryFields(ds[k..]))) ==
        Patch(Patch(Patch(Patch(before, n + SizeOf(d), tail), n, EncodeDenom(d)), i + 1, Encode(SizeOf(d))), i, [0x12])
  {
    hide RenderAll, EntryFields, EntryField, EncodeDenom, Encode, Sov, SizeOf, Patch;
    var d, tail := ds[k], RenderAll(EntryFields(ds[k + 1..]));
    var e, l, n := EncodeDenom(d), Encode(SizeOf(d)), i + 1 + Sov(SizeOf(d));
    EncodedSize(d);
    EncodeExact(SizeOf(d));
    EntryBytes(d);
    assert ds[k..][1..] == ds[k + 1..];
    EntriesFirst(ds[k..]);
    PatchJoin(before, n, e, tail);
    PatchJoin(before, i + 1, l, e + tail);
    PatchJoin(before, i, [0x12], l + (e + tail));
    assert [0x12] + (l + (e + tail)) == [0x12] + (l + e) + tail;
  }

  /** (*Params).Unmarshal */
  method UnmarshalParams(data: Bytes) returns (status: Status)
    requires |data| <= MAX_INT
    ensures status == DecodeParams(data)
  {
    hide HeaderAt, UnknownAt;
    var i := 0;
    assert data[0..] == data;
    while i < |data|
      invariant i <= |data|
      invariant DecodeParamsFrom(data[i..], i) == DecodeParams(data)
      decreases |data| - i
    {
      ghost var rest, start := data[i..], i;
      var number, wireType, next;
      number, wireType, next, status := ReadHeader(data, i);
      if status.Bad? {
        return;
      }
      i, status := SkipUnknown(data, i);
      if status.Bad? {
        return;
      }
      assert rest[i - start..] == data[i..];
    }
    assert i == |data|;
    status := Good;
  }

  lemma ZeroVarint()
    ensures Sov(0) == 1 && Encode(0) == [0]
  {
    hide Sov;
    EncodeLength(0);
  }

  lemma NoEntries(ds: seq<Denom>)
    ensures SizeEntries(ds[|ds|..]) == 0 && RenderAll(EntryFields(ds[|ds|..])) == []
  {
  }

  lemma {:induction false} JoinParams(before: Bytes, i: nat, g: Genesis)
    requires i + 2 + |RenderAll(EntryFields(g.denomList))| <= |before|
    ensures Sov(0) == 1 && Encode(0) == [0]
    ensures |EncodeGenesis(g)| == 2 + |RenderAll(EntryFields(g.denomList))| == SizeOfGenesis(g)
    ensures Patch(Patch(Patch(before, i + 2, RenderAll(EntryFields(g.denomList))), i + 1, [0]), i, [0xa])
         == Patch(before, i, EncodeGenesis(g))
  {
    hide RenderAll, EntryFields, EncodeGenesis, Patch, Encode, Sov;
    var entries := RenderAll(EntryFields(g.denomList));
    ZeroVarint();
    GenesisBytes(g);
    PatchJoin(before, i + 1, [0], entries);
    PatchJoin(before, i, [0xa], [0] + entries);
    assert [0xa] + ([0] + entries) == [0xa, 0x0] + entries;
  }

  class GenesisMessage {
    var params: Params
    var denomList: seq<Denom>

    function Contents(): Genesis
      reads this
    {
      Genesis(params, denomList)
    }

    constructor (g: Genesis)
      ensures Contents() == g
    {
      params, denomList := g.params, g.denomList;
    }

    method Size() returns (n: nat)
      ensures n == |EncodeGenesis(Contents())| == SizeOfGenesis(Contents())
    {
      hide EncodeGenesis, EncodeDenom, SizeOf, Sov;
      GenesisBytes(Contents());
      n := 1 + 0 + Sov(0);
      ghost var total := SizeEntries(denomList);
      assert denomList[0..] == denomList;
      for k := 0 to |denomList|
        invariant n + SizeEntries(denomList[k..]) == 1 + 0 + Sov(0) + total
      {
        SuffixSize(denomList, k);
        var e := new DenomMessage(denomList[k]);
        var l := e.Size();
        n := n + 1 + l + Sov(l);
      }
      assert denomList[|denomList|..] == [];
    }

    /** Nested backward marshalling composes: the list is written from last to first, each element into
        what is left in front, and the whole is exactly the encoding in front of hi. */
    method MarshalToSizedBuffer(buf: array<byte>, hi: nat) returns (n: nat)
      requires SizeOfGenesis(Contents()) <= hi <= buf.Length <= MAX_INT
      modifies buf
      ensures n == SizeOfGenesis(Contents()) == |EncodeGenesis(Contents())|
      ensures buf[..] == Patch(old(buf[..]), hi - n, EncodeGenesis(Contents()))
    {
      hide EncodeGenesis, EncodeDenom, Encode, SizeOf, Sov, Patch, RenderAll, EntryFields, SizeEntries;
      ghost var before := buf[..];
      var i := hi;
      NoEntries(denomList);
      PatchNothing(before, hi);
      for k := |denomList| downto 0
        invariant i == hi - SizeEntries(denomList[k..]) == hi - |RenderAll(EntryFields(denomList[k..]))|
        invariant buf[..] == Patch(before, i, RenderAll(EntryFields(denomList[k..])))
      {
        SuffixSize(denomList, k);
        SuffixSize(denomList, k + 1);
        var e := new DenomMessage(denomList[k]);
        var size := e.MarshalToSizedBuffer(buf, i);
        i := i - size;
        i := EncodeInto(buf, i, size);
        i := PutByte(buf, i, 0x12);
        JoinEntry(before, i, denomList, k);
      }
      assert denomList[0..] == denomList;
      ZeroVarint();
      // Params writes nothing.
      i := EncodeInto(buf, i, 0);
      i := PutByte(buf, i, 0xa);
      JoinParams(before, i, Contents());
      n := hi - i;
    }

    method Marshal() returns (buf: array<byte>)
      requires SizeOfGenesis(Contents()) <= MAX_INT
      ensures fresh(buf) && buf[..] == EncodeGenesis(Contents())
    {
      hide EncodeGenesis, SizeOfGenesis;
      var size := Size();
      buf := new byte[size];
      ghost var before := buf[..];
      var n := MarshalToSizedBuffer(buf, size);
      PatchWhole(before, EncodeGenesis(Contents()));
    }

    // One turn of the loop in Unmarshal.
    method UnmarshalField(data: Bytes, start: nat) returns (next: nat, status: Status)
      requires start < |data| <= MAX_INT
      modifies this
      ensures var r := GenesisStepAt(old(Contents()), data[start..], start);
        && Contents() == r.g && status == r.status
        && (status.Good? ==> next == start + r.size <= |data|)
    {
      hide HeaderAt, ChunkAt, UnknownAt, DecodeFrom, DecodeParams;
      var number, wireType;
      ghost var s := data[start..];
      number, wireType, next, status := ReadHeader(data, start);
      if status.Bad? {
        return;
      }
      assert data[next..] == s[next - start..];
      if number == 1 || number == 2 {
        if wireType != 2 {
          return next, Bad(WrongWireType(wireType, number));
        }
        var payload;
        payload, next, status := ReadChunk(data, next);
        if status.Good? {
          if number == 1 {
            status := UnmarshalParams(payload);
          } else {
            var e := new DenomMessage(EMPTY);
            status := e.Unmarshal(payload);
            denomList := denomList + [e.Contents()];
          }
        }
      } else {
        next, status := SkipUnknown(data, start);
      }
    }

    /** Unmarshal computes exactly the decoding function, with the partial list on failure. */
    method Unmarshal(data: Bytes) returns (status: Status)
      requires |data| <= MAX_INT
      modifies this
      ensures DecodedGenesis(Contents(), status) == MergeGenesis(old(Contents()), data)
    {
      hide GenesisStepAt;
      var i := 0;
      assert data[0..] == data;
      while i < |data|
        invariant i <= |data|
        invariant DecodeGenesisFrom(Contents(), data[i..], i) == MergeGenesis(old(Contents()), data)
        decreases |data| - i
      {
        ghost var rest, start := data[i..], i;
        i, status := UnmarshalField(data, i);
        if status.Bad? {
          return;
        }
        assert rest[i - start..] == data[i..];
      }
      // The check `iNdEx > l` after the loop never fires.
      assert i == |data|;
      status := Good;
    }
  }
}
