/** The wire codec of GenesisState: the empty message Params and a repeated nested Denom. */
module GenesisCodec {
  import opened Words
  import opened Varint
  import opened Wire
  import opened DenomCodec

  datatype Params = Params

  datatype Genesis = Genesis(params: Params, denomList: seq<Denom>)

  // ---------- Params: every field is unknown ----------

  function ParamsStepAt(s: Bytes, at: nat): (k: Skipped)
    ensures k.status.Good? ==> 1 <= k.end <= |s|
  {
    var h := HeaderAt(s);
    if h.status.Bad? then Skipped(0, h.status) else UnknownAt(s, at)
  }

  function DecodeParamsFrom(s: Bytes, at: nat): Status
    decreases |s|
  {
    if s == [] then Good else
    var k := ParamsStepAt(s, at);
    if k.status.Bad? then k.status else DecodeParamsFrom(s[k.end..], at + k.end)
  }

  // (*Params).Unmarshal; the message itself has nothing to set.
  function DecodeParams(s: Bytes): Status { DecodeParamsFrom(s, 0) }

  predicate LegalInParams(f: Field) { WellFormed(f) && NumberOf(f) > 0 }

  predicate AllLegalInParams(fs: seq<Field>) { forall k :: 0 <= k < |fs| ==> LegalInParams(fs[k]) }

  lemma {:induction false} ParamsFields(fs: seq<Field>, rest: Bytes, at: nat)
    requires AllLegalInParams(fs) && at + |RenderAll(fs)| <= MAX_INT
    ensures DecodeParamsFrom(RenderAll(fs) + rest, at) == DecodeParamsFrom(rest, at + |RenderAll(fs)|)
    decreases |fs|
  {
    hide HeaderAt, UnknownAt, Render, WellFormed, NumberOf;
    if fs == [] {
      assert RenderAll(fs) + rest == rest;
    } else {
      var f, tail := fs[0], RenderAll(fs[1..]) + rest;
      assert RenderAll(fs) + rest == Render(f) + tail;
      HeaderComplete(f, tail);
      UnknownComplete(f, tail, at);
      Prefix(Render(f), tail);
      ParamsFields(fs[1..], rest, at + |Render(f)|);
    }
  }

  lemma {:induction false} ParamsAll(fs: seq<Field>, at: nat)
    requires AllLegalInParams(fs) && at + |RenderAll(fs)| <= MAX_INT
    ensures DecodeParamsFrom(RenderAll(fs), at) == Good
  {
    hide LegalInParams, RenderAll, ParamsStepAt;
    ParamsFields(fs, [], at);
    assert RenderAll(fs) + [] == RenderAll(fs);
  }

  lemma {:induction false} ParamsFieldsIn(s: Bytes, at: nat) returns (fs: seq<Field>)
    requires at + |s| <= MAX_INT && DecodeParamsFrom(s, at).Good?
    ensures AllLegalInParams(fs) && RenderAll(fs) == s
    decreases |s|
  {
    hide HeaderAt, UnknownAt, Render, WellFormed, Number, IsVarint, Value;
    if s == [] {
      fs := [];
    } else {
      var n := ParamsStepAt(s, at).end;
      var tag := HeaderSound(s);
      var f := UnknownSound(s, at, tag);
      var tail := ParamsFieldsIn(s[n..], at + n);
      fs := [f] + tail;
      assert fs[1..] == tail;
      assert s == s[..n] + s[n..];
    }
  }

  // A rejected input: the legal fields in front of the failing turn, and what is left at that turn.
  lemma {:induction false} ParamsStops(s: Bytes, at: nat) returns (fs: seq<Field>, rest: Bytes)
    requires at + |s| <= MAX_INT && DecodeParamsFrom(s, at).Bad?
    ensures AllLegalInParams(fs) && s == RenderAll(fs) + rest && rest != []
    ensures var k := ParamsStepAt(rest, at + |RenderAll(fs)|);
      k.status.Bad? && DecodeParamsFrom(s, at) == k.status
    decreases |s|
  {
    hide HeaderAt, UnknownAt, Render, WellFormed, Number, IsVarint, Value;
    var k := ParamsStepAt(s, at);
    if k.status.Bad? {
      fs, rest := [], s;
    } else {
      var tag := HeaderSound(s);
      var f := UnknownSound(s, at, tag);
      var tail;
      tail, rest := ParamsStops(s[k.end..], at + k.end);
      fs := [f] + tail;
      assert fs[1..] == tail;
      assert s == s[..k.end] + s[k.end..];
      assert RenderAll(fs) + rest == Render(f) + (RenderAll(tail) + rest);
    }
  }

  /** Params accepts exactly the sequences of complete fields with positive numbers. */
  lemma {:induction false} ParamsLanguage(s: Bytes)
    requires |s| <= MAX_INT
    ensures DecodeParams(s).Good?
       <==> exists fs :: AllLegalInParams(fs) && RenderAll(fs) == s
  {
    hide DecodeParamsFrom, LegalInParams, RenderAll;
    if DecodeParams(s).Good? {
      var fs := ParamsFieldsIn(s, 0);
    }
    if fs :| AllLegalInParams(fs) && RenderAll(fs) == s {
      ParamsAll(fs, 0);
    }
  }

  // ---------- encoding ----------

  function EntryField(d: Denom): Field { BytesField(Tag(2, 2), Encode(SizeOf(d)), EncodeDenom(d)) }

  function EntryFields(ds: seq<Denom>): seq<Field>
  {
    if ds == [] then [] else [EntryField(ds[0])] + EntryFields(ds[1..])
  }

  // params is always written, then one field for each element of the list.
  function GenesisFields(g: Genesis): seq<Field> { [BytesField(Tag(1, 2), Encode(0), [])] + EntryFields(g.denomList) }

  function EncodeGenesis(g: Genesis): Bytes { RenderAll(GenesisFields(g)) }

  function SizeEntry(d: Denom): nat { 1 + SizeOf(d) + Sov(SizeOf(d)) }

  function SizeEntries(ds: seq<Denom>): nat { if ds == [] then 0 else SizeEntry(ds[0]) + SizeEntries(ds[1..]) }

  // (*GenesisState).Size, where Params has size 0.
  function SizeOfGenesis(g: Genesis): nat { 1 + 0 + Sov(0) + SizeEntries(g.denomList) }

  lemma {:induction false} EntryBytes(d: Denom)
    ensures Render(EntryField(d)) == [0x12] + (Encode(SizeOf(d)) + EncodeDenom(d))
    ensures |Render(EntryField(d))| == SizeEntry(d)
    ensures Fits(d) ==> WellFormed(EntryField(d)) && NumberOf(EntryField(d)) == 2
  {
    hide Encode, EncodeDenom, SizeOf, Sov, IsVarint, Value, Number;
    TagExact(2, 2);
    EncodeExact(SizeOf(d));
    EncodedSize(d);
    assert Tag(2, 2) + Encode(SizeOf(d)) + EncodeDenom(d) == [0x12] + (Encode(SizeOf(d)) + EncodeDenom(d));
  }

  lemma {:induction false} EntriesSize(ds: seq<Denom>)
    ensures |RenderAll(EntryFields(ds))| == SizeEntries(ds)
  {
    hide EntryField, SizeEntry, Render;
    if ds != [] {
      EntriesSize(ds[1..]);
      EntryBytes(ds[0]);
      EntriesFirst(ds);
    }
  }

  lemma EntriesFirst(ds: seq<Denom>)
    requires ds != []
    ensures RenderAll(EntryFields(ds)) == Render(EntryField(ds[0])) + RenderAll(EntryFields(ds[1..]))
  {
    hide EntryField, Render;
    assert EntryFields(ds)[1..] == EntryFields(ds[1..]);
  }

  lemma GenesisBytes(g: Genesis)
    ensures EncodeGenesis(g) == [0xa, 0x0] + RenderAll(EntryFields(g.denomList))
    ensures |EncodeGenesis(g)| == SizeOfGenesis(g)
    ensures var p := GenesisFields(g)[0]; WellFormed(p) && NumberOf(p) == 1
  {
    hide EntryFields, SizeEntries, IsVarint, Value, Number, RenderAll;
    var p, entries := BytesField(Tag(1, 2), Encode(0), []), EntryFields(g.denomList);
    TagExact(1, 2);
    EncodeExact(0);
    assert Encode(0) == [0];
    RenderAppend([p], entries);
    RenderOne(p);
    assert Render(p) == [0xa, 0x0];
    EntriesSize(g.denomList);
  }

  /** The layout of an encoded genesis, byte by byte: an empty params field, then for each element in the
      order of the list the key 0x12, the length of its encoding and its encoding. */
  lemma {:induction false} GenesisLayout(ds: seq<Denom>, d: Denom)
    ensures EncodeGenesis(Genesis(Params, [])) == [0x0a, 0x00]
    ensures var e := EncodeDenom(d);
      EncodeGenesis(Genesis(Params, ds + [d])) == EncodeGenesis(Genesis(Params, ds)) + [0x12] + Encode(|e|) + e
  {
    hide EncodeGenesis, EncodeDenom, Encode, EntryField, RenderAll, EntryFields, GenesisFields;
    var e := EncodeDenom(d);
    var a, l := RenderAll(EntryFields(ds)), Encode(|e|);
    GenesisBytes(Genesis(Params, []));
    NoEntryFields();
    GenesisBytes(Genesis(Params, ds));
    GenesisBytes(Genesis(Params, ds + [d]));
    LastEntry(ds, d);
    JoinFive([0xa, 0x0], a, [0x12], l, e);
  }

  lemma NoEntryFields()
    ensures RenderAll(EntryFields([])) == [] && forall s: Bytes :: s + [] == s
  {
  }

  lemma JoinFive(a: Bytes, b: Bytes, c: Bytes, d: Bytes, e: Bytes)
    ensures a + (b + (c + (d + e))) == a + b + c + d + e
  {
    assert b + (c + (d + e)) == b + c + d + e;
  }

  lemma {:induction false} LastEntry(ds: seq<Denom>, d: Denom)
    ensures var e := EncodeDenom(d);
      RenderAll(EntryFields(ds + [d])) == RenderAll(EntryFields(ds)) + ([0x12] + (Encode(|e|) + e))
  {
    hide EncodeDenom, Encode, Render, EntryField, RenderAll, EntryFields;
    EntryFieldsAppend(ds, d);
    RenderAppend(EntryFields(ds), [EntryField(d)]);
    RenderOne(EntryField(d));
    EntryBytes(d);
    EncodedSize(d);
  }

  lemma {:induction false} EntryFieldsAppend(ds: seq<Denom>, d: Denom)
    ensures EntryFields(ds + [d]) == EntryFields(ds) + [EntryField(d)]
    decreases |ds|
  {
    hide EntryField;
    if ds == [] {
      assert ds + [d] == [d] && [d][1..] == [];
    } else {
      assert (ds + [d])[1..] == ds[1..] + [d];
      EntryFieldsAppend(ds[1..], d);
    }
  }

  // ---------- decoding ----------

  datatype GenesisStep = GenesisStep(g: Genesis, size: nat, status: Status)

  // A nested message is decoded in place, so a failing one leaves its partial value in the list.
  function GenesisStepAt(g: Genesis, s: Bytes, at: nat): (r: GenesisStep)
    ensures r.status.Good? ==> 1 <= r.size <= |s|
  {
    var h := HeaderAt(s);
    if h.status.Bad? then GenesisStep(g, 0, h.status) else
    if h.number == 1 || h.number == 2 then
      if h.wireType != 2 then GenesisStep(g, 0, Bad(WrongWireType(h.wireType, h.number))) else
      var c := ChunkAt(s[h.size..], at + h.size);
      if c.status.Bad? then GenesisStep(g, 0, c.status)
      else if h.number == 1 then GenesisStep(g, h.size + c.size, DecodeParams(c.payload))
      else
        var r := DecodeDenom(c.payload);
        GenesisStep(g.(denomList := g.denomList + [r.m]), h.size + c.size, r.status)
    else
      var k := UnknownAt(s, at);
      GenesisStep(g, k.end, k.status)
  }

  datatype DecodedGenesis = DecodedGenesis(g: Genesis, status: Status)

  function DecodeGenesisFrom(g: Genesis, s: Bytes, at: nat): DecodedGenesis
    decreases |s|
  {
    if s == [] then DecodedGenesis(g, Good) else
    var r := GenesisStepAt(g, s, at);
    if r.status.Bad? then DecodedGenesis(r.g, r.status) else DecodeGenesisFrom(r.g, s[r.size..], at + r.size)
  }

  function MergeGenesis(g: Genesis, s: Bytes): DecodedGenesis { DecodeGenesisFrom(g, s, 0) }

  const EMPTY_GENESIS := Genesis(Params, [])

  predicate LegalInGenesis(f: Field)
  {
    var n := NumberOf(f);
    && WellFormed(f) && n > 0
    && (n == 1 ==> f.BytesField? && DecodeParams(f.payload).Good?)
    && (n == 2 ==> f.BytesField? && DecodeDenom(f.payload).status.Good?)
  }

  predicate AllLegalInGenesis(fs: seq<Field>) { forall k :: 0 <= k < |fs| ==> LegalInGenesis(fs[k]) }

  // The elements that the fields append, in their order.
  function EntriesIn(fs: seq<Field>): seq<Denom>
    requires AllLegalInGenesis(fs)
    decreases |fs|
  {
    if fs == [] then []
    else EntryIn(fs[0]) + EntriesIn(fs[1..])
  }

  function EntryIn(f: Field): seq<Denom>
    requires LegalInGenesis(f)
  {
    if NumberOf(f) == 2 then [DecodeDenom(f.payload).m] else []
  }

  function Appended(g: Genesis, ds: seq<Denom>): Genesis { g.(denomList := g.denomList + ds) }

  lemma GenesisStepComplete(g: Genesis, f: Field, rest: Bytes, at: nat)
    requires LegalInGenesis(f) && at + |Render(f)| <= MAX_INT
    ensures GenesisStepAt(g, Render(f) + rest, at) == GenesisStep(Appended(g, EntryIn(f)), |Render(f)|, Good)
  {
    hide HeaderAt, ChunkAt, UnknownAt, Render, Value, IsVarint, Number, DecodeParams, DecodeDenom;
    HeaderComplete(f, rest);
    var n := NumberOf(f);
    if n == 1 || n == 2 {
      ChunkComplete(f, rest, at + |f.tag|);
    } else {
      UnknownComplete(f, rest, at);
    }
  }

  lemma {:induction false} GenesisStepSound(g: Genesis, s: Bytes, at: nat) returns (f: Field)
    requires at + |s| <= MAX_INT && GenesisStepAt(g, s, at).status.Good?
    ensures var r := GenesisStepAt(g, s, at);
      LegalInGenesis(f) && Render(f) == s[..r.size] && r.g == Appended(g, EntryIn(f))
  {
    hide HeaderAt, ChunkAt, UnknownAt, Value, IsVarint, Number, DecodeParams, DecodeDenom;
    var h, n := HeaderAt(s), GenesisStepAt(g, s, at).size;
    var tag := HeaderSound(s);
    if h.number == 1 || h.number == 2 {
      f := ChunkSound(s[h.size..], at + h.size, tag);
      SliceSplit(s, h.size, n);
    } else {
      f := UnknownSound(s, at, tag);
    }
    assert NumberOf(f) == h.number;
  }

  lemma {:induction false} AppendEntries(g: Genesis, fs: seq<Field>)
    requires AllLegalInGenesis(fs)
    ensures fs == [] ==> Appended(g, EntriesIn(fs)) == g
    ensures fs != [] ==> Appended(Appended(g, EntryIn(fs[0])), EntriesIn(fs[1..])) == Appended(g, EntriesIn(fs))
  {
    hide LegalInGenesis, EntryIn;
    if fs == [] {
      assert g.denomList + [] == g.denomList;
    } else {
      AppendTwice(g, EntryIn(fs[0]), EntriesIn(fs[1..]));
    }
  }

  lemma AppendTwice(g: Genesis, a: seq<Denom>, b: seq<Denom>)
    ensures Appended(Appended(g, a), b) == Appended(g, a + b)
  {
    assert g.denomList + a + b == g.denomList + (a + b);
  }

  lemma {:induction false} DecodeGenesisFront(g: Genesis, fs: seq<Field>, rest: Bytes, at: nat)
    requires AllLegalInGenesis(fs) && at + |RenderAll(fs)| <= MAX_INT
    ensures DecodeGenesisFrom(g, RenderAll(fs) + rest, at)
         == DecodeGenesisFrom(Appended(g, EntriesIn(fs)), rest, at + |RenderAll(fs)|)
    decreases |fs|
  {
    hide GenesisStepAt, Render, LegalInGenesis, EntryIn, EntriesIn, Appended;
    AppendEntries(g, fs);
    if fs == [] {
      assert RenderAll(fs) + rest == rest;
    } else {
      var f, tail := fs[0], RenderAll(fs[1..]) + rest;
      assert RenderAll(fs) + rest == Render(f) + tail;
      GenesisStepComplete(g, f, tail, at);
      Prefix(Render(f), tail);
      DecodeGenesisFront(Appended(g, EntryIn(f)), fs[1..], rest, at + |Render(f)|);
    }
  }

  lemma {:induction false} DecodeGenesisFields(g: Genesis, fs: seq<Field>, at: nat)
    requires AllLegalInGenesis(fs) && at + |RenderAll(fs)| <= MAX_INT
    ensures DecodeGenesisFrom(g, RenderAll(fs), at) == DecodedGenesis(Appended(g, EntriesIn(fs)), Good)
  {
    hide GenesisStepAt, LegalInGenesis, RenderAll, EntriesIn, Appended;
    DecodeGenesisFront(g, fs, [], at);
    assert RenderAll(fs) + [] == RenderAll(fs);
  }

  lemma {:induction false} GenesisFieldsIn(g: Genesis, s: Bytes, at: nat) returns (fs: seq<Field>)
    requires at + |s| <= MAX_INT && DecodeGenesisFrom(g, s, at).status.Good?
    ensures AllLegalInGenesis(fs) && RenderAll(fs) == s
    decreases |s|
  {
    hide GenesisStepAt, LegalInGenesis, EntryIn, Appended, Render;
    if s == [] {
      fs := [];
    } else {
      var r := GenesisStepAt(g, s, at);
      var f := GenesisStepSound(g, s, at);
      var tail := GenesisFieldsIn(r.g, s[r.size..], at + r.size);
      fs := [f] + tail;
      assert fs[1..] == tail;
      assert s == s[..r.size] + s[r.size..];
    }
  }

  // A rejected input: the legal fields in front of the failing turn, and what is left at that turn.
  lemma {:induction false} GenesisStops(g: Genesis, s: Bytes, at: nat) returns (fs: seq<Field>, rest: Bytes)
    requires at + |s| <= MAX_INT && DecodeGenesisFrom(g, s, at).status.Bad?
    ensures AllLegalInGenesis(fs) && s == RenderAll(fs) + rest && rest != []
    ensures var r := GenesisStepAt(Appended(g, EntriesIn(fs)), rest, at + |RenderAll(fs)|);
      r.status.Bad? && DecodeGenesisFrom(g, s, at) == DecodedGenesis(r.g, r.status)
    decreases |s|
  {
    hide GenesisStepAt, LegalInGenesis, EntryIn, EntriesIn, Appended, Render;
    var r := GenesisStepAt(g, s, at);
    if r.status.Bad? {
      fs, rest := [], s;
      AppendEntries(g, fs);
    } else {
      var f := GenesisStepSound(g, s, at);
      var tail;
      tail, rest := GenesisStops(r.g, s[r.size..], at + r.size);
      fs := [f] + tail;
      assert fs[1..] == tail;
      AppendEntries(g, fs);
      assert s == s[..r.size] + s[r.size..];
      assert RenderAll(fs) + rest == Render(f) + (RenderAll(tail) + rest);
    }
  }

  /** The genesis decoder accepts exactly the sequences of legal fields, and appends one element for
      each field 2, in the order of the input; params fields and unknown fields change nothing. */
  lemma {:induction false} GenesisLanguage(g: Genesis, s: Bytes, g': Genesis)
    requires |s| <= MAX_INT
    ensures MergeGenesis(g, s) == DecodedGenesis(g', Good)
       <==> exists fs :: AllLegalInGenesis(fs) && RenderAll(fs) == s && g' == Appended(g, EntriesIn(fs))
  {
    hide DecodeGenesisFrom, RenderAll, LegalInGenesis, EntriesIn;
    if MergeGenesis(g, s) == DecodedGenesis(g', Good) {
      var fs := GenesisFieldsIn(g, s, 0);
      DecodeGenesisFields(g, fs, 0);
    }
    if fs :| AllLegalInGenesis(fs) && RenderAll(fs) == s && g' == Appended(g, EntriesIn(fs)) {
      DecodeGenesisFields(g, fs, 0);
    }
  }

  lemma {:induction false} EntryFieldsExact(ds: seq<Denom>)
    requires forall k :: 0 <= k < |ds| ==> Fits(ds[k])
    ensures AllLegalInGenesis(EntryFields(ds)) && EntriesIn(EntryFields(ds)) == ds
  {
    hide EntryField, NumberOf, DecodeDenom, WellFormed, SizeOf;
    if ds != [] {
      var f := EntryField(ds[0]);
      EntryFieldsExact(ds[1..]);
      EntryIsLegal(ds[0]);
      var fs := EntryFields(ds);
      assert fs[0] == f && fs[1..] == EntryFields(ds[1..]);
      assert forall k :: 1 <= k < |fs| ==> fs[k] == fs[1..][k - 1];
    }
  }

  lemma {:induction false} EntryIsLegal(d: Denom)
    requires Fits(d)
    ensures var f := EntryField(d);
      LegalInGenesis(f) && NumberOf(f) == 2 && f.BytesField? && DecodeDenom(f.payload) == Decoded(d, Good)
  {
    hide NumberOf, DecodeDenom, WellFormed, SizeOf, EncodeDenom;
    EntryBytes(d);
    RoundTripDenom(d);
  }

  lemma {:induction false} EntriesFit(ds: seq<Denom>)
    requires SizeEntries(ds) <= MAX_INT
    ensures forall k :: 0 <= k < |ds| ==> Fits(ds[k])
  {
    hide SizeOf, Sov;
    if ds != [] {
      EntriesFit(ds[1..]);
      assert forall k :: 1 <= k < |ds| ==> ds[k] == ds[1..][k - 1];
    }
  }

  /** Genesis round trip: the same list comes back, in the same order and multiplicity. */
  lemma {:induction false} RoundTripGenesis(g: Genesis)
    requires SizeOfGenesis(g) <= MAX_INT
    ensures MergeGenesis(EMPTY_GENESIS, EncodeGenesis(g)) == DecodedGenesis(g, Good)
  {
    hide DecodeGenesisFrom, EntryFields, SizeEntries, NumberOf, WellFormed, RenderAll;
    var fs := GenesisFields(g);
    GenesisBytes(g);
    EntriesFit(g.denomList);
    EntryFieldsExact(g.denomList);
    assert fs[1..] == EntryFields(g.denomList);
    assert LegalInGenesis(fs[0]);
    assert forall k :: 1 <= k < |fs| ==> fs[k] == fs[1..][k - 1];
    DecodeGenesisFields(EMPTY_GENESIS, fs, 0);
    assert EntriesIn(fs) == EntryIn(fs[0]) + EntriesIn(fs[1..]) == [] + g.denomList;
  }
}
