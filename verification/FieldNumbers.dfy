/** What a complete field does to each of the three messages, told by the number in its tag:
    q == tag value modulo 2^64, shifted right by 3, modulo 2^32.  The source keeps q as an int32. */
module FieldNumbers {
  import opened Words
  import opened Varint
  import opened Wire
  import opened DenomCodec
  import opened GenesisCodec

  // ---------- Denom ----------

  // Behind an accepted input, decoding goes on with what it left.
  lemma {:induction false} Behind(m: Denom, a: Bytes, rest: Bytes)
    requires |a| <= MAX_INT && Merge(m, a).status.Good?
    ensures Merge(m, a + rest) == DecodeFrom(Merge(m, a).m, rest, |a|)
  {
    hide DecodeFrom, AllLegal, RenderAll, ApplyAll;
    var fs := FieldsIn(m, a, 0);
    DecodeFields(m, fs, rest, 0);
  }

  // The number that the tag check sees, in terms of q.
  lemma SignedNumber(wire: uint64)
    ensures var q := wire / 8 % TWO32; Number(wire) == if q < TWO31 then q else q - TWO32
  {
  }

  /** A field of unknown number 10 <= q < 2^31 changes neither acceptance nor result, wherever it stands
      between accepted inputs. */
  lemma {:induction false} UnknownIgnored(m: Denom, a: Bytes, u: Field, b: Bytes)
    requires WellFormed(u) && 10 <= Value(u.tag) % TWO64 / 8 % TWO32 < TWO31
    requires |a| + |Render(u)| + |b| <= MAX_INT && Merge(m, a).status.Good?
    ensures Merge(m, a + Render(u) + b).status.Good? <==> Merge(m, a + b).status.Good?
    ensures Merge(m, a + b).status.Good? ==> Merge(m, a + Render(u) + b) == Merge(m, a + b)
  {
    hide Render, DecodeFrom, WellFormed, Value, Number;
    var m1 := Merge(m, a).m;
    var us := [u];
    SignedNumber(Value(u.tag) % TWO64);
    RenderOne(u);
    assert ApplyAll(m1, us) == m1 by { assert us[1..] == []; }
    DecodeAll(m1, us, 0);
    DecodeConcat(m, a, Render(u));
    DecodeConcat(m, a + Render(u), b);
    DecodeConcat(m, a, b);
  }

  /** A field of number 1 <= q <= 9 with the right wire type sets exactly the field of that number; with
      another wire type it is rejected, whatever follows. */
  lemma {:induction false} KnownSets(m: Denom, a: Bytes, u: Field, b: Bytes)
    requires WellFormed(u) && |a| + |Render(u)| <= MAX_INT && Merge(m, a).status.Good?
    ensures var q, m1, r := Value(u.tag) % TWO64 / 8 % TWO32, Merge(m, a).m, Merge(m, a + Render(u));
      && (u.BytesField? ==>
            && (q == 1 ==> r == Decoded(m1.(denom := u.payload), Good))
            && (q == 2 ==> r == Decoded(m1.(description := u.payload), Good))
            && (q == 3 ==> r == Decoded(m1.(ticker := u.payload), Good))
            && (q == 5 ==> r == Decoded(m1.(url := u.payload), Good))
            && (q == 9 ==> r == Decoded(m1.(owner := u.payload), Good)))
      && (u.VarintField? ==>
            var low := Value(u.number) % TWO32;
            var v := if low < TWO31 then low else low - TWO32;
            && (q == 4 ==> r == Decoded(m1.(precision := v), Good))
            && (q == 6 ==> r == Decoded(m1.(maxSupply := v), Good))
            && (q == 7 ==> r == Decoded(m1.(supply := v), Good))
            && (q == 8 ==> r == Decoded(m1.(canChangeMaxSupply := Value(u.number) % TWO64 != 0), Good)))
    ensures var q, m1 := Value(u.tag) % TWO64 / 8 % TWO32, Merge(m, a).m;
      ((q == 1 || q == 2 || q == 3 || q == 5 || q == 9) && !u.BytesField?)
        || ((q == 4 || q == 6 || q == 7 || q == 8) && !u.VarintField?) ==>
      Merge(m, a + Render(u) + b) == Decoded(m1, Bad(WrongWireType(Value(u.tag) % 8, q)))
  {
    hide Render, DecodeFrom, Value, Number, HeaderAt, ReadFrom, IsVarint, Merge;
    var q, m1 := Value(u.tag) % TWO64 / 8 % TWO32, Merge(m, a).m;
    SignedNumber(Value(u.tag) % TWO64);
    if 1 <= q <= 9 {
      if Legal(u) {
        Alone(m1, u, |a|);
        Behind(m, a, Render(u));
      } else {
        HeaderComplete(u, b);
        NonEmpty(u, b);
        FirstFails(m1, Render(u) + b, |a|);
        Behind(m, a, Render(u) + b);
        assert a + Render(u) + b == a + (Render(u) + b);
      }
    }
  }

  lemma {:induction false} Alone(m: Denom, u: Field, at: nat)
    requires Legal(u) && at + |Render(u)| <= MAX_INT
    ensures DecodeFrom(m, Render(u), at) == Decoded(Apply(m, u), Good)
  {
    hide Legal, Apply, Render, DecodeFrom;
    RenderOne(u);
    assert ApplyAll(m, [u]) == Apply(m, u) by { assert [u][1..] == []; }
    DecodeAll(m, [u], at);
  }

  lemma {:induction false} NonEmpty(u: Field, b: Bytes)
    requires WellFormed(u)
    ensures Render(u) + b != []
  {
    hide Value;
    assert Render(u) == u.tag + Rest(u);
    assert IsTag(u.tag, KindOf(u));
  }

  // An input whose first field fails: the receiver and the error are those of that field.
  lemma {:induction false} FirstFails(m: Denom, s: Bytes, at: nat)
    requires s != [] && StepAt(m, s, at).status.Bad?
    ensures DecodeFrom(m, s, at) == Decoded(StepAt(m, s, at).m, StepAt(m, s, at).status)
  {
    hide StepAt;
  }

  /** A field of number q == 0, or of one that is not positive as an int32, is rejected at the place where it
      stands, with the signed number in the error. */
  lemma {:induction false} IllegalRejected(m: Denom, a: Bytes, u: Field, b: Bytes)
    requires WellFormed(u) && |a| <= MAX_INT && Merge(m, a).status.Good?
    requires var q := Value(u.tag) % TWO64 / 8 % TWO32; q == 0 || q >= TWO31
    ensures var q := Value(u.tag) % TWO64 / 8 % TWO32;
      Merge(m, a + Render(u) + b)
        == Decoded(Merge(m, a).m, Bad(IllegalTag(if q == 0 then 0 else q - TWO32, Value(u.tag) % TWO64)))
  {
    hide Render, DecodeFrom, Value, Number, HeaderAt, Merge;
    SignedNumber(Value(u.tag) % TWO64);
    HeaderIllegal(u, b);
    NonEmpty(u, b);
    FirstFails(Merge(m, a).m, Render(u) + b, |a|);
    Behind(m, a, Render(u) + b);
    assert a + Render(u) + b == a + (Render(u) + b);
  }

  lemma {:induction false} HeaderIllegal(u: Field, b: Bytes)
    requires WellFormed(u) && NumberOf(u) <= 0
    ensures HeaderAt(Render(u) + b).status == Bad(IllegalTag(NumberOf(u), Value(u.tag) % TWO64))
  {
    hide ReadFrom, Value, Number, IsVarint, Render, Rest;
    assert IsTag(u.tag, KindOf(u));
    assert Render(u) + b == u.tag + (Rest(u) + b);
    ReadTag(u.tag, Rest(u) + b);
    WireTypeOf(Value(u.tag));
  }

  // ---------- Params ----------

  lemma {:induction false} ParamsBehind(a: Bytes, rest: Bytes)
    requires |a| <= MAX_INT && DecodeParams(a).Good?
    ensures DecodeParams(a + rest) == DecodeParamsFrom(rest, |a|)
  {
    hide DecodeParamsFrom, AllLegalInParams, RenderAll;
    var fs := ParamsFieldsIn(a, 0);
    ParamsFields(fs, rest, 0);
  }

  lemma {:induction false} ParamsRelocate(s: Bytes, at: nat)
    requires at + |s| <= MAX_INT
    ensures DecodeParamsFrom(s, at).Good? <==> DecodeParams(s).Good?
  {
    hide DecodeParamsFrom, AllLegalInParams, RenderAll;
    if DecodeParamsFrom(s, at).Good? {
      var fs := ParamsFieldsIn(s, at);
      ParamsAll(fs, 0);
    }
    if DecodeParams(s).Good? {
      var fs := ParamsFieldsIn(s, 0);
      ParamsAll(fs, at);
    }
  }

  /** Params takes a field exactly if 1 <= q < 2^31, and it then changes nothing about what follows. */
  lemma {:induction false} ParamsByNumber(a: Bytes, u: Field, b: Bytes)
    requires WellFormed(u) && |a| + |Render(u)| + |b| <= MAX_INT && DecodeParams(a).Good?
    ensures var q := Value(u.tag) % TWO64 / 8 % TWO32;
      if 1 <= q < TWO31 then DecodeParams(a + Render(u) + b).Good? <==> DecodeParams(a + b).Good?
      else DecodeParams(a + Render(u) + b)
             == Bad(IllegalTag(if q == 0 then 0 else q - TWO32, Value(u.tag) % TWO64))
  {
    hide Render, DecodeParamsFrom, Value, Number, HeaderAt, WellFormed;
    var q := Value(u.tag) % TWO64 / 8 % TWO32;
    SignedNumber(Value(u.tag) % TWO64);
    var tail := Render(u) + b;
    assert a + Render(u) + b == a + tail;
    ParamsBehind(a, tail);
    ParamsBehind(a, b);
    if 1 <= q < TWO31 {
      assert LegalInParams(u) && AllLegalInParams([u]);
      RenderOne(u);
      ParamsFields([u], b, |a|);
      ParamsRelocate(b, |a|);
      ParamsRelocate(b, |a| + |Render(u)|);
    } else {
      HeaderIllegal(u, b);
      NonEmpty(u, b);
      ParamsFirstFails(tail, |a|);
    }
  }

  lemma {:induction false} ParamsFirstFails(s: Bytes, at: nat)
    requires s != [] && HeaderAt(s).status.Bad?
    ensures DecodeParamsFrom(s, at) == HeaderAt(s).status
  {
    hide HeaderAt;
  }

  // ---------- GenesisState ----------

  lemma {:induction false} GenesisBehind(g: Genesis, a: Bytes, rest: Bytes)
    requires |a| <= MAX_INT && MergeGenesis(g, a).status.Good?
    ensures MergeGenesis(g, a + rest) == DecodeGenesisFrom(MergeGenesis(g, a).g, rest, |a|)
  {
    hide DecodeGenesisFrom, AllLegalInGenesis, RenderAll, EntriesIn, Appended;
    var fs := GenesisFieldsIn(g, a, 0);
    DecodeGenesisFields(g, fs, 0);
    DecodeGenesisFront(g, fs, rest, 0);
  }

  /** Genesis: a field q == 2 appends the decoded payload to the list; q == 1 with acceptable params and any
      3 <= q < 2^31 change nothing; other numbers, other wire types and bad payloads are rejected there. */
  lemma {:induction false} GenesisByNumber(g: Genesis, a: Bytes, u: Field, b: Bytes)
    requires WellFormed(u) && |a| + |Render(u)| <= MAX_INT && MergeGenesis(g, a).status.Good?
    ensures var q, g1 := Value(u.tag) % TWO64 / 8 % TWO32, MergeGenesis(g, a).g;
      var r := MergeGenesis(g, a + Render(u));
      && (q == 1 && u.BytesField? && DecodeParams(u.payload).Good? ==> r == DecodedGenesis(g1, Good))
      && (q == 2 && u.BytesField? && DecodeDenom(u.payload).status.Good? ==>
            r == DecodedGenesis(Genesis(g1.params, g1.denomList + [DecodeDenom(u.payload).m]), Good))
      && (3 <= q < TWO31 ==> r == DecodedGenesis(g1, Good))
    ensures var q, g1 := Value(u.tag) % TWO64 / 8 % TWO32, MergeGenesis(g, a).g;
      var r := MergeGenesis(g, a + Render(u) + b);
      && (q == 1 && u.BytesField? && DecodeParams(u.payload).Bad? ==>
            r == DecodedGenesis(g1, DecodeParams(u.payload)))
      && (q == 2 && u.BytesField? && DecodeDenom(u.payload).status.Bad? ==>
            r == DecodedGenesis(Genesis(g1.params, g1.denomList + [DecodeDenom(u.payload).m]),
                                DecodeDenom(u.payload).status))
      && (1 <= q <= 2 && !u.BytesField? ==> r == DecodedGenesis(g1, Bad(WrongWireType(Value(u.tag) % 8, q))))
      && (q == 0 || q >= TWO31 ==>
            r == DecodedGenesis(g1, Bad(IllegalTag(if q == 0 then 0 else q - TWO32, Value(u.tag) % TWO64))))
  {
    hide Render, Rest, DecodeGenesisFrom, Value, Number, HeaderAt, ReadFrom, IsVarint, MergeGenesis, ChunkAt;
    hide DecodeParams, DecodeDenom;
    var q, g1 := Value(u.tag) % TWO64 / 8 % TWO32, MergeGenesis(g, a).g;
    SignedNumber(Value(u.tag) % TWO64);
    if LegalInGenesis(u) {
      GenesisAlone(g1, u, |a|);
      GenesisBehind(g, a, Render(u));
    } else {
      if 1 <= q < TWO31 { HeaderComplete(u, b); } else { HeaderIllegal(u, b); }
      if u.BytesField? { ChunkComplete(u, b, |a| + |u.tag|); }
      NonEmpty(u, b);
      GenesisFirstFails(g1, Render(u) + b, |a|);
      GenesisBehind(g, a, Render(u) + b);
      assert a + Render(u) + b == a + (Render(u) + b);
    }
  }

  lemma {:induction false} GenesisAlone(g: Genesis, u: Field, at: nat)
    requires LegalInGenesis(u) && at + |Render(u)| <= MAX_INT
    ensures DecodeGenesisFrom(g, Render(u), at) == DecodedGenesis(Appended(g, EntryIn(u)), Good)
  {
    hide LegalInGenesis, EntryIn, Render, DecodeGenesisFrom, Appended;
    RenderOne(u);
    assert EntriesIn([u]) == EntryIn(u) by {
      assert [u][1..] == [];
      assert EntryIn(u) + [] == EntryIn(u);
    }
    DecodeGenesisFields(g, [u], at);
  }

  lemma {:induction false} GenesisFirstFails(g: Genesis, s: Bytes, at: nat)
    requires s != [] && GenesisStepAt(g, s, at).status.Bad?
    ensures DecodeGenesisFrom(g, s, at) == DecodedGenesis(GenesisStepAt(g, s, at).g, GenesisStepAt(g, s, at).status)
  {
    hide GenesisStepAt;
  }
}
