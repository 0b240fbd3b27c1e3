/** The keeper, its message handlers, and genesis import, export and validation. */
module Keeper {
  import opened Words
  import opened Varint
  import opened DenomCodec
  import opened DenomMessage
  import opened GenesisCodec
  import opened GenesisMessage
  import opened ByteStore
  import opened KeeperSpec
  import opened ImportExport
  import opened Runs

  // MustUnmarshal panics on a value that does not decode; these say that it does.
  predicate ReadableAt(kv: KV, name: Bytes) { Key(name) in kv ==> Readable(kv[Key(name)]) }

  predicate AllReadable(kv: KV) { forall k :: k in kv && Below(DENOM_KEY_PREFIX, k) ==> Readable(kv[k]) }

  predicate ParamsReadable(kv: KV)
  {
    PARAMS_KEY in kv ==> |kv[PARAMS_KEY]| <= MAX_INT && DecodeParams(kv[PARAMS_KEY]).Good?
  }

  // k.cdc.MustUnmarshal(b, &val) for a fresh val
  method Unmarshalled(b: Bytes) returns (val: Denom)
    requires Readable(b)
    ensures val == RecordIn(b)
  {
    hide DecodeFrom;
    var m := new DenomMessage(EMPTY);
    var status := m.Unmarshal(b);
    assert status.Good?;
    val := m.Contents();
  }

  class Keeper {
    var store: KV

    constructor ()
      ensures store == map[]
    {
      store := map[];
    }

    method SetDenom(denom: Denom)
      requires Fits(denom)
      modifies this
      ensures store == Put(old(store), denom)
    {
      hide EncodeDenom, SizeOf, Key;
      var m := new DenomMessage(denom);
      var b := m.Marshal();
      store := store[Key(denom.denom) := b[..]];
    }

    method GetDenom(name: Bytes) returns (val: Denom, found: bool)
      requires ReadableAt(store, name)
      ensures (if found then Some(val) else None) == Find(store, name)
      ensures !found ==> val == EMPTY
    {
      hide DecodeFrom, Key;
      val, found := EMPTY, false;
      if Key(name) in store {
        val := Unmarshalled(store[Key(name)]);
        found := true;
      }
    }

    method RemoveDenom(name: Bytes)
      modifies this
      ensures store == Drop(old(store), name)
    {
      store := store - {Key(name)};
    }

    method GetAllDenom() returns (list: seq<Denom>)
      requires AllReadable(store)
      ensures list == AllRecords(store)
      ensures Valid(store) ==> Ordered(list) && forall d :: d in list <==> Find(store, d.denom) == Some(d)
    {
      hide DecodeFrom, EncodeDenom, SizeOf, KeysBelow, RecordsAt, Readable;
      var keys := KeysBelow(store, DENOM_KEY_PREFIX);
      ghost var all := RecordsAt(store, keys);
      list := [];
      for i := 0 to |keys|
        invariant list == all[..i]
      {
        assert keys[i] in keys;
        var val := Unmarshalled(store[keys[i]]);
        list := list + [val];
      }
      assert all[..|keys|] == all;
      if Valid(store) { AllRecordsFound(store); }
    }

    method GetParams() returns (params: Params)
      requires ParamsReadable(store)
    {
      params := Params;
      if PARAMS_KEY in store {
        var status := UnmarshalParams(store[PARAMS_KEY]);
        assert status.Good?;
      }
    }

    method SetParams(params: Params)
      modifies this
      ensures store == PutParams(old(store))
    {
      store := store[PARAMS_KEY := []];
    }

    /** CreateDenom keeps the store valid and does what the rule for it says, on bytes and on the table. */
    method CreateDenom(msg: Msg) returns (outcome: Outcome)
      requires msg.MsgCreateDenom? && ReadableAt(store, msg.denom)
      modifies this
      ensures Stepped(store, outcome) == Handle(old(store), msg)
      ensures old(Valid(store)) ==>
        Valid(store) && Stepped(Abs(store), outcome) == TableStep(Abs(old(store)), msg)
      ensures outcome == Done && old(Valid(store)) ==>
        && Find(store, msg.denom).Some?
        && var d := Find(store, msg.denom).value;
           && d.denom == msg.denom && d.description == msg.description && d.ticker == msg.ticker
           && d.precision == msg.precision && d.url == msg.url && d.maxSupply == msg.maxSupply
           && d.supply == msg.supply && d.canChangeMaxSupply == msg.canChangeMaxSupply && d.owner == msg.owner
    {
      hide Valid, Abs, Put, Drop, SizeOf;
      if Valid(store) { StepRefines(store, msg); HandlerRules(store, msg); }
      var _, isFound := GetDenom(msg.denom);
      if isFound {
        return IndexAlreadySet;
      }
      SetDenom(Denom(msg.denom, msg.description, msg.ticker, msg.precision, msg.url,
                     msg.maxSupply, msg.supply, msg.canChangeMaxSupply, msg.owner));
      outcome := Done;
    }

    method UpdateDenom(msg: Msg) returns (outcome: Outcome)
      requires msg.MsgUpdateDenom? && ReadableAt(store, msg.denom)
      modifies this
      ensures Stepped(store, outcome) == Handle(old(store), msg)
      ensures old(Valid(store)) ==>
        Valid(store) && Stepped(Abs(store), outcome) == TableStep(Abs(old(store)), msg)
      ensures outcome == Done && old(Valid(store)) ==>
        && Find(store, msg.denom).Some?
        && var d := Find(store, msg.denom).value;
           && d.denom == msg.denom && d.description == msg.description && d.ticker == msg.ticker
           && d.precision == msg.precision && d.url == msg.url && d.maxSupply == msg.maxSupply
           && d.supply == msg.supply && d.canChangeMaxSupply == msg.canChangeMaxSupply && d.owner == msg.owner
    {
      hide Valid, Abs, Put, Drop, SizeOf;
      if Valid(store) { StepRefines(store, msg); HandlerRules(store, msg); }
      var valFound, isFound := GetDenom(msg.denom);
      if !isFound {
        return IndexNotSet;
      }
      if msg.owner != valFound.owner {
        return IncorrectOwner;
      }
      SetDenom(Denom(msg.denom, msg.description, msg.ticker, msg.precision, msg.url,
                     msg.maxSupply, msg.supply, msg.canChangeMaxSupply, msg.owner));
      outcome := Done;
    }

    method DeleteDenom(msg: Msg) returns (outcome: Outcome)
      requires msg.MsgDeleteDenom? && ReadableAt(store, msg.denom)
      modifies this
      ensures Stepped(store, outcome) == Handle(old(store), msg)
      ensures old(Valid(store)) ==>
        Valid(store) && Stepped(Abs(store), outcome) == TableStep(Abs(old(store)), msg)
    {
      hide Valid, Abs, Put, Drop, SizeOf;
      if Valid(store) { StepRefines(store, msg); }
      var valFound, isFound := GetDenom(msg.denom);
      if !isFound {
        return IndexNotSet;
      }
      if msg.owner != valFound.owner {
        return IncorrectOwner;
      }
      RemoveDenom(msg.denom);
      outcome := Done;
    }

    method InitGenesis(genState: Genesis)
      requires AllFit(genState.denomList)
      modifies this
      ensures store == Import(old(store), genState)
    {
      hide Put, SizeOf;
      var list := genState.denomList;
      assert list[0..] == list;
      for i := 0 to |list|
        invariant PutAll(store, list[i..]) == PutAll(old(store), list)
      {
        assert list[i] in list && list[i..][0] == list[i] && list[i..][1..] == list[i + 1..];
        SetDenom(list[i]);
      }
      SetParams(genState.params);
    }

    method ExportGenesis() returns (genesis: Genesis)
      requires AllReadable(store) && ParamsReadable(store)
      ensures genesis == Export(store)
      ensures Valid(store) ==> Ordered(genesis.denomList)
    {
      hide AllRecords, AllReadable, ParamsReadable, Valid, Ordered;
      genesis := Genesis(Params, []);
      var params := GetParams();
      genesis := genesis.(params := params);
      var list := GetAllDenom();
      genesis := genesis.(denomList := list);
    }
  }

  /** On a valid store no keeper operation panics: every stored value decodes. */
  lemma ValidIsReadable(kv: KV, name: Bytes)
    requires Valid(kv)
    ensures ReadableAt(kv, name) && AllReadable(kv) && ParamsReadable(kv)
  {
    hide DecodeDenom, EncodeDenom, SizeOf, Key;
    KeyExact(name, PARAMS_KEY);
    assert PARAMS_KEY[0] != DENOM_KEY_PREFIX[0];
    if PARAMS_KEY in kv { assert kv[PARAMS_KEY] == []; }
  }

  /** Validate accepts a genesis if and only if the names in its list are pairwise distinct. */
  method Validate(gs: Genesis) returns (ok: bool)
    ensures ok <==> forall i, j :: 0 <= i < j < |gs.denomList| ==> gs.denomList[i].denom != gs.denomList[j].denom
  {
    var list := gs.denomList;
    var denomIndexMap: set<Bytes> := {};
    for i := 0 to |list|
      invariant Distinct(list[..i])
      invariant denomIndexMap == set k | 0 <= k < i :: DenomKey(list[k].denom)
    {
      var index := DenomKey(list[i].denom);
      if index in denomIndexMap {
        var k :| 0 <= k < i && DenomKey(list[k].denom) == index;
        SameKey(list[k].denom, list[i].denom);
        return false;
      }
      denomIndexMap := denomIndexMap + {index};
      assert forall k :: 0 <= k < i ==> DenomKey(list[k].denom) in denomIndexMap;
    }
    assert list[..|list|] == list;
    // Params.Validate accepts everything.
    ok := true;
  }

  lemma SameKey(a: Bytes, b: Bytes)
    ensures DenomKey(a) == DenomKey(b) <==> a == b
  {
    if DenomKey(a) == DenomKey(b) {
      assert a == DenomKey(a)[..|a|] && b == DenomKey(b)[..|b|];
    }
  }
}
