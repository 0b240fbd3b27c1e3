/** What the keeper's operations do to the byte store, and the plain map from names to
    denoms that the byte store stands for. */
module KeeperSpec {
  import opened Words
  import opened Varint
  import opened DenomCodec
  import opened GenesisCodec
  import opened ByteStore

  datatype Option<T> = None | Some(value: T)

  // ---------- keys ----------

  // "Denom/value/" and "p_tokenfactory"
  const DENOM_KEY_PREFIX: Bytes := [68, 101, 110, 111, 109, 47, 118, 97, 108, 117, 101, 47]
  const PARAMS_KEY: Bytes := [112, 95, 116, 111, 107, 101, 110, 102, 97, 99, 116, 111, 114, 121]
  const SLASH: byte := 47

  function DenomKey(name: Bytes): Bytes { name + [SLASH] }

  // The key in the module's store, where the prefix store puts its prefix in front.
  function Key(name: Bytes): Bytes { DENOM_KEY_PREFIX + DenomKey(name) }

  predicate IsRecordKey(k: Bytes)
  {
    DENOM_KEY_PREFIX <= k && |k| > |DENOM_KEY_PREFIX| && k[|k| - 1] == SLASH
  }

  function NameIn(k: Bytes): Bytes
    requires IsRecordKey(k)
  {
    k[|DENOM_KEY_PREFIX|..|k| - 1]
  }

  /** The key layout is a bijection between names and record keys, and params lie outside it. */
  lemma KeyExact(name: Bytes, k: Bytes)
    ensures IsRecordKey(Key(name)) && NameIn(Key(name)) == name
    ensures IsRecordKey(k) ==> Key(NameIn(k)) == k
    ensures !(DENOM_KEY_PREFIX <= PARAMS_KEY)
  {
    assert Key(name) == DENOM_KEY_PREFIX + name + [SLASH];
    if IsRecordKey(k) {
      assert k == k[..|DENOM_KEY_PREFIX|] + (k[|DENOM_KEY_PREFIX|..|k| - 1] + [k[|k| - 1]]);
    }
    assert PARAMS_KEY[0] != DENOM_KEY_PREFIX[0];
  }

  /** The keys byte by byte: the prefix is the text "Denom/value/", a record's key is the prefix, the name
      and a slash, and the params key is the text "p_tokenfactory". */
  lemma KeyLayout(name: Bytes)
    ensures Key(name) == DENOM_KEY_PREFIX + name + ['/' as int]
    ensures |DENOM_KEY_PREFIX| == |"Denom/value/"|
         && forall i :: 0 <= i < |DENOM_KEY_PREFIX| ==> DENOM_KEY_PREFIX[i] == "Denom/value/"[i] as int
    ensures |PARAMS_KEY| == |"p_tokenfactory"|
         && forall i :: 0 <= i < |PARAMS_KEY| ==> PARAMS_KEY[i] == "p_tokenfactory"[i] as int
  {
    assert DENOM_KEY_PREFIX + (name + [SLASH]) == DENOM_KEY_PREFIX + name + [SLASH];
  }

  // ---------- the byte store and what it stands for ----------

  predicate Readable(v: Bytes) { |v| <= MAX_INT && DecodeDenom(v).status.Good? }

  function RecordIn(v: Bytes): Denom { DecodeDenom(v).m }

  // v is what SetDenom would store under this name.
  predicate IsRecordOf(name: Bytes, v: Bytes)
  {
    Readable(v) && RecordIn(v).denom == name && v == EncodeDenom(RecordIn(v))
  }

  predicate Valid(kv: KV)
  {
    forall k :: k in kv ==> (k == PARAMS_KEY && kv[k] == []) || (IsRecordKey(k) && IsRecordOf(NameIn(k), kv[k]))
  }

  // The abstract state: names to denoms.
  type Table = map<Bytes, Denom>

  function Names(kv: KV): set<Bytes> { set k | k in kv && IsRecordKey(k) :: NameIn(k) }

  function Abs(kv: KV): Table
    requires Valid(kv)
  {
    map name | name in Names(kv) :: Find(kv, name).value
  }

  function Find(kv: KV, name: Bytes): (r: Option<Denom>)
    ensures r.Some? <==> Key(name) in kv
    ensures name in Names(kv) <==> r.Some?
  {
    KeyExact(name, Key(name));
    assert forall k :: k in kv && IsRecordKey(k) && NameIn(k) == name ==> k == Key(name) by {
      forall k | k in kv && IsRecordKey(k) && NameIn(k) == name ensures k == Key(name) { KeyExact(name, k); }
    }
    if Key(name) in kv then Some(RecordIn(kv[Key(name)])) else None
  }

  lemma {:induction false} AbsExact(kv: KV, name: Bytes)
    requires Valid(kv)
    ensures name in Abs(kv) <==> Key(name) in kv
    ensures Key(name) in kv ==>
      var d := Abs(kv)[name];
      Find(kv, name) == Some(d) && d.denom == name && Fits(d) && kv[Key(name)] == EncodeDenom(d)
  {
    hide DecodeDenom, EncodeDenom, SizeOf;
    KeyExact(name, Key(name));
    if Key(name) in kv { EncodedSize(RecordIn(kv[Key(name)])); }
    var r := Find(kv, name);
  }

  /** Apart from the params entry, a valid store is determined by the table it stands for. */
  lemma {:induction false} AbsInjective(a: KV, b: KV)
    requires Valid(a) && Valid(b) && Abs(a) == Abs(b) && (PARAMS_KEY in a <==> PARAMS_KEY in b)
    ensures a == b
  {
    hide DecodeDenom, EncodeDenom, SizeOf, Abs;
    forall k ensures k in a <==> k in b {
      if IsRecordKey(k) { KeyExact([], k); AbsExact(a, NameIn(k)); AbsExact(b, NameIn(k)); }
    }
    forall k | k in a ensures a[k] == b[k] {
      if IsRecordKey(k) { KeyExact([], k); AbsExact(a, NameIn(k)); AbsExact(b, NameIn(k)); }
    }
  }

  // ---------- operations on the byte store ----------

  function Put(kv: KV, d: Denom): KV { kv[Key(d.denom) := EncodeDenom(d)] }

  function Drop(kv: KV, name: Bytes): KV { kv - {Key(name)} }

  lemma {:induction false} EncodedIsRecord(d: Denom)
    requires Fits(d)
    ensures IsRecordOf(d.denom, EncodeDenom(d)) && RecordIn(EncodeDenom(d)) == d
  {
    hide DecodeDenom, EncodeDenom, SizeOf;
    RoundTripDenom(d);
    EncodedSize(d);
  }

  /** SetDenom on bytes is a map update on the table. */
  lemma {:induction false} PutRefines(kv: KV, d: Denom)
    requires Valid(kv) && Fits(d)
    ensures Valid(Put(kv, d)) && Abs(Put(kv, d)) == Abs(kv)[d.denom := d]
    ensures PARAMS_KEY in Put(kv, d) <==> PARAMS_KEY in kv
  {
    hide DecodeDenom, EncodeDenom, SizeOf, Abs;
    var kv' := Put(kv, d);
    EncodedIsRecord(d);
    KeyExact(d.denom, Key(d.denom));
    assert Valid(kv');
    forall name ensures name in Abs(kv') <==> name in Abs(kv)[d.denom := d] {
      AbsExact(kv, name);
      AbsExact(kv', name);
      KeyExact(name, Key(name));
    }
    forall name | name in Abs(kv') ensures Abs(kv')[name] == Abs(kv)[d.denom := d][name] {
      AbsExact(kv, name);
      AbsExact(kv', name);
      KeyExact(name, Key(name));
    }
  }

  /** RemoveDenom on bytes removes one name from the table. */
  lemma {:induction false} DropRefines(kv: KV, n: Bytes)
    requires Valid(kv)
    ensures Valid(Drop(kv, n)) && Abs(Drop(kv, n)) == Abs(kv) - {n}
    ensures PARAMS_KEY in Drop(kv, n) <==> PARAMS_KEY in kv
  {
    hide DecodeDenom, EncodeDenom, SizeOf, Abs;
    var kv' := Drop(kv, n);
    KeyExact(n, Key(n));
    forall name ensures name in Abs(kv') <==> name in Abs(kv) - {n} {
      AbsExact(kv, name);
      AbsExact(kv', name);
      KeyExact(name, Key(name));
    }
    forall name | name in Abs(kv') ensures Abs(kv')[name] == (Abs(kv) - {n})[name] {
      AbsExact(kv, name);
      AbsExact(kv', name);
    }
  }

  // ---------- messages ----------

  datatype AnyMsg =
    | MsgCreateDenom(owner: Bytes, denom: Bytes, description: Bytes, ticker: Bytes, precision: int32,
                     url: Bytes, maxSupply: int32, supply: int32, canChangeMaxSupply: bool)
    | MsgUpdateDenom(owner: Bytes, denom: Bytes, description: Bytes, ticker: Bytes, precision: int32,
                     url: Bytes, maxSupply: int32, supply: int32, canChangeMaxSupply: bool)
    | MsgDeleteDenom(owner: Bytes, denom: Bytes)

  // The record a create or update message asks for.
  function RecordOf(msg: AnyMsg): Denom
    requires !msg.MsgDeleteDenom?
  {
    Denom(msg.denom, msg.description, msg.ticker, msg.precision, msg.url,
          msg.maxSupply, msg.supply, msg.canChangeMaxSupply, msg.owner)
  }

  // A message whose record can be marshalled; Marshal cannot allocate a larger buffer.
  type Msg = msg: AnyMsg | msg.MsgDeleteDenom? || Fits(RecordOf(msg)) witness MsgDeleteDenom([], [])

  datatype Outcome = Done | IndexAlreadySet | IndexNotSet | IncorrectOwner

  datatype Stepped<S> = Stepped(state: S, outcome: Outcome)

  // The three handlers on the byte store.
  function Handle(kv: KV, msg: Msg): Stepped<KV>
  {
    var found := Find(kv, msg.denom);
    if msg.MsgCreateDenom? then
      if found.Some? then Stepped(kv, IndexAlreadySet) else Stepped(Put(kv, RecordOf(msg)), Done)
    else if found.None? then Stepped(kv, IndexNotSet)
    else if msg.owner != found.value.owner then Stepped(kv, IncorrectOwner)
    else if msg.MsgUpdateDenom? then Stepped(Put(kv, RecordOf(msg)), Done)
    else Stepped(Drop(kv, msg.denom), Done)
  }

  /** The rules of the token factory, on a plain table: a new name may be taken by anyone, who becomes
      its owner; only its owner may replace or delete an existing entry. */
  predicate Allowed(t: Table, msg: AnyMsg)
  {
    if msg.MsgCreateDenom? then msg.denom !in t else msg.denom in t && t[msg.denom].owner == msg.owner
  }

  function Effect(t: Table, msg: AnyMsg): Table
  {
    if !Allowed(t, msg) then t
    else if msg.MsgDeleteDenom? then t - {msg.denom}
    else t[msg.denom := RecordOf(msg)]
  }

  function OutcomeOf(t: Table, msg: AnyMsg): Outcome
  {
    if Allowed(t, msg) then Done
    else if msg.MsgCreateDenom? then IndexAlreadySet
    else if msg.denom !in t then IndexNotSet
    else IncorrectOwner
  }

  function TableStep(t: Table, msg: AnyMsg): Stepped<Table> { Stepped(Effect(t, msg), OutcomeOf(t, msg)) }

  /** Each handler on bytes commutes with the rule on the table, and keeps the store valid. */
  lemma {:induction false} StepRefines(kv: KV, msg: Msg)
    requires Valid(kv)
    ensures var s := Handle(kv, msg);
      && Valid(s.state)
      && Stepped(Abs(s.state), s.outcome) == TableStep(Abs(kv), msg)
      && (PARAMS_KEY in s.state <==> PARAMS_KEY in kv)
  {
    hide Valid, Find, Put, Drop, Abs, SizeOf;
    AbsExact(kv, msg.denom);
    var found := Find(kv, msg.denom);
    if !msg.MsgDeleteDenom? { PutRefines(kv, RecordOf(msg)); }
    DropRefines(kv, msg.denom);
  }

  // ---------- runs ----------

  datatype Ran<S> = Ran(state: S, outcomes: seq<Outcome>)

  function Run(kv: KV, msgs: seq<Msg>): (r: Ran<KV>)
    ensures |r.outcomes| == |msgs|
    decreases |msgs|
  {
    if msgs == [] then Ran(kv, []) else
    var s := Handle(kv, msgs[0]);
    var r := Run(s.state, msgs[1..]);
    Ran(r.state, [s.outcome] + r.outcomes)
  }

  function TableRun(t: Table, msgs: seq<Msg>): (r: Ran<Table>)
    ensures |r.outcomes| == |msgs|
    decreases |msgs|
  {
    if msgs == [] then Ran(t, []) else
    var s := TableStep(t, msgs[0]);
    var r := TableRun(s.state, msgs[1..]);
    Ran(r.state, [s.outcome] + r.outcomes)
  }

  /** Refinement over whole runs: the byte store goes through valid stores only, stands for what the plain
      table becomes, and answers every message as the table does. */
  lemma {:induction false} RunRefines(kv: KV, msgs: seq<Msg>)
    requires Valid(kv)
    ensures var r := Run(kv, msgs);
      && Valid(r.state)
      && Ran(Abs(r.state), r.outcomes) == TableRun(Abs(kv), msgs)
      && (PARAMS_KEY in r.state <==> PARAMS_KEY in kv)
    decreases |msgs|
  {
    hide Valid, Handle, TableStep, Abs;
    if msgs != [] {
      StepRefines(kv, msgs[0]);
      RunRefines(Handle(kv, msgs[0]).state, msgs[1..]);
    }
  }
}
