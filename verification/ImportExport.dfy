/** Genesis import and export of the whole module state. */
module ImportExport {
  import opened Words
  import opened DenomCodec
  import opened GenesisCodec
  import opened ByteStore
  import opened KeeperSpec

  // ---------- import ----------

  function PutAll(kv: KV, ds: seq<Denom>): KV
    decreases |ds|
  {
    if ds == [] then kv else PutAll(Put(kv, ds[0]), ds[1..])
  }

  // SetParams; an empty Params marshals to no bytes.
  function PutParams(kv: KV): KV { kv[PARAMS_KEY := []] }

  // InitGenesis
  function Import(kv: KV, g: Genesis): KV { PutParams(PutAll(kv, g.denomList)) }

  function TablePutAll(t: Table, ds: seq<Denom>): Table
    decreases |ds|
  {
    if ds == [] then t else TablePutAll(t[ds[0].denom := ds[0]], ds[1..])
  }

  predicate AllFit(ds: seq<Denom>) { forall d :: d in ds ==> Fits(d) }

  lemma {:induction false} PutAllRefines(kv: KV, ds: seq<Denom>)
    requires Valid(kv) && AllFit(ds)
    ensures Valid(PutAll(kv, ds)) && Abs(PutAll(kv, ds)) == TablePutAll(Abs(kv), ds)
    decreases |ds|
  {
    hide Valid, Abs, Put, SizeOf;
    if ds != [] {
      PutRefines(kv, ds[0]);
      PutAllRefines(Put(kv, ds[0]), ds[1..]);
    }
  }

  /** Importing keeps the store valid and lays the list over the table, later entries over earlier ones. */
  lemma ImportRefines(kv: KV, g: Genesis)
    requires Valid(kv) && AllFit(g.denomList)
    ensures Valid(Import(kv, g)) && PARAMS_KEY in Import(kv, g) && Import(kv, g)[PARAMS_KEY] == []
    ensures Abs(Import(kv, g)) == TablePutAll(Abs(kv), g.denomList)
  {
    hide DecodeDenom, EncodeDenom, SizeOf, Abs;
    PutAllRefines(kv, g.denomList);
    var a, b := PutAll(kv, g.denomList), Import(kv, g);
    KeyExact([], PARAMS_KEY);
    forall name ensures Find(b, name) == Find(a, name) { KeyExact(name, PARAMS_KEY); }
    forall name ensures (name in Abs(b) <==> name in Abs(a)) && (name in Abs(a) ==> Abs(b)[name] == Abs(a)[name]) {
      AbsExact(a, name);
      AbsExact(b, name);
    }
    assert Abs(b) == Abs(a);
  }

  lemma {:induction false} TablePutAllLast(t: Table, ds: seq<Denom>, name: Bytes, last: int)
    requires -1 <= last < |ds| && (last >= 0 ==> ds[last].denom == name)
    requires forall k :: last < k < |ds| ==> ds[k].denom != name
    ensures var r := TablePutAll(t, ds);
      if last >= 0 then name in r && r[name] == ds[last]
      else (name in r <==> name in t) && (name in t ==> r[name] == t[name])
    decreases |ds|
  {
    if ds != [] {
      TablePutAllLast(t[ds[0].denom := ds[0]], ds[1..], name, if last >= 1 then last - 1 else -1);
    }
  }

  /** After an import the record of a name is the last entry for it in the list, or what it was before if the
      list has none. */
  lemma {:induction false} ImportLastWins(kv: KV, g: Genesis, name: Bytes, last: int)
    requires Valid(kv) && AllFit(g.denomList) && -1 <= last < |g.denomList|
    requires last >= 0 ==> g.denomList[last].denom == name
    requires forall k :: last < k < |g.denomList| ==> g.denomList[k].denom != name
    ensures Find(Import(kv, g), name) == if last >= 0 then Some(g.denomList[last]) else Find(kv, name)
  {
    hide Valid, Abs, Import, Find, TablePutAll, SizeOf, AllFit;
    ImportRefines(kv, g);
    TablePutAllLast(Abs(kv), g.denomList, name, last);
    AbsExact(kv, name);
    AbsExact(Import(kv, g), name);
    FindKnown(kv, name);
    FindKnown(Import(kv, g), name);
  }

  lemma FindKnown(kv: KV, name: Bytes)
    ensures Find(kv, name) == None <==> Key(name) !in kv
  {
    hide RecordIn, Key;
  }

  lemma EmptyStore()
    ensures Valid(map[]) && Abs(map[]) == map[]
  {
    hide DecodeDenom, EncodeDenom, SizeOf;
    assert Names(map[]) == {};
  }

  // ---------- export ----------

  function RecordsAt(kv: KV, keys: seq<Bytes>): (ds: seq<Denom>)
    requires forall k :: k in keys ==> k in kv
    ensures |ds| == |keys| && forall i :: 0 <= i < |keys| ==> ds[i] == RecordIn(kv[keys[i]])
  {
    seq(|keys|, i requires 0 <= i < |keys| && keys[i] in kv => RecordIn(kv[keys[i]]))
  }

  // GetAllDenom
  function AllRecords(kv: KV): seq<Denom> { RecordsAt(kv, KeysBelow(kv, DENOM_KEY_PREFIX)) }

  // ExportGenesis
  function Export(kv: KV): Genesis { Genesis(Params, AllRecords(kv)) }

  predicate Distinct(ds: seq<Denom>) { forall i, j :: 0 <= i < j < |ds| ==> ds[i].denom != ds[j].denom }

  // The i-th record is the one stored under the i-th key.
  lemma {:induction false} RecordsKeyed(kv: KV)
    requires Valid(kv)
    ensures var keys, ds := KeysBelow(kv, DENOM_KEY_PREFIX), AllRecords(kv);
      && |ds| == |keys|
      && forall i :: 0 <= i < |ds| ==> keys[i] == Key(ds[i].denom) && Find(kv, ds[i].denom) == Some(ds[i])
  {
    hide RecordIn, Valid, Key, Below, RecordsAt;
    var keys, ds := KeysBelow(kv, DENOM_KEY_PREFIX), AllRecords(kv);
    forall i | 0 <= i < |ds| ensures keys[i] == Key(ds[i].denom) && Find(kv, ds[i].denom) == Some(ds[i]) {
      assert keys[i] in keys;
      RecordAtKey(kv, keys[i]);
    }
  }

  // Ascending byte order of the names, each followed by a slash (byte 47).
  ghost predicate Ordered(ds: seq<Denom>)
  {
    forall i, j :: 0 <= i < j < |ds| ==> Precedes(ds[i].denom + [47], ds[j].denom + [47])
  }

  lemma {:induction false} PairOrdered(x: Bytes, y: Bytes)
    requires Less(Key(x), Key(y))
    ensures x != y && Precedes(x + [47], y + [47])
  {
    hide Less, Key;
    KeyOrder(x, y);
    LessTrichotomy(DenomKey(x), DenomKey(y));
    LessExact(x + [47], y + [47]);
  }

  lemma {:induction false} RecordsOrdered(kv: KV)
    requires Valid(kv)
    ensures Ordered(AllRecords(kv)) && Distinct(AllRecords(kv))
  {
    hide AllRecords, Find, Valid, Key, Less, Precedes;
    var ds := AllRecords(kv);
    RecordsKeyed(kv);
    forall i, j | 0 <= i < j < |ds|
      ensures ds[i].denom != ds[j].denom && Precedes(ds[i].denom + [47], ds[j].denom + [47])
    {
      PairOrdered(ds[i].denom, ds[j].denom);
    }
  }

  lemma RecordListed(kv: KV, d: Denom)
    requires Valid(kv)
    ensures d in AllRecords(kv) <==> d.denom in Abs(kv) && Abs(kv)[d.denom] == d
    ensures d in AllRecords(kv) ==> Fits(d)
  {
    hide AllRecords, Valid, Abs, Key, Find, SizeOf;
    var keys, ds := KeysBelow(kv, DENOM_KEY_PREFIX), AllRecords(kv);
    RecordsKeyed(kv);
    AbsExact(kv, d.denom);
    if d.denom in Abs(kv) && Abs(kv)[d.denom] == d {
      KeyBelow(d.denom);
      assert Key(d.denom) in keys;
      var i :| 0 <= i < |keys| && keys[i] == Key(d.denom);
      KeyExact(d.denom, Key(d.denom));
      KeyExact(ds[i].denom, Key(d.denom));
    }
  }

  /** GetAllDenom is complete and ordered: its elements are the entries of the table, each exactly once,
      in strictly ascending byte order of the name followed by a slash. */
  lemma {:induction false} AllRecordsExact(kv: KV)
    requires Valid(kv)
    ensures var ds := AllRecords(kv);
      && Ordered(ds) && Distinct(ds) && AllFit(ds)
      && forall d :: d in ds <==> d.denom in Abs(kv) && Abs(kv)[d.denom] == d
  {
    hide AllRecords, Valid, Abs, SizeOf, Ordered, Distinct;
    RecordsOrdered(kv);
    forall d: Denom
      ensures d in AllRecords(kv) <==> d.denom in Abs(kv) && Abs(kv)[d.denom] == d
      ensures d in AllRecords(kv) ==> Fits(d)
    {
      RecordListed(kv, d);
    }
  }

  lemma {:induction false} AllRecordsFound(kv: KV)
    requires Valid(kv)
    ensures Ordered(AllRecords(kv)) && forall d :: d in AllRecords(kv) <==> Find(kv, d.denom) == Some(d)
  {
    hide AllRecords, Valid, Abs, SizeOf, Ordered, Distinct, AllFit, Find;
    AllRecordsExact(kv);
    forall d: Denom ensures d in AllRecords(kv) <==> Find(kv, d.denom) == Some(d) {
      AbsExact(kv, d.denom);
      FindKnown(kv, d.denom);
    }
  }

  lemma KeyBelow(name: Bytes)
    ensures Below(DENOM_KEY_PREFIX, Key(name))
  {
  }

  lemma KeyOrder(a: Bytes, b: Bytes)
    ensures Less(Key(a), Key(b)) <==> Less(DenomKey(a), DenomKey(b))
  {
    LessBelowPrefix(DENOM_KEY_PREFIX, DenomKey(a), DenomKey(b));
  }

  lemma RecordAtKey(kv: KV, k: Bytes)
    requires Valid(kv) && k in kv && Below(DENOM_KEY_PREFIX, k)
    ensures var d := RecordIn(kv[k]); k == Key(d.denom) && Find(kv, d.denom) == Some(d)
  {
    hide DecodeDenom, EncodeDenom, SizeOf, Key;
    KeyExact([], k);
    assert k != PARAMS_KEY;
  }

  // ---------- import after export ----------

  lemma {:induction false} TablePutAllExact(t: Table, ds: seq<Denom>)
    requires Distinct(ds)
    ensures var r := TablePutAll(t, ds);
      && (forall n :: n in r <==> n in t || exists d :: d in ds && d.denom == n)
      && (forall d :: d in ds ==> r[d.denom] == d)
      && (forall n :: n in t && (forall d :: d in ds ==> d.denom != n) ==> r[n] == t[n])
    decreases |ds|
  {
    if ds != [] {
      var t1, r := t[ds[0].denom := ds[0]], TablePutAll(t, ds);
      TablePutAllExact(t1, ds[1..]);
      assert forall d :: d in ds <==> d == ds[0] || d in ds[1..];
      assert forall d :: d in ds[1..] ==> d.denom != ds[0].denom;
    }
  }

  /** Export then import is the identity on every valid store that has a params entry, that entry included. */
  lemma ExportImport(kv: KV)
    requires Valid(kv) && PARAMS_KEY in kv
    ensures Import(map[], Export(kv)) == kv
  {
    hide Valid, Abs, AllRecords, PutAll, TablePutAll, SizeOf;
    var ds, kv' := AllRecords(kv), Import(map[], Export(kv));
    EmptyStore();
    AllRecordsExact(kv);
    ImportRefines(map[], Export(kv));
    TablePutAllExact(map[], ds);
    assert Abs(kv') == Abs(kv) by {
      forall n ensures n in Abs(kv') <==> n in Abs(kv) {
        AbsExact(kv, n);
        if n in Abs(kv) { assert Abs(kv)[n] in ds; }
      }
      forall n | n in Abs(kv) ensures Abs(kv')[n] == Abs(kv)[n] {
        AbsExact(kv, n);
        assert Abs(kv)[n] in ds;
      }
    }
    AbsInjective(kv', kv);
  }

  /** The same for every store that is reached from a genesis by messages. */
  lemma {:induction false} ExportImportReachable(g: Genesis, msgs: seq<Msg>)
    requires AllFit(g.denomList)
    ensures var kv := Run(Import(map[], g), msgs).state;
      Import(map[], Export(kv)) == kv && Distinct(Export(kv).denomList)
  {
    hide Valid, Abs, AllRecords, PutAll, Run, SizeOf, Distinct;
    EmptyStore();
    ImportRefines(map[], g);
    RunRefines(Import(map[], g), msgs);
    var kv := Run(Import(map[], g), msgs).state;
    ExportImport(kv);
    AllRecordsExact(kv);
  }

  /** And through the wire: exporting, marshalling, unmarshalling and importing rebuilds the byte store. */
  lemma {:induction false} ExportMarshalImport(kv: KV)
    requires Valid(kv) && PARAMS_KEY in kv && SizeOfGenesis(Export(kv)) <= MAX_INT
    ensures var r := MergeGenesis(EMPTY_GENESIS, EncodeGenesis(Export(kv)));
      r.status.Good? && Import(map[], r.g) == kv
  {
    hide MergeGenesis, EncodeGenesis, Export, Import, Valid, SizeOfGenesis;
    RoundTripGenesis(Export(kv));
    ExportImport(kv);
  }

  // ---------- import order ----------

  lemma {:induction false} DistinctCount(ds: seq<Denom>, d: Denom)
    requires Distinct(ds)
    ensures multiset(ds)[d] == if d in ds then 1 else 0
    decreases |ds|
  {
    if ds != [] {
      assert ds == [ds[0]] + ds[1..];
      DistinctCount(ds[1..], d);
      assert ds[0] !in ds[1..];
    }
  }

  lemma DistinctPermutation(ds: seq<Denom>, es: seq<Denom>)
    requires Distinct(ds) && multiset(ds) == multiset(es)
    ensures Distinct(es) && forall d :: d in es <==> d in ds
  {
    forall d ensures d in es <==> d in ds {
      assert d in es <==> d in multiset(es);
      assert d in ds <==> d in multiset(ds);
    }
    forall i, j | 0 <= i < j < |es| ensures es[i].denom != es[j].denom {
      if es[i].denom == es[j].denom {
        assert es[i] in ds && es[j] in ds;
        assert es[i] == es[j];
        assert es == es[..i] + [es[i]] + es[i + 1..j] + [es[j]] + es[j + 1..];
        assert multiset(es)[es[i]] >= 2;
        DistinctCount(ds, es[i]);
      }
    }
  }

  lemma SameMembersSameCount(ds: seq<Denom>, es: seq<Denom>)
    requires Distinct(ds) && Distinct(es) && forall d :: d in es <==> d in ds
    ensures multiset(ds) == multiset(es)
  {
    hide Distinct;
    forall d: Denom ensures multiset(ds)[d] == multiset(es)[d] {
      DistinctCount(ds, d);
      DistinctCount(es, d);
    }
  }

  /** Import order does not matter: permutations of a list of distinct names give the same store. */
  lemma {:induction false} ImportOrder(kv: KV, ds: seq<Denom>, es: seq<Denom>)
    requires Valid(kv) && AllFit(ds) && Distinct(ds) && multiset(ds) == multiset(es)
    ensures Import(kv, Genesis(Params, ds)) == Import(kv, Genesis(Params, es))
  {
    hide Valid, Abs, PutAll, TablePutAll, SizeOf, Distinct;
    DistinctPermutation(ds, es);
    var a, b := Import(kv, Genesis(Params, ds)), Import(kv, Genesis(Params, es));
    ImportRefines(kv, Genesis(Params, ds));
    ImportRefines(kv, Genesis(Params, es));
    TablePutAllExact(Abs(kv), ds);
    TablePutAllExact(Abs(kv), es);
    assert Abs(a) == Abs(b) by {
      forall n | n in Abs(a) ensures Abs(a)[n] == Abs(b)[n] {
        if d :| d in ds && d.denom == n { assert d in es; }
      }
    }
    AbsInjective(a, b);
  }

  /** Importing a list on the empty store and exporting again permutes it if and only if its names are
      distinct, that is, exactly when Validate accepts it; otherwise entries are lost. */
  lemma {:induction false} ImportExportPermutes(ds: seq<Denom>)
    requires AllFit(ds)
    ensures multiset(Export(Import(map[], Genesis(Params, ds))).denomList) == multiset(ds) <==> Distinct(ds)
  {
    hide Valid, Abs, AllRecords, PutAll, TablePutAll, SizeOf, Distinct;
    var kv := Import(map[], Genesis(Params, ds));
    var es := AllRecords(kv);
    EmptyStore();
    ImportRefines(map[], Genesis(Params, ds));
    AllRecordsExact(kv);
    if multiset(es) == multiset(ds) {
      DistinctPermutation(es, ds);
    }
    if Distinct(ds) {
      TablePutAllExact(map[], ds);
      forall d: Denom ensures d in es <==> d in ds {
        if d.denom in Abs(kv) { AbsExact(kv, d.denom); }
      }
      SameMembersSameCount(es, ds);
    }
  }
}
