/** How the three Unmarshal methods fail: at which place, with which error, and what they leave behind.
    In a tag, q == tag value modulo 2^64, shifted right by 3, modulo 2^32. */
module DecodeErrors {
  import opened Words
  import opened Varint
  import opened Wire
  import opened WireErrors
  import opened DenomCodec
  import opened GenesisCodec

  // k bytes of tag are read and neither close a group nor carry an illegal number.
  lemma {:induction false} HeaderByTag(s: Bytes, k: nat)
    requires k <= |s| && IsVarint(s[..k])
    ensures var wire, h := Value(s[..k]) % TWO64, HeaderAt(s);
      var q := wire / 8 % TWO32;
      if wire % 8 != 4 && 0 < q < TWO31 then h == Header(q, wire % 8, k, Good) else h.status.Bad?
  {
    hide ReadFrom, Value, IsVarint;
    VarintUnique(s, k);
  }

  lemma {:induction false} HeaderTag(s: Bytes) returns (k: nat)
    requires HeaderAt(s).status.Good?
    ensures k <= |s| && IsVarint(s[..k])
  {
    hide ReadFrom, Value, IsVarint;
    ReadExact(s);
    k := ReadFrom(s).size;
  }

  // ---------- Denom ----------

  // Behind a tag of k bytes that is in order.
  ghost predicate BodyFails(wire: nat, s: Bytes, k: nat, at: nat, e: Error)
    requires k <= |s|
  {
    var q, wireType := wire / 8 % TWO32, wire % 8;
    && wireType != 4 && 0 < q < TWO31
    && if q == 1 || q == 2 || q == 3 || q == 5 || q == 9 then
         if wireType != 2 then e == WrongWireType(wireType, q) else ChunkFails(s[k..], at + k, e)
       else if q == 4 || q == 6 || q == 7 || q == 8 then
         if wireType != 0 then e == WrongWireType(wireType, q) else VarintFails(s[k..], e)
       else UnknownFails(s, at, e)
  }

  // No legal field of a Denom stands at the front of s, which is the rest of the input from index `at` on.
  ghost predicate FieldFails(s: Bytes, at: nat, e: Error)
  {
    && s != []
    && (|| HeaderFails(s, e)
        || exists k :: 0 <= k <= |s| && IsVarint(s[..k]) && BodyFails(Value(s[..k]) % TWO64, s, k, at, e))
  }

  lemma {:induction false} StepErrors(m: Denom, s: Bytes, at: nat, e: Error)
    requires s != [] && at + |s| <= MAX_INT
    ensures StepAt(m, s, at).status == Bad(e) <==> FieldFails(s, at, e)
  {
    hide HeaderAt, ReadFrom, Value, IsVarint, ChunkAt, UnknownAt;
    hide HeaderFails, ChunkFails, VarintFails, UnknownFails, WithText, WithInt;
    HeaderErrors(s, e);
    forall k | 0 <= k <= |s| && IsVarint(s[..k])
      ensures BodyFails(Value(s[..k]) % TWO64, s, k, at, e)
          ==> HeaderAt(s).status.Good? && StepAt(m, s, at).status == Bad(e)
      ensures HeaderAt(s).status.Good? && StepAt(m, s, at).status == Bad(e)
          ==> BodyFails(Value(s[..k]) % TWO64, s, k, at, e)
    {
      HeaderByTag(s, k);
      ChunkErrors(s[k..], at + k, e);
      VarintErrors(s[k..], e);
      UnknownErrors(s, at, e);
    }
    if HeaderAt(s).status.Good? {
      var k := HeaderTag(s);
    }
  }

  // What a failing turn leaves of m: a number field that is read in part holds the low 32 bits read so far,
  // as a signed number; every other field is as it was.
  ghost predicate LeftBehind(m: Denom, s: Bytes, m': Denom)
  {
    && ((forall k :: 0 <= k <= |s| ==> !IsVarint(s[..k])) ==> m' == m)
    && forall k :: 0 <= k <= |s| && IsVarint(s[..k]) ==>
         var q, wireType := Value(s[..k]) % TWO64 / 8 % TWO32, Value(s[..k]) % 8;
         var body := s[k..];
         var low := Value(body[..if |body| < 10 then |body| else 10]) % TWO32;
         var v := if low < TWO31 then low else low - TWO32;
         m' == if wireType != 0 then m
               else if q == 4 then m.(precision := v)
               else if q == 6 then m.(maxSupply := v)
               else if q == 7 then m.(supply := v)
               else m
  }

  lemma {:induction false} StepLeaves(m: Denom, s: Bytes, at: nat, m': Denom)
    requires StepAt(m, s, at).status.Bad?
    ensures LeftBehind(m, s, m') <==> m' == StepAt(m, s, at).m
  {
    hide HeaderAt, ReadFrom, Value, IsVarint, ChunkAt, UnknownAt, VarintFails, WithText;
    forall k | 0 <= k <= |s| && IsVarint(s[..k])
      ensures var wire := Value(s[..k]) % TWO64;
        var q, body := wire / 8 % TWO32, s[k..];
        var low := Value(body[..if |body| < 10 then |body| else 10]) % TWO32;
        var v := if low < TWO31 then low else low - TWO32;
        StepAt(m, s, at).m ==
          if Value(s[..k]) % 8 != 0 then m
          else if q == 4 then m.(precision := v)
          else if q == 6 then m.(maxSupply := v)
          else if q == 7 then m.(supply := v)
          else m
    {
      HeaderByTag(s, k);
      WireTypeOf(Value(s[..k]));
      var body := s[k..];
      var r := ReadFrom(body);
      if r.status.Bad? { VarintErrors(body, r.status.error); }
    }
    if HeaderAt(s).status.Good? {
      var k := HeaderTag(s);
    }
  }

  /** Unmarshal rejects an input with error e, leaving m', if and only if the input is a sequence of legal
      fields and a rest where none stands for reason e, and m' is the effect of those fields, up to a number
      read in part. */
  lemma {:induction false} DecodeFailure(m: Denom, s: Bytes, m': Denom, e: Error)
    requires |s| <= MAX_INT
    ensures Merge(m, s) == Decoded(m', Bad(e))
       <==> exists fs, rest :: AllLegal(fs) && s == RenderAll(fs) + rest
              && FieldFails(rest, |RenderAll(fs)|, e) && LeftBehind(ApplyAll(m, fs), rest, m')
  {
    hide DecodeFrom, AllLegal, RenderAll, ApplyAll, FieldFails, LeftBehind, StepAt;
    if Merge(m, s) == Decoded(m', Bad(e)) {
      var fs, rest := DecodeStops(m, s, 0);
      StepErrors(ApplyAll(m, fs), rest, |RenderAll(fs)|, e);
      StepLeaves(ApplyAll(m, fs), rest, |RenderAll(fs)|, m');
    }
    if fs, rest :|
      AllLegal(fs) && s == RenderAll(fs) + rest
      && FieldFails(rest, |RenderAll(fs)|, e) && LeftBehind(ApplyAll(m, fs), rest, m')
    {
      FailsNonEmpty(rest, |RenderAll(fs)|, e);
      StepErrors(ApplyAll(m, fs), rest, |RenderAll(fs)|, e);
      StepLeaves(ApplyAll(m, fs), rest, |RenderAll(fs)|, m');
      DecodeFields(m, fs, rest, 0);
      StepStops(ApplyAll(m, fs), rest, |RenderAll(fs)|);
    }
  }

  lemma FailsNonEmpty(s: Bytes, at: nat, e: Error)
    requires FieldFails(s, at, e)
    ensures s != []
  {
    hide HeaderFails, BodyFails;
  }

  lemma {:induction false} StepStops(m: Denom, s: Bytes, at: nat)
    requires s != [] && StepAt(m, s, at).status.Bad?
    ensures DecodeFrom(m, s, at) == Decoded(StepAt(m, s, at).m, StepAt(m, s, at).status)
  {
    hide StepAt;
  }

  /** At such a place no legal field stands, whatever one appends to it. */
  lemma {:induction false} FailingIsStuck(s: Bytes, at: nat, e: Error, f: Field, t: Bytes)
    requires FieldFails(s, at, e) && at + |s| <= MAX_INT && Legal(f)
    ensures s != Render(f) + t
  {
    hide FieldFails, StepAt, Legal, Render, Apply;
    if s == Render(f) + t {
      FailsNonEmpty(s, at, e);
      StepErrors(EMPTY, s, at, e);
      StepComplete(EMPTY, f, t, at);
    }
  }

  // ---------- Params ----------

  ghost predicate ParamsFieldFails(s: Bytes, at: nat, e: Error)
  {
    && s != []
    && (|| HeaderFails(s, e)
        || (UnknownFails(s, at, e)
            && exists k :: 0 <= k <= |s| && IsVarint(s[..k])
                 && var wire := Value(s[..k]) % TWO64; wire % 8 != 4 && 0 < wire / 8 % TWO32 < TWO31))
  }

  lemma {:induction false} ParamsStepErrors(s: Bytes, at: nat, e: Error)
    requires s != [] && at + |s| <= MAX_INT
    ensures ParamsStepAt(s, at).status == Bad(e) <==> ParamsFieldFails(s, at, e)
  {
    hide HeaderAt, ReadFrom, Value, IsVarint, UnknownAt, HeaderFails, UnknownFails;
    HeaderErrors(s, e);
    UnknownErrors(s, at, e);
    forall k | 0 <= k <= |s| && IsVarint(s[..k])
      ensures var wire := Value(s[..k]) % TWO64;
        HeaderAt(s).status.Good? <==> wire % 8 != 4 && 0 < wire / 8 % TWO32 < TWO31
    {
      HeaderByTag(s, k);
    }
    if HeaderAt(s).status.Good? {
      var k := HeaderTag(s);
    }
  }

  /** Params rejects an input with error e if and only if, behind complete fields with positive numbers,
      something stands that is none for reason e. */
  lemma {:induction false} ParamsFailure(s: Bytes, e: Error)
    requires |s| <= MAX_INT
    ensures DecodeParams(s) == Bad(e)
       <==> exists fs, rest :: AllLegalInParams(fs) && s == RenderAll(fs) + rest
              && ParamsFieldFails(rest, |RenderAll(fs)|, e)
  {
    hide DecodeParamsFrom, AllLegalInParams, RenderAll, ParamsFieldFails, ParamsStepAt;
    if DecodeParams(s) == Bad(e) {
      var fs, rest := ParamsStops(s, 0);
      ParamsStepErrors(rest, |RenderAll(fs)|, e);
    }
    if fs, rest :| AllLegalInParams(fs) && s == RenderAll(fs) + rest && ParamsFieldFails(rest, |RenderAll(fs)|, e) {
      ParamsNonEmpty(rest, |RenderAll(fs)|, e);
      ParamsStepErrors(rest, |RenderAll(fs)|, e);
      ParamsFields(fs, rest, 0);
      ParamsStepStops(rest, |RenderAll(fs)|);
    }
  }

  lemma ParamsNonEmpty(s: Bytes, at: nat, e: Error)
    requires ParamsFieldFails(s, at, e)
    ensures s != []
  {
    hide HeaderFails, UnknownFails;
  }

  lemma {:induction false} ParamsStepStops(s: Bytes, at: nat)
    requires s != [] && ParamsStepAt(s, at).status.Bad?
    ensures DecodeParamsFrom(s, at) == ParamsStepAt(s, at).status
  {
    hide ParamsStepAt;
  }

  // ---------- GenesisState ----------

  // The message in a field 1 or 2 is not there, or fails to decode; g1 is the value left then.
  ghost predicate NestedFails(g: Genesis, q: nat, body: Bytes, at: nat, g1: Genesis, e: Error)
  {
    || (g1 == g && ChunkFails(body, at, e))
    || exists n :: 0 <= n <= |body| && IsVarint(body[..n])
         && n + Value(body[..n]) % TWO64 <= |body|
         && var payload := body[n..n + Value(body[..n]) % TWO64];
            if q == 1 then g1 == g && DecodeParams(payload) == Bad(e)
            else g1 == Genesis(g.params, g.denomList + [DecodeDenom(payload).m])
                 && DecodeDenom(payload).status == Bad(e)
  }

  // Behind a tag of k bytes that is in order.
  ghost predicate EntryFails(g: Genesis, wire: nat, s: Bytes, k: nat, at: nat, g1: Genesis, e: Error)
    requires k <= |s|
  {
    var q, wireType := wire / 8 % TWO32, wire % 8;
    && wireType != 4 && 0 < q < TWO31
    && if q == 1 || q == 2 then
         if wireType != 2 then g1 == g && e == WrongWireType(wireType, q)
         else NestedFails(g, q, s[k..], at + k, g1, e)
       else g1 == g && UnknownFails(s, at, e)
  }

  ghost predicate GenesisFieldFails(g: Genesis, s: Bytes, at: nat, g1: Genesis, e: Error)
  {
    && s != []
    && (|| (g1 == g && HeaderFails(s, e))
        || exists k :: 0 <= k <= |s| && IsVarint(s[..k]) && EntryFails(g, Value(s[..k]) % TWO64, s, k, at, g1, e))
  }

  // A chunk that is there: what it holds, by its length.
  lemma {:induction false} ChunkByLength(s: Bytes, at: nat, n: nat)
    requires n <= |s| && IsVarint(s[..n]) && at + |s| <= MAX_INT
    ensures var end, c := n + Value(s[..n]) % TWO64, ChunkAt(s, at);
      if end <= |s| then c == Chunk(s[n..end], end, Good) else c.status.Bad?
  {
    hide ReadFrom, Value, IsVarint;
    VarintUnique(s, n);
  }

  lemma {:induction false} ChunkLength(s: Bytes, at: nat) returns (n: nat)
    requires ChunkAt(s, at).status.Good?
    ensures n <= |s| && IsVarint(s[..n])
  {
    hide ReadFrom, Value, IsVarint;
    ReadExact(s);
    n := ReadFrom(s).size;
  }

  lemma {:induction false} NestedErrors(g: Genesis, q: nat, body: Bytes, at: nat, g1: Genesis, e: Error)
    requires at + |body| <= MAX_INT
    ensures var c := ChunkAt(body, at);
      NestedFails(g, q, body, at, g1, e) <==>
        if c.status.Bad? then g1 == g && c.status == Bad(e)
        else if q == 1 then g1 == g && DecodeParams(c.payload) == Bad(e)
        else g1 == Genesis(g.params, g.denomList + [DecodeDenom(c.payload).m])
             && DecodeDenom(c.payload).status == Bad(e)
  {
    hide ReadFrom, Value, IsVarint, ChunkAt, DecodeParams, DecodeDenom, ChunkFails;
    ChunkErrors(body, at, e);
    forall n | 0 <= n <= |body| && IsVarint(body[..n])
      ensures var end, c := n + Value(body[..n]) % TWO64, ChunkAt(body, at);
        if end <= |body| then c == Chunk(body[n..end], end, Good) else c.status.Bad?
    {
      ChunkByLength(body, at, n);
    }
    if ChunkAt(body, at).status.Good? {
      var n := ChunkLength(body, at);
    }
  }

  lemma {:induction false} EntryErrors(g: Genesis, s: Bytes, k: nat, at: nat, g1: Genesis, e: Error)
    requires k <= |s| && IsVarint(s[..k]) && at + |s| <= MAX_INT
    ensures EntryFails(g, Value(s[..k]) % TWO64, s, k, at, g1, e)
       <==> HeaderAt(s).status.Good? && GenesisStepAt(g, s, at).status == Bad(e) && GenesisStepAt(g, s, at).g == g1
  {
    hide HeaderAt, ReadFrom, Value, IsVarint, ChunkAt, UnknownAt, DecodeParams, DecodeDenom, NestedFails, UnknownFails;
    var wire := Value(s[..k]) % TWO64;
    HeaderByTag(s, k);
    NestedErrors(g, wire / 8 % TWO32, s[k..], at + k, g1, e);
    UnknownErrors(s, at, e);
  }

  lemma {:induction false} GenesisStepErrors(g: Genesis, s: Bytes, at: nat, g1: Genesis, e: Error)
    requires s != [] && at + |s| <= MAX_INT
    ensures GenesisFieldFails(g, s, at, g1, e)
       <==> GenesisStepAt(g, s, at).status == Bad(e) && GenesisStepAt(g, s, at).g == g1
  {
    hide HeaderAt, ReadFrom, Value, IsVarint, HeaderFails, EntryFails, GenesisStepAt;
    HeaderErrors(s, e);
    GenesisHeaderFails(g, s, at);
    forall k | 0 <= k <= |s| && IsVarint(s[..k])
      ensures EntryFails(g, Value(s[..k]) % TWO64, s, k, at, g1, e)
         <==> HeaderAt(s).status.Good? && GenesisStepAt(g, s, at).status == Bad(e) && GenesisStepAt(g, s, at).g == g1
    {
      EntryErrors(g, s, k, at, g1, e);
    }
    if HeaderAt(s).status.Good? {
      var k := HeaderTag(s);
    }
  }

  lemma {:induction false} GenesisHeaderFails(g: Genesis, s: Bytes, at: nat)
    ensures HeaderAt(s).status.Bad? ==> GenesisStepAt(g, s, at) == GenesisStep(g, 0, HeaderAt(s).status)
  {
    hide HeaderAt;
  }

  /** The genesis decoder rejects an input with error e, leaving g', if and only if the input is a sequence of
      legal fields and a rest that fails for reason e, and g' is g with the elements of those fields and, if a
      nested Denom failed, the part of it that was decoded. */
  lemma {:induction false} GenesisFailure(g: Genesis, s: Bytes, g': Genesis, e: Error)
    requires |s| <= MAX_INT
    ensures MergeGenesis(g, s) == DecodedGenesis(g', Bad(e))
       <==> exists fs, rest :: AllLegalInGenesis(fs) && s == RenderAll(fs) + rest
              && GenesisFieldFails(Appended(g, EntriesIn(fs)), rest, |RenderAll(fs)|, g', e)
  {
    hide DecodeGenesisFrom, AllLegalInGenesis, RenderAll, EntriesIn, Appended, GenesisFieldFails, GenesisStepAt;
    if MergeGenesis(g, s) == DecodedGenesis(g', Bad(e)) {
      var fs, rest := GenesisStops(g, s, 0);
      GenesisStepErrors(Appended(g, EntriesIn(fs)), rest, |RenderAll(fs)|, g', e);
    }
    if fs, rest :|
      AllLegalInGenesis(fs) && s == RenderAll(fs) + rest
      && GenesisFieldFails(Appended(g, EntriesIn(fs)), rest, |RenderAll(fs)|, g', e)
    {
      var g1 := Appended(g, EntriesIn(fs));
      GenesisNonEmpty(g1, rest, |RenderAll(fs)|, g', e);
      GenesisStepErrors(g1, rest, |RenderAll(fs)|, g', e);
      DecodeGenesisFront(g, fs, rest, 0);
      GenesisStepStops(g1, rest, |RenderAll(fs)|);
    }
  }

  lemma GenesisNonEmpty(g: Genesis, s: Bytes, at: nat, g1: Genesis, e: Error)
    requires GenesisFieldFails(g, s, at, g1, e)
    ensures s != []
  {
    hide HeaderFails, EntryFails;
  }

  lemma {:induction false} GenesisStepStops(g: Genesis, s: Bytes, at: nat)
    requires s != [] && GenesisStepAt(g, s, at).status.Bad?
    ensures DecodeGenesisFrom(g, s, at) == DecodedGenesis(GenesisStepAt(g, s, at).g, GenesisStepAt(g, s, at).status)
  {
    hide GenesisStepAt;
  }
}
