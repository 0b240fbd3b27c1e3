/** What holds along every run of create, update and delete messages. */
module Runs {
  import opened Words
  import opened DenomCodec
  import opened ByteStore
  import opened KeeperSpec

  // ---------- one message ----------

  // A message reads and writes only the record it names, and decides by that record alone.
  lemma {:induction false} StepIsLocal(a: KV, b: KV, msg: Msg, d: Bytes)
    requires Find(a, d) == Find(b, d)
    ensures msg.denom == d ==> Handle(a, msg).outcome == Handle(b, msg).outcome
    ensures msg.denom == d ==> Find(Handle(a, msg).state, d) == Find(Handle(b, msg).state, d)
    ensures msg.denom != d ==> Find(Handle(a, msg).state, d) == Find(a, d)
  {
    hide DecodeDenom, EncodeDenom, SizeOf, DenomKey;
    KeyExact(d, Key(d));
    KeyExact(msg.denom, Key(msg.denom));
  }

  /** A record changes only by a successful message for that name, and if it was there before, only by
      a message of its owner. */
  lemma {:induction false} ChangeIsAuthorised(kv: KV, msg: Msg, d: Bytes)
    requires Find(Handle(kv, msg).state, d) != Find(kv, d)
    ensures msg.denom == d && Handle(kv, msg).outcome == Done
    ensures var before := Find(kv, d);
      if before.None? then msg.MsgCreateDenom? else !msg.MsgCreateDenom? && before.value.owner == msg.owner
  {
    StepIsLocal(kv, kv, msg, d);
  }

  /** What each handler answers and leaves, field by field: a create is refused exactly if the name is
      taken; an update or delete exactly if it is missing or the sender is not its owner; a refusal leaves
      the store alone; a successful create or update leaves a record with the nine fields of the message, a
      successful delete leaves none. */
  lemma {:induction false} HandlerRules(kv: KV, msg: Msg)
    requires Valid(kv)
    ensures var s, before := Handle(kv, msg), Find(kv, msg.denom);
      var after := Find(s.state, msg.denom);
      && s.outcome == (if msg.MsgCreateDenom? then (if before.Some? then IndexAlreadySet else Done)
                       else if before.None? then IndexNotSet
                       else if before.value.owner != msg.owner then IncorrectOwner
                       else Done)
      && (s.outcome != Done ==> s.state == kv)
      && (s.outcome == Done && msg.MsgDeleteDenom? ==> after == None)
      && (s.outcome == Done && !msg.MsgDeleteDenom? ==>
            && after.Some?
            && after.value.denom == msg.denom
            && after.value.description == msg.description
            && after.value.ticker == msg.ticker
            && after.value.precision == msg.precision
            && after.value.url == msg.url
            && after.value.maxSupply == msg.maxSupply
            && after.value.supply == msg.supply
            && after.value.canChangeMaxSupply == msg.canChangeMaxSupply
            && after.value.owner == msg.owner)
  {
    hide DecodeDenom, EncodeDenom, SizeOf, Valid, DenomKey;
    if !msg.MsgDeleteDenom? { EncodedIsRecord(RecordOf(msg)); }
  }

  lemma {:induction false} RunSplits(kv: KV, msgs: seq<Msg>)
    requires msgs != []
    ensures var s := Handle(kv, msgs[0]);
      Run(kv, msgs) == Ran(Run(s.state, msgs[1..]).state, [s.outcome] + Run(s.state, msgs[1..]).outcomes)
  {
    hide Handle;
  }

  lemma RunNothing(kv: KV)
    ensures Run(kv, []) == Ran(kv, [])
  {
  }

  // The nine fields of a create or update message, each under its own name.
  predicate Carries(r: Option<Denom>, msg: Msg)
  {
    && !msg.MsgDeleteDenom? && r.Some?
    && r.value.denom == msg.denom && r.value.description == msg.description && r.value.ticker == msg.ticker
    && r.value.precision == msg.precision && r.value.url == msg.url && r.value.maxSupply == msg.maxSupply
    && r.value.supply == msg.supply && r.value.canChangeMaxSupply == msg.canChangeMaxSupply
    && r.value.owner == msg.owner
  }

  // What one message for d leaves at d.
  lemma {:induction false} Written(kv: KV, msg: Msg)
    requires Valid(kv)
    ensures var s := Handle(kv, msg);
      && Valid(s.state)
      && (s.outcome != Done ==> s.state == kv)
      && (s.outcome == Done ==>
            if msg.MsgDeleteDenom? then Find(s.state, msg.denom) == None else Carries(Find(s.state, msg.denom), msg))
      && forall d :: d != msg.denom ==> Find(s.state, d) == Find(kv, d)
  {
    hide Handle, Find, Valid, SizeOf;
    StepRefines(kv, msg);
    HandlerRules(kv, msg);
    forall d | d != msg.denom ensures Find(Handle(kv, msg).state, d) == Find(kv, d) { StepIsLocal(kv, kv, msg, d); }
  }

  // No message of the run from index n on has succeeded for d.
  predicate Quiet(msgs: seq<Msg>, outcomes: seq<Outcome>, d: Bytes, n: nat)
    requires |msgs| == |outcomes|
  {
    forall j :: n <= j < |msgs| ==> !(msgs[j].denom == d && outcomes[j] == Done)
  }

  lemma QuietTail(msgs: seq<Msg>, outcomes: seq<Outcome>, d: Bytes, n: nat)
    requires |msgs| == |outcomes| > 0 && Quiet(msgs, outcomes, d, n)
    ensures Quiet(msgs[1..], outcomes[1..], d, if n > 0 then n - 1 else 0)
    ensures n == 0 ==> !(msgs[0].denom == d && outcomes[0] == Done)
  {
  }

  lemma {:induction false} LastWrite(kv: KV, msgs: seq<Msg>, d: Bytes, n: nat)
    requires Valid(kv) && n <= |msgs| && Quiet(msgs, Run(kv, msgs).outcomes, d, n)
    requires n > 0 ==> msgs[n - 1].denom == d && Run(kv, msgs).outcomes[n - 1] == Done
    ensures var r := Find(Run(kv, msgs).state, d);
      if n == 0 then r == Find(kv, d)
      else if msgs[n - 1].MsgDeleteDenom? then r == None
      else Carries(r, msgs[n - 1])
    decreases |msgs|
  {
    hide Find, Handle, Valid, Run, Quiet, Carries;
    if msgs == [] {
      RunNothing(kv);
    } else {
      var s, outcomes := Handle(kv, msgs[0]), Run(kv, msgs).outcomes;
      RunSplits(kv, msgs);
      assert outcomes[1..] == Run(s.state, msgs[1..]).outcomes;
      Written(kv, msgs[0]);
      QuietTail(msgs, outcomes, d, n);
      LastWrite(s.state, msgs[1..], d, if n > 0 then n - 1 else 0);
    }
  }

  /** After any run the record at d equals, field by field, the last successful create or update message for
      d; it is absent if a delete was the last success; without any success it is what it was before. */
  lemma {:induction false} RecordAfterRun(kv: KV, msgs: seq<Msg>, d: Bytes, last: int)
    requires Valid(kv) && -1 <= last < |msgs|
    requires var r := Run(kv, msgs);
      && (last >= 0 ==> msgs[last].denom == d && r.outcomes[last] == Done)
      && forall j :: last < j < |msgs| ==> !(msgs[j].denom == d && r.outcomes[j] == Done)
    ensures last == -1 ==> Find(Run(kv, msgs).state, d) == Find(kv, d)
    ensures last >= 0 && msgs[last].MsgDeleteDenom? ==> Find(Run(kv, msgs).state, d) == None
    ensures last >= 0 && !msgs[last].MsgDeleteDenom? ==>
      var r, msg := Find(Run(kv, msgs).state, d), msgs[last];
      && r.Some?
      && r.value.denom == d
      && r.value.description == msg.description
      && r.value.ticker == msg.ticker
      && r.value.precision == msg.precision
      && r.value.url == msg.url
      && r.value.maxSupply == msg.maxSupply
      && r.value.supply == msg.supply
      && r.value.canChangeMaxSupply == msg.canChangeMaxSupply
      && r.value.owner == msg.owner
  {
    hide Find, Handle, Valid, Run;
    LastWrite(kv, msgs, d, last + 1);
  }

  // ---------- run projection ----------

  function Addressing(msgs: seq<Msg>, d: Bytes): (own: seq<Msg>)
    ensures forall m :: m in own <==> m in msgs && m.denom == d
    decreases |msgs|
  {
    if msgs == [] then []
    else (if msgs[0].denom == d then [msgs[0]] else []) + Addressing(msgs[1..], d)
  }

  // The outcomes of those messages, out of the outcomes of all.
  function OutcomesFor(msgs: seq<Msg>, outcomes: seq<Outcome>, d: Bytes): seq<Outcome>
    requires |msgs| == |outcomes|
    decreases |msgs|
  {
    if msgs == [] then []
    else (if msgs[0].denom == d then [outcomes[0]] else []) + OutcomesFor(msgs[1..], outcomes[1..], d)
  }

  lemma {:induction false} ProjectFrom(a: KV, b: KV, msgs: seq<Msg>, d: Bytes)
    requires Find(a, d) == Find(b, d)
    ensures Find(Run(a, msgs).state, d) == Find(Run(b, Addressing(msgs, d)).state, d)
    ensures OutcomesFor(msgs, Run(a, msgs).outcomes, d) == Run(b, Addressing(msgs, d)).outcomes
    decreases |msgs|
  {
    hide Find, Handle;
    if msgs != [] {
      var msg, tail := msgs[0], Addressing(msgs[1..], d);
      StepIsLocal(a, b, msg, d);
      if msg.denom == d {
        assert Addressing(msgs, d) == [msg] + tail;
        assert ([msg] + tail)[1..] == tail;
        ProjectFrom(Handle(a, msg).state, Handle(b, msg).state, msgs[1..], d);
      } else {
        assert Addressing(msgs, d) == tail;
        ProjectFrom(Handle(a, msg).state, b, msgs[1..], d);
      }
      assert Run(a, msgs).outcomes[1..] == Run(Handle(a, msg).state, msgs[1..]).outcomes;
    }
  }

  /** Run projection: what becomes of the record named d, and how each message for d is answered, is the
      same as if only the messages for d had been sent. */
  lemma RunProjection(kv: KV, msgs: seq<Msg>, d: Bytes)
    ensures var all, own := Run(kv, msgs), Run(kv, Addressing(msgs, d));
      Find(all.state, d) == Find(own.state, d) && OutcomesFor(msgs, all.outcomes, d) == own.outcomes
  {
    hide Find, Handle;
    ProjectFrom(kv, kv, msgs, d);
  }

  // ---------- owner stability ----------

  // None of the first n messages deleted d.
  predicate KeptFor(msgs: seq<Msg>, outcomes: seq<Outcome>, d: Bytes, n: nat)
    requires n <= |msgs| == |outcomes|
  {
    forall j :: 0 <= j < n ==> !(msgs[j].MsgDeleteDenom? && msgs[j].denom == d && outcomes[j] == Done)
  }

  /** As long as d has not been deleted it keeps its owner; every later create fails, and every update
      or delete that succeeds, the first deletion included, was sent by that owner. */
  lemma {:induction false} OwnerStable(kv: KV, msgs: seq<Msg>, d: Bytes, owner: Bytes)
    requires Find(kv, d).Some? && Find(kv, d).value.owner == owner && Valid(kv)
    ensures var r := Run(kv, msgs);
      && (KeptFor(msgs, r.outcomes, d, |msgs|) ==> Find(r.state, d).Some? && Find(r.state, d).value.owner == owner)
      && forall i :: 0 <= i < |msgs| && msgs[i].denom == d && KeptFor(msgs, r.outcomes, d, i) ==>
           if msgs[i].MsgCreateDenom? then r.outcomes[i] == IndexAlreadySet
           else r.outcomes[i] == if msgs[i].owner == owner then Done else IncorrectOwner
    decreases |msgs|
  {
    hide Find, Handle, Valid;
    if msgs != [] {
      var msg, s := msgs[0], Handle(kv, msgs[0]);
      var outcomes, rest := Run(kv, msgs).outcomes, Run(s.state, msgs[1..]).outcomes;
      assert outcomes == [s.outcome] + rest;
      OwnerStep(kv, msg, d, owner);
      StepRefines(kv, msg);
      if msg.MsgDeleteDenom? && msg.denom == d && s.outcome == Done {
        assert forall n :: 1 <= n <= |msgs| ==> !KeptFor(msgs, outcomes, d, n);
      } else {
        OwnerStable(s.state, msgs[1..], d, owner);
        forall n | 1 <= n <= |msgs| && KeptFor(msgs, outcomes, d, n) ensures KeptFor(msgs[1..], rest, d, n - 1) {
          KeptForTail(msgs, outcomes, d, n);
        }
        forall i | 0 < i < |msgs| ensures msgs[i] == msgs[1..][i - 1] && outcomes[i] == rest[i - 1] {
        }
      }
    }
  }

  lemma KeptForTail(msgs: seq<Msg>, outcomes: seq<Outcome>, d: Bytes, n: nat)
    requires 1 <= n <= |msgs| == |outcomes| && KeptFor(msgs, outcomes, d, n)
    ensures KeptFor(msgs[1..], outcomes[1..], d, n - 1)
  {
  }

  lemma {:induction false} OwnerStep(kv: KV, msg: Msg, d: Bytes, owner: Bytes)
    requires Valid(kv) && Find(kv, d).Some? && Find(kv, d).value.owner == owner
    ensures var s := Handle(kv, msg);
      && (msg.denom == d ==>
            s.outcome == if msg.MsgCreateDenom? then IndexAlreadySet
                         else if msg.owner == owner then Done else IncorrectOwner)
      && (!(msg.MsgDeleteDenom? && msg.denom == d && s.outcome == Done) ==>
            Find(s.state, d).Some? && Find(s.state, d).value.owner == owner)
  {
    hide Valid, Abs, SizeOf, EncodeDenom;
    StepIsLocal(kv, kv, msg, d);
    StepRefines(kv, msg);
    AbsExact(kv, d);
    AbsExact(Handle(kv, msg).state, d);
  }
}
