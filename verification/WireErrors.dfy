/** Which error each reader returns, in terms of the bytes it stops at: varints, true lengths and true
    end indices.  Every result is an equivalence, so the errors are told apart exactly. */
module WireErrors {
  import opened Words
  import opened Varint
  import opened Wire

  // No varint stands at the front of s: the input ends inside it, or it has more than ten bytes.
  predicate VarintFails(s: Bytes, e: Error)
  {
    || (e == UnexpectedEOF && |s| < 10 && forall k :: 0 <= k < |s| ==> s[k] >= 128)
    || (e == IntOverflow && |s| >= 10 && forall k :: 0 <= k < 10 ==> s[k] >= 128)
  }

  // A length n and n bytes are announced at index `at`, but the end would lie beyond the largest int, or
  // only beyond the input.
  ghost predicate ChunkFails(s: Bytes, at: nat, e: Error)
  {
    || VarintFails(s, e)
    || exists k :: 0 <= k <= |s| && IsVarint(s[..k])
         && var end := k + Value(s[..k]) % TWO64;
            || (at + end > MAX_INT && e == InvalidLength)
            || (at + end <= MAX_INT && end > |s| && e == UnexpectedEOF)
  }

  // The tag is unreadable, closes a group, or carries a number that is not positive as an int32.
  ghost predicate HeaderFails(s: Bytes, e: Error)
  {
    || VarintFails(s, e)
    || exists k :: 0 <= k <= |s| && IsVarint(s[..k])
         && var wire := Value(s[..k]) % TWO64;
            var q := wire / 8 % TWO32;
            if wire % 8 == 4 then e == EndGroupForNonGroup
            else (q == 0 || q >= TWO31) && e == IllegalTag(if q == 0 then 0 else q - TWO32, wire)
  }

  lemma {:induction false} VarintUnique(s: Bytes, k: nat)
    requires k <= |s| && IsVarint(s[..k])
    ensures ReadFrom(s) == Read(Value(s[..k]), k, Good)
  {
    hide ReadFrom, Value, IsVarint;
    assert s == s[..k] + s[k..];
    ReadComplete(s[..k], s[k..]);
  }

  lemma {:induction false} VarintErrors(s: Bytes, e: Error)
    ensures ReadFrom(s).status == Bad(e) <==> VarintFails(s, e)
    ensures VarintFails(s, e) ==> ReadFrom(s).size == if |s| < 10 then |s| else 10
    ensures ReadFrom(s).value == Value(s[..ReadFrom(s).size])
  {
    hide Value;
    ReadUpToSound(s, 10);
    ReadUpToValue(s, 10);
  }

  /** A length-delimited read is refused exactly for those reasons. */
  lemma {:induction false} ChunkErrors(s: Bytes, at: nat, e: Error)
    ensures ChunkAt(s, at).status == Bad(e) <==> ChunkFails(s, at, e)
  {
    hide ReadFrom, Value, IsVarint, VarintFails;
    VarintErrors(s, e);
    ReadExact(s);
    forall k | 0 <= k <= |s| && IsVarint(s[..k]) ensures ReadFrom(s) == Read(Value(s[..k]), k, Good) {
      VarintUnique(s, k);
    }
  }

  /** The same for a varint w and the bytes p behind it: with n announced, the chunk is the first n bytes of p
      if they are there; else the error tells a true end index beyond the ints from an input too short. */
  lemma {:induction false} ChunkOf(w: Bytes, p: Bytes, at: nat)
    requires IsVarint(w) && at + |w| + |p| <= MAX_INT
    ensures var n, c := Value(w) % TWO64, ChunkAt(w + p, at);
      if at + |w| + n > MAX_INT then c.status == Bad(InvalidLength)
      else if |p| < n then c.status == Bad(UnexpectedEOF)
      else c == Chunk(p[..n], |w| + n, Good)
  {
    hide ReadFrom, Value, IsVarint;
    ReadComplete(w, p);
    var n := Value(w) % TWO64;
    if n <= |p| { assert (w + p)[|w|..|w| + n] == p[..n]; }
  }

  lemma {:induction false} HeaderErrors(s: Bytes, e: Error)
    ensures HeaderAt(s).status == Bad(e) <==> HeaderFails(s, e)
  {
    hide ReadFrom, Value, IsVarint, VarintFails;
    VarintErrors(s, e);
    ReadExact(s);
    forall k | 0 <= k <= |s| && IsVarint(s[..k]) ensures ReadFrom(s) == Read(Value(s[..k]), k, Good) {
      VarintUnique(s, k);
    }
  }

  // ---------- skipping ----------

  // A group whose closing tag has not come yet: its tag and the complete fields behind it.
  datatype OpenGroup = OpenGroup(tag: Bytes, inside: seq<Field>)

  predicate AllOpen(os: seq<OpenGroup>)
  {
    forall k :: 0 <= k < |os| ==> IsTag(os[k].tag, 3) && AllWellFormed(os[k].inside)
  }

  function RenderOpen(os: seq<OpenGroup>): Bytes
  {
    if os == [] then []
    else RenderOpen(os[..|os| - 1]) + (os[|os| - 1].tag + RenderAll(os[|os| - 1].inside))
  }

  // n bytes are announced behind a tag that ends at index `at`, with d groups open.
  predicate SpanFails(n: nat, body: Bytes, at: nat, d: nat, e: Error)
  {
    || (at + n > MAX_INT && e == InvalidLength)
    || (at + n <= MAX_INT && n > |body| && d > 0 && e == UnexpectedEOF)
  }

  // What stands behind a tag of this wire type cannot be skipped.
  ghost predicate ValueFails(wireType: nat, body: Bytes, at: nat, d: nat, e: Error)
  {
    match wireType
    case 0 => VarintFails(body, e)
    case 1 => SpanFails(8, body, at, d, e)
    case 2 =>
      || VarintFails(body, e)
      || exists k :: 0 <= k <= |body| && IsVarint(body[..k])
           && SpanFails(k + Value(body[..k]) % TWO64, body, at, d, e)
    case 3 => false
    case 4 => d == 0 && e == UnexpectedEndOfGroup
    case 5 => SpanFails(4, body, at, d, e)
    case _ => e == IllegalWireType(wireType)
  }

  // The next field or tag, at index `at` with d groups open, cannot be skipped.
  ghost predicate TokenFails(t: Bytes, at: nat, d: nat, e: Error)
  {
    || VarintFails(t, e)
    || exists k :: 0 <= k <= |t| && IsVarint(t[..k]) && ValueFails(Value(t[..k]) % 8, t[k..], at + k, d, e)
  }

  // Behind some open groups something stands that cannot be skipped.
  ghost predicate SkipFails(s: Bytes, e: Error)
  {
    exists os, t :: AllOpen(os) && s == RenderOpen(os) + t && TokenFails(t, |RenderOpen(os)|, |os|, e)
  }

  lemma {:induction false} ValueErrors(wireType: nat, body: Bytes, at: nat, d: nat, e: Error)
    requires at + |body| <= MAX_INT
    ensures ValueFails(wireType, body, at, d, e) <==>
      var h := HopOver(wireType, body, d);
      || h.status == Bad(e)
      || (h.status.Good? && at + h.advance > MAX_INT && e == InvalidLength)
      || (h.status.Good? && at + h.advance <= MAX_INT && h.advance > |body| && d > 0 && e == UnexpectedEOF)
  {
    hide ReadFrom, Value, IsVarint, VarintFails;
    VarintErrors(body, e);
    ReadExact(body);
    forall k | 0 <= k <= |body| && IsVarint(body[..k]) ensures ReadFrom(body) == Read(Value(body[..k]), k, Good) {
      VarintUnique(body, k);
    }
  }

  // A turn of the loop that ends it with an error.
  ghost predicate TurnFails(s: Bytes, at: nat, d: nat, e: Error)
  {
    var h := HopAt(s, at, d);
    || (s == [] && e == UnexpectedEOF)
    || (s != [] && h.status == Bad(e))
    || (s != [] && h.status.Good? && h.depth > 0 && h.advance > |s| && e == UnexpectedEOF)
  }

  lemma {:induction false} TokenErrors(s: Bytes, at: nat, d: nat, e: Error)
    requires at + |s| <= MAX_INT
    ensures TokenFails(s, at, d, e) <==> TurnFails(s, at, d, e)
  {
    hide ReadFrom, Value, IsVarint, VarintFails, HopOver, ValueFails;
    VarintErrors(s, e);
    NothingToRead();
    ReadExact(s);
    forall k | 0 <= k <= |s| && IsVarint(s[..k]) ensures ReadFrom(s) == Read(Value(s[..k]), k, Good) {
      VarintUnique(s, k);
    }
    var r := ReadFrom(s);
    if r.status.Good? {
      ValueErrors(r.value % 8, s[r.size..], at + r.size, d, e);
      OverDepth(r.value % 8, s[r.size..], d);
    }
  }

  lemma NothingToRead()
    ensures ReadFrom([]).status == Bad(UnexpectedEOF)
  {
  }

  // Only tags of groups change the depth, and they never reach behind the input.
  lemma {:induction false} OverDepth(wireType: nat, body: Bytes, d: nat)
    ensures var h := HopOver(wireType, body, d);
      h.status.Good? && h.advance > |body| ==> h.depth == d
  {
    hide ReadFrom;
  }

  lemma {:induction false} OpenSnoc(os: seq<OpenGroup>, o: OpenGroup)
    ensures RenderOpen(os + [o]) == RenderOpen(os) + (o.tag + RenderAll(o.inside))
    ensures AllOpen(os) && IsTag(o.tag, 3) && AllWellFormed(o.inside) ==> AllOpen(os + [o])
  {
    hide RenderAll, IsTag, AllWellFormed;
    assert (os + [o])[..|os|] == os;
  }

  // Over complete groups' openings and the fields inside them the loop goes on, with as many groups open.
  lemma {:induction false} SkipOpen(os: seq<OpenGroup>, t: Bytes)
    requires AllOpen(os) && |RenderOpen(os)| <= MAX_INT
    ensures SkipFrom(RenderOpen(os) + t, 0, 0) == SkipFrom(t, |RenderOpen(os)|, |os|)
    decreases |os|
  {
    hide SkipFrom, RenderOpen, AllOpen, RenderAll, IsTag, AllWellFormed;
    if os == [] {
      NothingOpen();
      assert RenderOpen(os) + t == t;
    } else {
      var d := |os| - 1;
      var init, o := os[..d], os[d];
      var inner := RenderAll(o.inside) + t;
      assert os == init + [o];
      InnerOpen(os);
      OpenSnoc(init, o);
      var a := RenderOpen(init);
      assert RenderOpen(os) + t == a + (o.tag + inner);
      SkipOpen(init, o.tag + inner);
      SkipTag(o.tag, inner, |a|, d);
      SkipBodyComplete(o.inside, t, |a| + |o.tag|, d + 1);
    }
  }

  lemma {:induction false} SkipTag(tag: Bytes, rest: Bytes, at: nat, d: nat)
    requires IsTag(tag, 3) && at + |tag| <= MAX_INT
    ensures SkipFrom(tag + rest, at, d) == SkipFrom(rest, at + |tag|, d + 1)
  {
    hide HopAt;
    HopTag(tag, rest, at, d);
    Prefix(tag, rest);
  }

  lemma {:induction false} TurnEnds(s: Bytes, at: nat, d: nat, e: Error)
    requires TurnFails(s, at, d, e)
    ensures SkipFrom(s, at, d).status == Bad(e)
  {
    hide HopAt;
  }

  // The converse: a loop that ends in an error has passed open groups and complete fields in them.
  lemma {:induction false} SkipStops(os: seq<OpenGroup>, s: Bytes, e: Error) returns (os': seq<OpenGroup>, t: Bytes)
    requires AllOpen(os) && |RenderOpen(os)| + |s| <= MAX_INT
    requires SkipFrom(s, |RenderOpen(os)|, |os|).status == Bad(e)
    ensures AllOpen(os') && RenderOpen(os) + s == RenderOpen(os') + t && TurnFails(t, |RenderOpen(os')|, |os'|, e)
    decreases |s|
  {
    hide HopAt, HopOver, IsTag, RenderAll, AllWellFormed, WellFormed, Render, RenderOpen, AllOpen;
    var at, d := |RenderOpen(os)|, |os|;
    var h := HopAt(s, at, d);
    if TurnFails(s, at, d, e) {
      os', t := os, s;
    } else {
      SkipGoesOn(s, at, d, e);
      var wireType, tag := HopKinds(s, at, d);
      var tail := s[h.advance..];
      var next;
      if wireType == 3 {
        next := Opened(os, tag, tail, s);
      } else if wireType == 4 {
        next := Closed(os, tag, tail, s);
      } else {
        var f := LeafAt(tag, wireType, s[|tag|..], d);
        assert s == Render(f) + tail;
        next := Extended(os, f, tail, s);
      }
      os', t := SkipStops(next, tail, e);
    }
  }

  lemma {:induction false} SkipGoesOn(s: Bytes, at: nat, d: nat, e: Error)
    requires SkipFrom(s, at, d).status == Bad(e) && !TurnFails(s, at, d, e)
    ensures s != []
    ensures var h := HopAt(s, at, d);
      h.status.Good? && h.depth > 0 && 1 <= h.advance <= |s|
      && SkipFrom(s[h.advance..], at + h.advance, h.depth).status == Bad(e)
  {
    hide HopAt;
  }

  lemma {:induction false} Opened(os: seq<OpenGroup>, tag: Bytes, tail: Bytes, s: Bytes) returns (next: seq<OpenGroup>)
    requires AllOpen(os) && IsTag(tag, 3) && s == tag + tail
    ensures AllOpen(next) && |next| == |os| + 1 && RenderOpen(next) + tail == RenderOpen(os) + s
  {
    hide IsTag, RenderOpen, AllOpen;
    next := os + [OpenGroup(tag, [])];
    NoFields();
    OpenSnoc(os, OpenGroup(tag, []));
    assert RenderOpen(os) + (tag + []) + tail == RenderOpen(os) + s;
  }

  lemma {:induction false} Extended(os: seq<OpenGroup>, f: Field, tail: Bytes, s: Bytes) returns (next: seq<OpenGroup>)
    requires AllOpen(os) && os != [] && WellFormed(f) && s == Render(f) + tail
    ensures AllOpen(next) && |next| == |os| && RenderOpen(next) + tail == RenderOpen(os) + s
  {
    hide IsTag, RenderOpen, WellFormed, Render, RenderAll, AllWellFormed;
    var init, o := os[..|os| - 1], os[|os| - 1];
    var fs := o.inside + [f];
    assert os == init + [o];
    WellFormedAppend(o.inside, f);
    RenderAppend(o.inside, [f]);
    RenderOne(f);
    next := init + [OpenGroup(o.tag, fs)];
    OpenSnoc(init, o);
    OpenSnoc(init, OpenGroup(o.tag, fs));
    var a, x := RenderOpen(init), RenderAll(o.inside);
    assert a + (o.tag + (x + Render(f))) + tail == a + (o.tag + x) + (Render(f) + tail);
  }

  lemma {:induction false} Closed(os: seq<OpenGroup>, end: Bytes, tail: Bytes, s: Bytes) returns (next: seq<OpenGroup>)
    requires AllOpen(os) && |os| >= 2 && IsTag(end, 4) && s == end + tail
    ensures AllOpen(next) && |next| == |os| - 1 && RenderOpen(next) + tail == RenderOpen(os) + s
  {
    hide IsTag, RenderOpen, WellFormed, Render, RenderAll, AllWellFormed, AllOpen;
    var init, o := os[..|os| - 1], os[|os| - 1];
    assert os == init + [o];
    var g := GroupField(o.tag, o.inside, end);
    InnerOpen(os);
    GroupBytes(o.tag, o.inside, end);
    OpenSnoc(init, o);
    next := Extended(init, g, tail, Render(g) + tail);
    var a, x := RenderOpen(init), RenderAll(o.inside);
    assert a + (o.tag + (x + end) + tail) == a + (o.tag + x) + (end + tail);
  }

  lemma InnerOpen(os: seq<OpenGroup>)
    requires AllOpen(os) && os != []
    ensures AllOpen(os[..|os| - 1])
    ensures IsTag(os[|os| - 1].tag, 3) && AllWellFormed(os[|os| - 1].inside)
  {
    hide IsTag, AllWellFormed;
  }

  lemma {:induction false} WellFormedAppend(fs: seq<Field>, f: Field)
    requires AllWellFormed(fs) && WellFormed(f)
    ensures AllWellFormed(fs + [f])
  {
    hide WellFormed;
    if fs == [] {
      assert fs + [f] == [f];
    } else {
      assert (fs + [f])[1..] == fs[1..] + [f];
      WellFormedAppend(fs[1..], f);
    }
  }

  /** Skipping fails exactly where, behind some opened groups and complete fields in them, something stands
      that cannot be skipped, and the error says why. */
  lemma {:induction false} SkipErrors(s: Bytes, e: Error)
    requires |s| <= MAX_INT
    ensures Skip(s).status == Bad(e) <==> SkipFails(s, e)
  {
    hide SkipFrom, RenderOpen, AllOpen, TokenFails, TurnFails;
    if Skip(s).status == Bad(e) {
      NothingOpen();
      var os, t := SkipStops([], s, e);
      assert [] + s == s;
      TokenErrors(t, |RenderOpen(os)|, |os|, e);
    }
    if SkipFails(s, e) {
      var os, t :| AllOpen(os) && s == RenderOpen(os) + t && TokenFails(t, |RenderOpen(os)|, |os|, e);
      TokenErrors(t, |RenderOpen(os)|, |os|, e);
      SkipOpen(os, t);
      TurnEnds(t, |RenderOpen(os)|, |os|, e);
    }
  }

  lemma NothingOpen()
    ensures AllOpen([]) && RenderOpen([]) == []
  {
  }

  // A field that is no group announces more bytes than there are; the caller of skipDenom finds out.
  ghost predicate Overruns(s: Bytes, at: nat, e: Error)
  {
    exists k :: 0 <= k <= |s| && IsVarint(s[..k])
      && var wireType, body := Value(s[..k]) % 8, s[k..];
         || (wireType == 1 && LateEnd(k + 8, s, at, e))
         || (wireType == 5 && LateEnd(k + 4, s, at, e))
         || (wireType == 2
             && exists n :: 0 <= n <= |body| && IsVarint(body[..n]) && LateEnd(k + n + Value(body[..n]) % TWO64, s, at, e))
  }

  predicate LateEnd(end: nat, s: Bytes, at: nat, e: Error)
  {
    |s| < end <= MAX_INT && e == if at + end > MAX_INT then InvalidLength else UnexpectedEOF
  }

  ghost predicate UnknownFails(s: Bytes, at: nat, e: Error) { SkipFails(s, e) || Overruns(s, at, e) }

  // Skipping stops within the ints, and inside the input if it was in a group.
  lemma {:induction false} SkipStays(s: Bytes, at: nat, d: nat)
    ensures var k := SkipFrom(s, at, d); k.status.Good? ==> k.end <= MAX_INT && (d > 0 ==> k.end <= at + |s|)
    decreases |s|
  {
    hide HopAt, HopOver;
    if s != [] {
      var h := HopAt(s, at, d);
      if h.status.Good? {
        HopStays(s, at, d);
        if h.depth > 0 && h.advance <= |s| { SkipStays(s[h.advance..], at + h.advance, h.depth); }
      }
    }
  }

  lemma {:induction false} HopStays(s: Bytes, at: nat, d: nat)
    requires HopAt(s, at, d).status.Good?
    ensures var h := HopAt(s, at, d);
      at + h.advance <= MAX_INT && (h.depth != d ==> h.advance <= |s|)
  {
    hide ReadFrom;
  }

  // The first turn, from depth 0.
  lemma {:induction false} SkipStart(s: Bytes)
    ensures var k, h := Skip(s), HopAt(s, 0, 0);
      && (k.status.Good? ==> k.end <= MAX_INT)
      && (s == [] ==> k.status.Bad?)
      && (s != [] && h.status.Bad? ==> k.status.Bad?)
      && (s != [] && h.status.Good? && h.depth == 0 ==> k == Skipped(h.advance, Good))
      && (s != [] && h.status.Good? && h.depth > 0 && k.status.Good? ==> k.end <= |s|)
  {
    hide HopAt;
    SkipStays(s, 0, 0);
    var h := HopAt(s, 0, 0);
    if s != [] && h.status.Good? && h.depth > 0 && h.advance <= |s| {
      SkipStays(s[h.advance..], h.advance, h.depth);
    }
  }

  lemma {:induction false} OverrunErrors(s: Bytes, at: nat, e: Error)
    requires |s| <= MAX_INT
    ensures Overruns(s, at, e) <==> Skip(s).status.Good? && LateEnd(Skip(s).end, s, at, e)
  {
    hide ReadFrom, Value, IsVarint, SkipFrom;
    ReadExact(s);
    forall k | 0 <= k <= |s| && IsVarint(s[..k]) ensures ReadFrom(s) == Read(Value(s[..k]), k, Good) {
      VarintUnique(s, k);
    }
    SkipStart(s);
    if ReadFrom(s).status.Good? {
      var k := ReadFrom(s).size;
      var body := s[k..];
      ReadExact(body);
      forall n | 0 <= n <= |body| && IsVarint(body[..n]) ensures ReadFrom(body) == Read(Value(body[..n]), n, Good) {
        VarintUnique(body, n);
      }
    }
  }

  /** An unknown field is refused exactly if it cannot be skipped or overruns the input. */
  lemma {:induction false} UnknownErrors(s: Bytes, at: nat, e: Error)
    requires at + |s| <= MAX_INT
    ensures UnknownAt(s, at).status == Bad(e) <==> UnknownFails(s, at, e)
  {
    hide Skip, SkipFails, Overruns;
    SkipStart(s);
    SkipErrors(s, e);
    OverrunErrors(s, at, e);
  }
}
