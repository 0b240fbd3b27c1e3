/** The wire grammar of protocol buffers, and the three readers the generated decoders
    share: field header, length-delimited chunk, and skipDenom with its depth counter. */
module Wire {
  import opened Words
  import opened Varint

  /** One field of a message as it stands in the input.  Varints are kept as the bytes they were
      written with, since a decoder accepts non-minimal ones.  A group's closing tag may carry any
      field number: skipDenom never compares it with the opening one. */
  datatype Field =
    | VarintField(tag: Bytes, number: Bytes)
    | Fixed64Field(tag: Bytes, bits: Bytes)
    | BytesField(tag: Bytes, length: Bytes, payload: Bytes)
    | GroupField(tag: Bytes, body: seq<Field>, end: Bytes)
    | Fixed32Field(tag: Bytes, bits: Bytes)

  function Render(f: Field): Bytes
    decreases f
  {
    match f
    case VarintField(tag, number) => tag + number
    case Fixed64Field(tag, bits) => tag + bits
    case BytesField(tag, length, payload) => tag + length + payload
    case GroupField(tag, body, end) => tag + RenderAll(body) + end
    case Fixed32Field(tag, bits) => tag + bits
  }

  function RenderAll(fs: seq<Field>): Bytes
    decreases fs
  {
    if fs == [] then [] else Render(fs[0]) + RenderAll(fs[1..])
  }

  lemma {:induction false} RenderAppend(a: seq<Field>, b: seq<Field>)
    ensures RenderAll(a + b) == RenderAll(a) + RenderAll(b)
  {
    hide Render;
    if a == [] {
      assert a + b == b;
    } else {
      assert (a + b)[1..] == a[1..] + b;
      RenderAppend(a[1..], b);
    }
  }

  lemma RenderOne(f: Field)
    ensures RenderAll([f]) == Render(f)
  {
    hide Render;
    assert [f][1..] == [];
    assert Render(f) + [] == Render(f);
  }

  predicate IsTag(tag: Bytes, wireType: nat) { IsVarint(tag) && Value(tag) % 8 == wireType }

  predicate WellFormed(f: Field)
    decreases f
  {
    match f
    case VarintField(tag, number) => IsTag(tag, 0) && IsVarint(number)
    case Fixed64Field(tag, bits) => IsTag(tag, 1) && |bits| == 8
    case BytesField(tag, length, payload) =>
      IsTag(tag, 2) && IsVarint(length) && Value(length) % TWO64 == |payload|
    case GroupField(tag, body, end) => IsTag(tag, 3) && AllWellFormed(body) && IsTag(end, 4)
    case Fixed32Field(tag, bits) => IsTag(tag, 5) && |bits| == 4
  }

  predicate AllWellFormed(fs: seq<Field>)
    decreases fs
  {
    fs == [] || (WellFormed(fs[0]) && AllWellFormed(fs[1..]))
  }

  // The field number a decoder sees: int32(wire >> 3).
  function Number(wire: uint64): int32 { ToInt32(wire / 8 % TWO32) }

  function NumberOf(f: Field): int32 { Number(Value(f.tag) % TWO64) }

  // ---------- skipDenom, skipGenesis, skipParams ----------

  // One turn of the skipping loop: how far it moves, the depth after it, and how it ended.
  datatype Hop = Hop(advance: nat, depth: nat, status: Status)

  function HopAt(s: Bytes, at: nat, depth: nat): (h: Hop)
    ensures h.status.Good? ==> h.advance >= 1
  {
    var t := ReadFrom(s);
    if t.status.Bad? then Hop(0, 0, t.status) else
    var h := HopOver(t.value % 8, s[t.size..], depth);
    if h.status.Bad? then h
    else if at + t.size + h.advance > MAX_INT then Hop(0, 0, Bad(InvalidLength))
    else Hop(t.size + h.advance, h.depth, Good)
  }

  // What follows the tag.
  function HopOver(wireType: nat, s: Bytes, depth: nat): (h: Hop)
    ensures h.status.Good? ==> h.depth <= depth + 1
  {
    match wireType
    case 0 => var r := ReadFrom(s); Hop(r.size, depth, r.status)
    case 1 => Hop(8, depth, Good)
    case 2 => var r := ReadFrom(s); Hop(r.size + r.value % TWO64, depth, r.status)
    case 3 => Hop(0, depth + 1, Good)
    case 4 => if depth == 0 then Hop(0, 0, Bad(UnexpectedEndOfGroup)) else Hop(0, depth - 1, Good)
    case 5 => Hop(4, depth, Good)
    case _ => Hop(0, 0, Bad(IllegalWireType(wireType)))
  }

  // The index at which skipping stops; it may lie behind the input, which the callers check.
  datatype Skipped = Skipped(end: nat, status: Status)

  // The loop, with s the input from index `at` on and `depth` groups open.
  function SkipFrom(s: Bytes, at: nat, depth: nat): Skipped
  {
    if s == [] then Skipped(0, Bad(UnexpectedEOF)) else
    var h := HopAt(s, at, depth);
    if h.status.Bad? then Skipped(0, h.status)
    else if h.depth == 0 then Skipped(at + h.advance, Good)
    else if h.advance > |s| then Skipped(0, Bad(UnexpectedEOF))
    else SkipFrom(s[h.advance..], at + h.advance, h.depth)
  }

  function Skip(s: Bytes): Skipped { SkipFrom(s, 0, 0) }

  // The switch inside the loop of skipDenom; next is the index after it, as a wrapped Go int.
  method SkipValue(data: Bytes, start: nat, wireType: nat, open: nat) returns (next: int, depth: nat, status: Status)
    requires start <= |data| <= MAX_INT
    ensures var h := HopOver(wireType, data[start..], open);
      if h.status.Bad? then status == h.status
      else if status.Good? then
        depth == h.depth && (next < 0 <==> start + h.advance > MAX_INT) && (next >= 0 ==> next == start + h.advance)
      else status == Bad(InvalidLength) && start + h.advance > MAX_INT
  {
    hide ReadFrom, WrapInt;
    next, depth, status := start, open, Good;
    match wireType {
      case 0 =>
        var _, after, st := ReadUint64(data, start);
        next, status := after, st;
      case 1 =>
        WrapOnce(start + 8);
        next := WrapInt(start + 8);
      case 2 =>
        var pattern;
        pattern, next, status := ReadUint64(data, start);
        if status.Good? {
          var length := ToInt64(pattern);
          if length < 0 {
            return next, depth, Bad(InvalidLength);
          }
          WrapOnce(next + length);
          next := WrapInt(next + length);
        }
      case 3 =>
        depth := open + 1;
      case 4 =>
        if open == 0 {
          return next, depth, Bad(UnexpectedEndOfGroup);
        }
        depth := open - 1;
      case 5 =>
        WrapOnce(start + 4);
        next := WrapInt(start + 4);
      case _ =>
        status := Bad(IllegalWireType(wireType));
    }
  }

  /** skipDenom.  Every index is in bounds, each turn moves forward, and the tests for a negative index
      detect exactly the true overflows of an int. */
  method SkipField(data: Bytes) returns (n: nat, status: Status)
    requires |data| <= MAX_INT
    ensures Skipped(n, status) == Skip(data) && n <= MAX_INT
  {
    hide ReadFrom, HopOver, HopAt, SkipFrom;
    var i, depth := 0, 0;
    assert data[0..] == data;
    SkipEnd();
    while i < |data|
      invariant 0 <= depth <= i <= MAX_INT
      invariant Skip(data) == if i > |data| then Skipped(0, Bad(UnexpectedEOF)) else SkipFrom(data[i..], i, depth)
      decreases |data| - i
    {
      ghost var s := data[i..];
      TurnOver(data, i, depth);
      var wire, next, st := ReadUint64(data, i);
      if st.Bad? {
        return 0, st;
      }
      ghost var over := HopOver(wire % 8, data[next..], depth);
      i, depth, st := SkipValue(data, next, wire % 8, depth);
      if st.Bad? {
        return 0, st;
      }
      if i < 0 {
        return 0, Bad(InvalidLength);
      }
      if depth == 0 {
        return i, Good;
      }
    }
    assert i == |data| ==> data[i..] == [];
    return 0, Bad(UnexpectedEOF);
  }

  lemma SkipEnd()
    ensures forall at, depth :: SkipFrom([], at, depth) == Skipped(0, Bad(UnexpectedEOF))
  {
  }

  // One turn of the loop, spelled out: the tag, what follows it, the index after it, the depth.
  lemma {:induction false} TurnOver(data: Bytes, i: nat, depth: nat)
    requires i < |data|
    ensures var s := data[i..];
      var t, k := ReadFrom(s), SkipFrom(s, i, depth);
      if t.status.Bad? then k == Skipped(0, t.status) else
      var next := i + t.size;
      var over := HopOver(t.value % TWO64 % 8, data[next..], depth);
      var end := next + over.advance;
      if over.status.Bad? then k == Skipped(0, over.status)
      else if end > MAX_INT then k == Skipped(0, Bad(InvalidLength))
      else if over.depth == 0 then k == Skipped(end, Good)
      else if end > |data| then k == Skipped(0, Bad(UnexpectedEOF))
      else k == SkipFrom(data[end..], end, over.depth)
  {
    hide ReadFrom, HopOver;
    var s := data[i..];
    var t := ReadFrom(s);
    WireTypeOf(t.value);
    assert s[t.size..] == data[i + t.size..];
    var h := HopAt(s, i, depth);
    if h.advance <= |s| { assert s[h.advance..] == data[i + h.advance..]; }
  }

  lemma WireTypeOf(v: nat)
    ensures v % TWO64 % 8 == v % 8
  {
  }

  // ---------- skipping is exact ----------

  lemma Prefix(a: Bytes, b: Bytes)
    ensures (a + b)[..|a|] == a && (a + b)[|a|..] == b
  {
  }

  lemma SliceSplit(s: Bytes, a: nat, n: nat)
    requires a <= n <= |s|
    ensures s[..n] == s[..a] + s[a..][..n - a]
  {
  }

  lemma ReadTag(tag: Bytes, rest: Bytes)
    requires IsVarint(tag)
    ensures ReadFrom(tag + rest) == Read(Value(tag), |tag|, Good)
    ensures (tag + rest)[|tag|..] == rest
  {
    ReadComplete(tag, rest);
  }

  // What stands between a field's tag and the next field.
  function Rest(f: Field): Bytes
    ensures Render(f) == f.tag + Rest(f)
  {
    match f
    case VarintField(_, number) => number
    case Fixed64Field(_, bits) => bits
    case BytesField(tag, length, payload) =>
      assert tag + length + payload == tag + (length + payload);
      length + payload
    case GroupField(tag, body, end) =>
      assert tag + RenderAll(body) + end == tag + (RenderAll(body) + end);
      RenderAll(body) + end
    case Fixed32Field(_, bits) => bits
  }

  lemma OverLeaf(f: Field, rest: Bytes, d: nat)
    requires WellFormed(f) && !f.GroupField? && |Render(f)| <= MAX_INT
    ensures HopOver(Value(f.tag) % 8, Rest(f) + rest, d) == Hop(|Rest(f)|, d, Good)
  {
    hide ReadFrom, Value, ReadUpTo;
    match f
    case VarintField(_, number) => ReadComplete(number, rest);
    case BytesField(_, length, payload) =>
      ReadComplete(length, payload + rest);
      assert length + payload + rest == length + (payload + rest);
    case _ =>
  }

  // One turn of the loop over a complete field that is not a group moves exactly past it.
  lemma HopLeaf(f: Field, rest: Bytes, at: nat, d: nat)
    requires WellFormed(f) && !f.GroupField? && at + |Render(f)| <= MAX_INT
    ensures HopAt(Render(f) + rest, at, d) == Hop(|Render(f)|, d, Good)
  {
    hide ReadFrom, Value, IsVarint, ReadUpTo, HopOver;
    OverLeaf(f, rest, d);
    assert Render(f) + rest == f.tag + (Rest(f) + rest);
    ReadTag(f.tag, Rest(f) + rest);
  }

  lemma HopTag(tag: Bytes, rest: Bytes, at: nat, d: nat)
    requires IsTag(tag, 3) || (IsTag(tag, 4) && d > 0)
    requires at + |tag| <= MAX_INT
    ensures HopAt(tag + rest, at, d) == Hop(|tag|, if IsTag(tag, 3) then d + 1 else d - 1, Good)
  {
    ReadTag(tag, rest);
  }

  lemma {:induction false} SkipComplete(f: Field, rest: Bytes, at: nat, d: nat)
    requires WellFormed(f) && at + |Render(f)| <= MAX_INT
    ensures SkipFrom(Render(f) + rest, at, d)
         == if d == 0 then Skipped(at + |Render(f)|, Good) else SkipFrom(rest, at + |Render(f)|, d)
    decreases f
  {
    hide ReadFrom, Value, IsVarint, HopAt, HopOver, Render, RenderAll, AllWellFormed;
    var s := Render(f) + rest;
    if f.GroupField? {
      var inner := RenderAll(f.body) + (f.end + rest);
      GroupBytes(f.tag, f.body, f.end);
      assert s == f.tag + inner;
      HopTag(f.tag, inner, at, d);
      Prefix(f.tag, inner);
      SkipBodyComplete(f.body, f.end + rest, at + |f.tag|, d + 1);
      HopTag(f.end, rest, at + |f.tag| + |RenderAll(f.body)|, d + 1);
      Prefix(f.end, rest);
    } else {
      HopLeaf(f, rest, at, d);
      Prefix(Render(f), rest);
    }
  }

  // With a group open, the loop runs over any number of complete fields.
  lemma {:induction false} SkipBodyComplete(fs: seq<Field>, rest: Bytes, at: nat, d: nat)
    requires AllWellFormed(fs) && at + |RenderAll(fs)| <= MAX_INT && d > 0
    ensures SkipFrom(RenderAll(fs) + rest, at, d) == SkipFrom(rest, at + |RenderAll(fs)|, d)
    decreases fs
  {
    hide ReadFrom, Value, IsVarint, HopAt, HopOver, SkipFrom, Render, WellFormed;
    if fs == [] {
      assert RenderAll(fs) + rest == rest;
    } else {
      var tail := RenderAll(fs[1..]) + rest;
      assert RenderAll(fs) + rest == Render(fs[0]) + tail;
      SkipComplete(fs[0], tail, at, d);
      SkipBodyComplete(fs[1..], rest, at + |Render(fs[0])|, d);
    }
  }

  // What one turn of the loop tells about the input it moved over.
  lemma HopKinds(s: Bytes, at: nat, d: nat) returns (wireType: nat, tag: Bytes)
    requires HopAt(s, at, d).status.Good?
    ensures wireType in {0, 1, 2, 3, 4, 5} && IsTag(tag, wireType)
    ensures |tag| <= |s| && s[..|tag|] == tag
    ensures var h, over := HopAt(s, at, d), HopOver(wireType, s[|tag|..], d);
      && over.status.Good? && h.advance == |tag| + over.advance && h.depth == over.depth
      && (wireType == 3 ==> h.advance == |tag| && h.depth == d + 1)
      && (wireType == 4 ==> d > 0 && h.advance == |tag| && h.depth == d - 1)
      && (wireType != 3 && wireType != 4 ==> h.depth == d)
  {
    hide ReadFrom, ReadUpTo, Value, IsVarint;
    ReadExact(s);
    var t := ReadFrom(s);
    wireType, tag := t.value % 8, s[..t.size];
  }

  // A field of some other kind than a group.
  lemma LeafAt(tag: Bytes, wireType: nat, s: Bytes, d: nat) returns (f: Field)
    requires IsTag(tag, wireType) && wireType in {0, 1, 2, 5}
    requires var h := HopOver(wireType, s, d); h.status.Good? && h.advance <= |s|
    ensures HopOver(wireType, s, d).depth == d
    ensures WellFormed(f) && Render(f) == tag + s[..HopOver(wireType, s, d).advance]
  {
    hide ReadFrom, ReadUpTo, Value, IsVarint;
    var n := HopOver(wireType, s, d).advance;
    ReadExact(s);
    var r := ReadFrom(s);
    match wireType
    case 0 =>
      f := VarintField(tag, s[..n]);
    case 1 =>
      f := Fixed64Field(tag, s[..8]);
    case 2 =>
      f := BytesField(tag, s[..r.size], s[r.size..n]);
      assert tag + s[..r.size] + s[r.size..n] == tag + s[..n];
    case 5 =>
      f := Fixed32Field(tag, s[..4]);
  }

  lemma Turned(s: Bytes, at: nat, d: nat)
    requires var k := SkipFrom(s, at, d); k.status.Good? && k.end <= at + |s|
    ensures var h := HopAt(s, at, d);
      && h.status.Good? && h.advance <= |s|
      && SkipFrom(s, at, d) == if h.depth == 0 then Skipped(at + h.advance, Good)
                               else SkipFrom(s[h.advance..], at + h.advance, h.depth)
  {
    hide HopAt;
  }

  /** With d groups open, skipping that ends inside the input has run over complete fields and
      the closing tag of the innermost group, and then continues with d - 1 groups open. */
  lemma {:induction false} SkipBodySound(s: Bytes, at: nat, d: nat) returns (fs: seq<Field>, end: Bytes)
    requires d > 0 && at + |s| <= MAX_INT
    requires var k := SkipFrom(s, at, d); k.status.Good? && k.end <= at + |s|
    ensures AllWellFormed(fs) && IsTag(end, 4)
    ensures var n := |RenderAll(fs) + end|;
      && n <= |s| && s[..n] == RenderAll(fs) + end
      && SkipFrom(s, at, d) == if d == 1 then Skipped(at + n, Good) else SkipFrom(s[n..], at + n, d - 1)
    decreases |s|
  {
    hide SkipFrom, HopAt, HopOver, IsTag, Render, WellFormed, AllWellFormed, RenderAll;
    Turned(s, at, d);
    var h := HopAt(s, at, d);
    var wireType, tag := HopKinds(s, at, d);
    var front, tail := s[..h.advance], s[h.advance..];
    if wireType == 4 {
      fs, end := [], tag;
      NoFields();
      assert RenderAll(fs) + end == tag;
    } else if wireType == 3 {
      var body, close := SkipBodySound(tail, at + h.advance, d + 1);
      var n := |RenderAll(body) + close|;
      var f := GroupField(tag, body, close);
      GroupBytes(tag, body, close);
      fs, end := SkipBodySound(tail[n..], at + h.advance + n, d);
      assert s == Render(f) + tail[n..];
      fs := Prepend(f, fs, end, s, tail[n..]);
    } else {
      var f := LeafAt(tag, wireType, s[|tag|..], d);
      fs, end := SkipBodySound(tail, at + h.advance, d);
      assert s == Render(f) + tail;
      fs := Prepend(f, fs, end, s, tail);
    }
  }

  lemma NoFields()
    ensures AllWellFormed([]) && RenderAll([]) == []
  {
  }

  lemma GroupBytes(tag: Bytes, body: seq<Field>, end: Bytes)
    requires IsTag(tag, 3) && AllWellFormed(body) && IsTag(end, 4)
    ensures var f := GroupField(tag, body, end);
      WellFormed(f) && Render(f) == tag + (RenderAll(body) + end)
  {
    assert tag + RenderAll(body) + end == tag + (RenderAll(body) + end);
  }

  lemma Prepend(f: Field, fs: seq<Field>, end: Bytes, s: Bytes, tail: Bytes) returns (r: seq<Field>)
    requires WellFormed(f) && AllWellFormed(fs) && s == Render(f) + tail
    requires var n := |RenderAll(fs) + end|; n <= |tail| && tail[..n] == RenderAll(fs) + end
    ensures r == [f] + fs && AllWellFormed(r)
    ensures var n, m := |RenderAll(fs) + end|, |RenderAll(r) + end|;
      m == |Render(f)| + n && m <= |s| && s[..m] == RenderAll(r) + end && s[m..] == tail[n..]
  {
    r := [f] + fs;
    assert r[1..] == fs;
    assert RenderAll(r) + end == Render(f) + (RenderAll(fs) + end);
  }

  lemma SkipSound(s: Bytes) returns (f: Field)
    requires |s| <= MAX_INT && Skip(s).status.Good? && Skip(s).end <= |s|
    ensures WellFormed(f) && Render(f) == s[..Skip(s).end]
  {
    hide HopAt, HopOver, IsTag, Render, WellFormed, AllWellFormed, RenderAll;
    var h := HopAt(s, 0, 0);
    var wireType, tag := HopKinds(s, 0, 0);
    if wireType == 3 {
      var tail := s[h.advance..];
      var body, end := SkipBodySound(tail, h.advance, 1);
      f := GroupField(tag, body, end);
      GroupBytes(tag, body, end);
      assert s == tag + tail;
    } else {
      f := LeafAt(tag, wireType, s[|tag|..], 0);
      assert s[..h.advance] == tag + s[|tag|..h.advance];
    }
  }

  /** Skipping is exact: it ends after n bytes, inside the input, if and only if the first n bytes
      are one complete field with balanced groups. */
  lemma SkipExact(s: Bytes, n: nat)
    requires n <= |s| <= MAX_INT
    ensures Skip(s) == Skipped(n, Good) <==> exists f :: WellFormed(f) && Render(f) == s[..n]
  {
    hide SkipFrom, Render, WellFormed;
    if Skip(s) == Skipped(n, Good) {
      var f := SkipSound(s);
    }
    if f :| WellFormed(f) && Render(f) == s[..n] {
      SkipComplete(f, s[n..], 0, 0);
      assert s == s[..n] + s[n..];
    }
  }

  // Skipped to its very end.
  predicate Complete(s: Bytes) { Skip(s) == Skipped(|s|, Good) }

  /** What is skipped, by the wire type in the tag: 0 a varint, 1 eight bytes, 2 a length and that many bytes,
      5 four bytes. */
  lemma {:induction false} SkipByWireType(tag: Bytes, w: Bytes, p: Bytes, rest: Bytes)
    requires IsVarint(tag) && |tag| + |w| + |p| + |rest| <= MAX_INT
    ensures Value(tag) % 8 == 0 && IsVarint(w) ==> Skip(tag + w + rest) == Skipped(|tag| + |w|, Good)
    ensures Value(tag) % 8 == 1 && |p| == 8 ==> Skip(tag + p + rest) == Skipped(|tag| + 8, Good)
    ensures Value(tag) % 8 == 2 && IsVarint(w) && Value(w) % TWO64 == |p| ==>
              Skip(tag + w + p + rest) == Skipped(|tag| + |w| + |p|, Good)
    ensures Value(tag) % 8 == 5 && |p| == 4 ==> Skip(tag + p + rest) == Skipped(|tag| + 4, Good)
  {
    hide SkipFrom, Value, IsVarint;
    var wireType := Value(tag) % 8;
    if wireType == 0 && IsVarint(w) { SkipComplete(VarintField(tag, w), rest, 0, 0); }
    if wireType == 1 && |p| == 8 { SkipComplete(Fixed64Field(tag, p), rest, 0, 0); }
    if wireType == 2 && IsVarint(w) && Value(w) % TWO64 == |p| { SkipComplete(BytesField(tag, w, p), rest, 0, 0); }
    if wireType == 5 && |p| == 4 { SkipComplete(Fixed32Field(tag, p), rest, 0, 0); }
  }

  /** Groups: an opening tag (wire type 3) and a closing tag (4) are skipped together, whatever their field
      numbers; and a field x that is skipped to its end may be put behind the opening tag of such a group. */
  lemma {:induction false} SkipGroups(tag: Bytes, end: Bytes, x: Bytes, y: Bytes, rest: Bytes)
    requires IsVarint(tag) && Value(tag) % 8 == 3 && |tag| + |end| + |x| + |y| + |rest| <= MAX_INT
    ensures IsVarint(end) && Value(end) % 8 == 4 ==> Skip(tag + end + rest) == Skipped(|tag| + |end|, Good)
    ensures Complete(tag + y) && Complete(x) ==> Skip(tag + x + y + rest) == Skipped(|tag| + |x| + |y|, Good)
  {
    hide SkipFrom, Value, IsVarint, RenderAll, AllWellFormed;
    if IsVarint(end) && Value(end) % 8 == 4 {
      NoFields();
      GroupBytes(tag, [], end);
      assert tag + ([] + end) == tag + end;
      SkipComplete(GroupField(tag, [], end), rest, 0, 0);
    }
    if Complete(tag + y) && Complete(x) {
      var f := SkipSound(x);
      var g := SkipSound(tag + y);
      TagOfField(g, tag, y);
      GroupMore(g, f);
      var more := GroupField(tag, [f] + g.body, g.end);
      SkipComplete(more, rest, 0, 0);
      assert Render(more) == tag + x + y by {
        assert Render(g) == tag + (RenderAll(g.body) + g.end) by { GroupBytes(tag, g.body, g.end); }
        assert y == RenderAll(g.body) + g.end by { Prefix(tag, y); Prefix(tag, RenderAll(g.body) + g.end); }
        assert tag + (x + RenderAll(g.body) + g.end) == tag + x + (RenderAll(g.body) + g.end);
      }
    }
  }

  lemma {:induction false} TagOfField(g: Field, tag: Bytes, y: Bytes)
    requires WellFormed(g) && IsVarint(tag) && Render(g) == tag + y && Value(tag) % 8 == 3
    ensures g.GroupField? && g.tag == tag
  {
    hide ReadFrom, Value, IsVarint, Rest, Render, RenderAll, AllWellFormed;
    ReadTag(tag, y);
    ReadTag(g.tag, Rest(g));
    Prefix(tag, y);
    Prefix(g.tag, Rest(g));
  }

  lemma {:induction false} GroupMore(g: Field, f: Field)
    requires g.GroupField? && WellFormed(g) && WellFormed(f)
    ensures var fs := [f] + g.body;
      && AllWellFormed(fs) && RenderAll(fs) == Render(f) + RenderAll(g.body)
      && WellFormed(GroupField(g.tag, fs, g.end))
      && Render(GroupField(g.tag, fs, g.end)) == g.tag + (Render(f) + RenderAll(g.body) + g.end)
  {
    hide IsTag;
    var fs := [f] + g.body;
    assert fs[1..] == g.body;
    GroupBytes(g.tag, fs, g.end);
  }

  // ---------- what the Unmarshal methods share ----------

  // The tag of a top-level field, with the two checks made on it.
  datatype Header = Header(number: int32, wireType: nat, size: nat, status: Status)

  function HeaderAt(s: Bytes): (h: Header)
    ensures h.status.Good? ==> 1 <= h.size <= |s| && h.number > 0
  {
    var t := ReadFrom(s);
    if t.status.Bad? then Header(0, 0, 0, t.status) else
    var wire := t.value % TWO64;
    if wire % 8 == 4 then Header(0, 0, 0, Bad(EndGroupForNonGroup))
    else if Number(wire) <= 0 then Header(0, 0, 0, Bad(IllegalTag(Number(wire), wire)))
    else Header(Number(wire), wire % 8, t.size, Good)
  }

  // A length and that many bytes, read at index `at` of an input that ends with s.
  datatype Chunk = Chunk(payload: Bytes, size: nat, status: Status)

  function ChunkAt(s: Bytes, at: nat): (c: Chunk)
    ensures c.status.Good? ==> 1 <= c.size <= |s|
  {
    var r := ReadFrom(s);
    if r.status.Bad? then Chunk([], 0, r.status) else
    var end := r.size + r.value % TWO64;
    if at + end > MAX_INT then Chunk([], 0, Bad(InvalidLength))
    else if end > |s| then Chunk([], 0, Bad(UnexpectedEOF))
    else Chunk(s[r.size..end], end, Good)
  }

  // An unknown field: skip it, then check that the end is inside the input.
  function UnknownAt(s: Bytes, at: nat): (k: Skipped)
    ensures k.status.Good? ==> 1 <= k.end <= |s|
  {
    var k := Skip(s);
    SkipAdvances(s);
    if k.status.Bad? then k
    else if at + k.end > MAX_INT then Skipped(0, Bad(InvalidLength))
    else if k.end > |s| then Skipped(0, Bad(UnexpectedEOF))
    else k
  }

  lemma SkipAdvances(s: Bytes)
    ensures Skip(s).status.Good? ==> Skip(s).end >= 1
  {
    SkipFromAdvances(s, 0, 0);
  }

  lemma {:induction false} SkipFromAdvances(s: Bytes, at: nat, d: nat)
    ensures var k := SkipFrom(s, at, d); k.status.Good? ==> k.end > at
    decreases |s|
  {
    hide HopAt;
    var h := HopAt(s, at, d);
    if s != [] && h.status.Good? && h.advance <= |s| {
      SkipFromAdvances(s[h.advance..], at + h.advance, h.depth);
    }
  }

  method ReadHeader(data: Bytes, start: nat) returns (number: int32, wireType: nat, next: nat, status: Status)
    requires start <= |data|
    ensures var h := HeaderAt(data[start..]);
      status == h.status && (status.Good? ==> number == h.number && wireType == h.wireType && next == start + h.size)
  {
    hide ReadFrom, Number;
    var wire;
    wire, next, status := ReadUint64(data, start);
    number, wireType := Number(wire), wire % 8;
    if status.Good? {
      if wireType == 4 {
        status := Bad(EndGroupForNonGroup);
      } else if number <= 0 {
        status := Bad(IllegalTag(number, wire));
      }
    }
  }

  /** The length and the index are tested as wrapped ints; the tests detect exactly the true overflows. */
  method ReadChunk(data: Bytes, start: nat) returns (payload: Bytes, next: nat, status: Status)
    requires start <= |data| <= MAX_INT
    ensures var c := ChunkAt(data[start..], start);
      status == c.status && (status.Good? ==> payload == c.payload && next == start + c.size)
    ensures |payload| <= |data|
  {
    hide ReadFrom, WrapInt;
    var pattern;
    payload := [];
    pattern, next, status := ReadUint64(data, start);
    if status.Bad? {
      return;
    }
    var length := ToInt64(pattern);
    if length < 0 {
      return payload, next, Bad(InvalidLength);
    }
    WrapOnce(next + length);
    var post := WrapInt(next + length);
    if post < 0 {
      return payload, next, Bad(InvalidLength);
    }
    if post > |data| {
      return payload, next, Bad(UnexpectedEOF);
    }
    assert data[start..][next - start..post - start] == data[next..post];
    payload, next := data[next..post], post;
  }

  // skippy is never negative, so of the two checks on a negative index only the second is left.
  method SkipUnknown(data: Bytes, start: nat) returns (next: nat, status: Status)
    requires start <= |data| <= MAX_INT
    ensures var k := UnknownAt(data[start..], start);
      status == k.status && (status.Good? ==> next == start + k.end)
  {
    hide WrapInt, Skip;
    var skippy;
    skippy, status := SkipField(data[start..]);
    next := start;
    if status.Bad? {
      return;
    }
    WrapOnce(start + skippy);
    if WrapInt(start + skippy) < 0 {
      return next, Bad(InvalidLength);
    }
    if WrapInt(start + skippy) > |data| {
      return next, Bad(UnexpectedEOF);
    }
    next := WrapInt(start + skippy);
  }

  // The wire type that a field's shape stands for.
  function KindOf(f: Field): (k: nat)
    ensures WellFormed(f) ==> IsTag(f.tag, k)
  {
    match f
    case VarintField(_, _) => 0
    case Fixed64Field(_, _) => 1
    case BytesField(_, _, _) => 2
    case GroupField(_, _, _) => 3
    case Fixed32Field(_, _) => 5
  }

  lemma {:induction false} HeaderOfTag(tag: Bytes, wireType: nat, rest: Bytes)
    requires IsTag(tag, wireType) && wireType != 4 && Number(Value(tag) % TWO64) > 0
    ensures HeaderAt(tag + rest) == Header(Number(Value(tag) % TWO64), wireType, |tag|, Good)
  {
    hide ReadFrom, Value, Number, IsVarint;
    ReadTag(tag, rest);
    WireTypeOf(Value(tag));
  }

  lemma {:induction false} HeaderComplete(f: Field, rest: Bytes)
    requires WellFormed(f) && NumberOf(f) > 0
    ensures HeaderAt(Render(f) + rest) == Header(NumberOf(f), KindOf(f), |f.tag|, Good)
    ensures (Render(f) + rest)[|f.tag|..] == Rest(f) + rest
  {
    hide HeaderAt, Value, Number, IsTag, Render, Rest, WellFormed;
    var body := Rest(f) + rest;
    assert Render(f) + rest == f.tag + body;
    HeaderOfTag(f.tag, KindOf(f), body);
    Prefix(f.tag, body);
  }

  lemma HeaderSound(s: Bytes) returns (tag: Bytes)
    requires HeaderAt(s).status.Good?
    ensures var h := HeaderAt(s);
      tag == s[..h.size] && IsTag(tag, h.wireType) && Number(Value(tag) % TWO64) == h.number
  {
    hide ReadFrom, Value, Number, IsVarint;
    ReadExact(s);
    tag := s[..HeaderAt(s).size];
    WireTypeOf(Value(tag));
  }

  lemma ChunkComplete(f: Field, rest: Bytes, at: nat)
    requires WellFormed(f) && f.BytesField? && at + |Rest(f)| <= MAX_INT
    ensures ChunkAt(Rest(f) + rest, at) == Chunk(f.payload, |Rest(f)|, Good)
  {
    hide ReadFrom, Value, IsVarint;
    var s := f.length + (f.payload + rest);
    assert Rest(f) + rest == s;
    ReadTag(f.length, f.payload + rest);
    assert s[|f.length|..|f.length| + |f.payload|] == f.payload;
  }

  lemma ChunkSound(s: Bytes, at: nat, tag: Bytes) returns (f: Field)
    requires ChunkAt(s, at).status.Good? && IsTag(tag, 2)
    ensures var c := ChunkAt(s, at);
      f.BytesField? && f.tag == tag && f.payload == c.payload && WellFormed(f) && Render(f) == tag + s[..c.size]
  {
    hide ReadFrom, Value, IsVarint;
    var c, r := ChunkAt(s, at), ReadFrom(s);
    ReadExact(s);
    f := BytesField(tag, s[..r.size], c.payload);
    assert tag + s[..r.size] + s[r.size..c.size] == tag + s[..c.size];
  }

  lemma UnknownComplete(f: Field, rest: Bytes, at: nat)
    requires WellFormed(f) && at + |Render(f)| <= MAX_INT
    ensures UnknownAt(Render(f) + rest, at) == Skipped(|Render(f)|, Good)
  {
    hide SkipFrom, Render, WellFormed;
    SkipComplete(f, rest, 0, 0);
  }

  lemma UnknownSound(s: Bytes, at: nat, tag: Bytes) returns (f: Field)
    requires |s| <= MAX_INT && UnknownAt(s, at).status.Good?
    requires |tag| <= |s| && tag == s[..|tag|] && IsVarint(tag)
    ensures WellFormed(f) && f.tag == tag && Render(f) == s[..UnknownAt(s, at).end]
  {
    hide SkipFrom, Value, IsVarint, ReadFrom;
    f := SkipSound(s);
    // Both tags are varints at the front of s, and reading finds only one.
    ReadTag(tag, s[|tag|..]);
    assert s == tag + s[|tag|..];
    var n := Skip(s).end;
    ReadTag(f.tag, Rest(f) + s[n..]);
    assert s == f.tag + (Rest(f) + s[n..]) by {
      assert s == Render(f) + s[n..];
    }
    assert tag == s[..|tag|] == f.tag;
  }
}
