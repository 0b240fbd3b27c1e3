/** The key-value store the keeper writes to, as far as it is assumed here: a map from byte keys
    to byte values, and an iterator that visits the keys below a prefix once each in ascending order. */
module ByteStore {
  import opened Words

  type KV = map<Bytes, Bytes>

  // Ascending byte order: a proper prefix comes first.
  predicate Less(a: Bytes, b: Bytes)
  {
    b != [] && (a == [] || a[0] < b[0] || (a[0] == b[0] && Less(a[1..], b[1..])))
  }

  /** The order compares at the first difference: a comes before b if and only if, behind a common front,
      a has ended or has the smaller byte. */
  lemma {:induction false} LessExact(a: Bytes, b: Bytes)
    ensures Less(a, b)
       <==> exists i :: 0 <= i <= |a| && i < |b| && a[..i] == b[..i] && (i == |a| || a[i] < b[i])
  {
    if b != [] && a != [] && a[0] == b[0] {
      var x, y := a[1..], b[1..];
      LessExact(x, y);
      if i :| 0 <= i <= |x| && i < |y| && x[..i] == y[..i] && (i == |x| || x[i] < y[i]) {
        assert a[..i + 1] == [a[0]] + x[..i] == b[..i + 1];
      }
      if i :| 0 <= i <= |a| && i < |b| && a[..i] == b[..i] && (i == |a| || a[i] < b[i]) {
        assert i > 0;
        assert x[..i - 1] == a[..i][1..] == b[..i][1..] == y[..i - 1];
      }
    } else if b != [] {
      assert a[..0] == b[..0];
      forall i | 0 <= i <= |a| && i < |b| && a[..i] == b[..i] ensures i > 0 ==> a[0] == b[0] {
        SameFront(a, b, i);
      }
    }
  }

  lemma SameFront(a: Bytes, b: Bytes, i: nat)
    requires i <= |a| && i <= |b| && a[..i] == b[..i]
    ensures i > 0 ==> a[0] == b[0]
  {
    if i > 0 { assert a[0] == a[..i][0] && b[0] == b[..i][0]; }
  }

  // The same, as a predicate for use in other statements.
  ghost predicate Precedes(a: Bytes, b: Bytes)
  {
    exists i :: 0 <= i <= |a| && i < |b| && a[..i] == b[..i] && (i == |a| || a[i] < b[i])
  }

  lemma {:induction false} LessTrichotomy(a: Bytes, b: Bytes)
    ensures Less(a, b) || a == b || Less(b, a)
    ensures !(Less(a, b) && Less(b, a)) && !Less(a, a)
  {
    if a != [] {
      LessTrichotomy(a[1..], a[1..]);
      if b != [] {
        LessTrichotomy(a[1..], b[1..]);
        if a[0] == b[0] && a[1..] == b[1..] {
          assert a == [a[0]] + a[1..] == b;
        }
      }
    }
  }

  lemma {:induction false} LessTransitive(a: Bytes, b: Bytes, c: Bytes)
    requires Less(a, b) && Less(b, c)
    ensures Less(a, c)
  {
    if a != [] && a[0] == b[0] && b[0] == c[0] {
      LessTransitive(a[1..], b[1..], c[1..]);
    }
  }

  lemma {:induction false} LessBelowPrefix(p: Bytes, a: Bytes, b: Bytes)
    ensures Less(p + a, p + b) <==> Less(a, b)
  {
    if p == [] {
      assert p + a == a && p + b == b;
    } else {
      assert (p + a)[1..] == p[1..] + a && (p + b)[1..] == p[1..] + b;
      LessBelowPrefix(p[1..], a, b);
    }
  }

  predicate IsLeast(k: Bytes, ks: set<Bytes>) { k in ks && forall j :: j in ks ==> j == k || Less(k, j) }

  lemma {:induction false} LeastExists(ks: set<Bytes>)
    requires ks != {}
    ensures exists k :: IsLeast(k, ks)
    decreases |ks|
  {
    var x :| x in ks;
    var rest := ks - {x};
    if rest == {} {
      assert forall j :: j in ks ==> j == x || j in rest;
      assert IsLeast(x, ks);
    } else {
      LeastExists(rest);
      var k :| IsLeast(k, rest);
      LessTrichotomy(x, k);
      if Less(x, k) {
        forall j | j in ks ensures j == x || Less(x, j) {
          if j != x && j != k { LessTransitive(x, k, j); }
        }
        assert IsLeast(x, ks);
      } else {
        assert IsLeast(k, ks);
      }
    }
  }

  lemma LeastUnique(a: Bytes, b: Bytes, ks: set<Bytes>)
    requires IsLeast(a, ks) && IsLeast(b, ks)
    ensures a == b
  {
    LessTrichotomy(a, b);
  }

  function Least(ks: set<Bytes>): (k: Bytes)
    requires ks != {}
    ensures IsLeast(k, ks)
  {
    LeastExists(ks);
    assert forall a, b :: IsLeast(a, ks) && IsLeast(b, ks) ==> a == b by {
      forall a, b | IsLeast(a, ks) && IsLeast(b, ks) ensures a == b { LeastUnique(a, b, ks); }
    }
    var k :| IsLeast(k, ks);
    k
  }

  predicate Ascending(ks: seq<Bytes>) { forall i, j :: 0 <= i < j < |ks| ==> Less(ks[i], ks[j]) }

  function Sorted(ks: set<Bytes>): (r: seq<Bytes>)
    ensures Ascending(r) && forall k :: k in r <==> k in ks
    decreases |ks|
  {
    if ks == {} then [] else
    var k := Least(ks);
    var rest := Sorted(ks - {k});
    assert forall j :: 0 <= j < |rest| ==> rest[j] in ks - {k};
    [k] + rest
  }

  predicate Below(prefix: Bytes, k: Bytes) { prefix <= k }

  // The keys a prefix iterator visits, in its order.
  function KeysBelow(kv: KV, prefix: Bytes): (r: seq<Bytes>)
    ensures Ascending(r) && forall k :: k in r <==> k in kv && Below(prefix, k)
  {
    Sorted(set k | k in kv && Below(prefix, k))
  }
}
