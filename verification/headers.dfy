/** The header collection of a frame: a JavaScript `Map<string, string>`, that is
    an insertion-ordered list of key/value entries with unique keys. Lookups go
    through the Dafny `map` the entries denote; the order is what serialisation
    iterates. */
module Headers {
  import opened Wrappers

  /** The key of entry `i`. */
  function KeyAt(h: seq<(string, string)>, i: nat): string
    requires i < |h|
  {
    h[i].0
  }

  /** No two entries share a key. The quantifier is stated over `KeyAt`, so it is
      instantiated only where a proof names the entries it compares. */
  predicate UniqueKeys(h: seq<(string, string)>)
  {
    forall i, j :: 0 <= i < j < |h| ==> KeyAt(h, i) != KeyAt(h, j)
  }

  lemma DistinctKeys(h: seq<(string, string)>, i: nat, j: nat)
    requires UniqueKeys(h) && i < |h| && j < |h| && i != j
    ensures h[i].0 != h[j].0
  {
    if i < j {
      assert KeyAt(h, i) != KeyAt(h, j);
    } else {
      assert KeyAt(h, j) != KeyAt(h, i);
    }
  }

  /** Entries with the keys of a map, position by position, have unique keys. */
  lemma SameKeysUnique(h: seq<(string, string)>, r: seq<(string, string)>)
    requires UniqueKeys(h) && |r| == |h|
    requires forall j :: 0 <= j < |h| ==> r[j].0 == h[j].0
    ensures UniqueKeys(r)
  {
    forall i, j | 0 <= i < j < |r|
      ensures KeyAt(r, i) != KeyAt(r, j)
    {
      DistinctKeys(h, i, j);
    }
  }

  /** Every slice of a map has unique keys. */
  lemma SliceUnique(h: seq<(string, string)>, lo: nat, hi: nat)
    requires UniqueKeys(h) && lo <= hi <= |h|
    ensures UniqueKeys(h[lo..hi])
  {
    var r := h[lo..hi];
    forall i, j | 0 <= i < j < |r|
      ensures KeyAt(r, i) != KeyAt(r, j)
    {
      DistinctKeys(h, lo + i, lo + j);
    }
  }

  /** Entries in insertion order; a key occurs at most once. */
  type HeaderMap = h: seq<(string, string)> | UniqueKeys(h)

  function Keys(h: seq<(string, string)>): set<string>
  {
    set i | 0 <= i < |h| :: h[i].0
  }

  /** The position of key `k`, or -1 when it is absent. */
  function KeyIndex(h: seq<(string, string)>, k: string): (r: int)
    ensures -1 <= r < |h|
    ensures r >= 0 ==> h[r].0 == k
    ensures r < 0 ==> forall i :: 0 <= i < |h| ==> h[i].0 != k
    ensures r >= 0 <==> k in Keys(h)
  {
    if h == [] then -1
    else if h[|h| - 1].0 == k then |h| - 1
    else
      var r := KeyIndex(h[..|h| - 1], k);
      assert r >= 0 ==> h[r].0 in Keys(h);
      r
  }

  /** The key/value mapping the entries denote. */
  function ToMap(h: HeaderMap): (m: map<string, string>)
    ensures m.Keys == Keys(h)
    ensures forall i :: 0 <= i < |h| ==> m[h[i].0] == h[i].1
  {
    if h == [] then map[]
    else
      SliceUnique(h, 0, |h| - 1);
      LastKeyDistinct(h);
      var init: HeaderMap := h[..|h| - 1];
      var m := ToMap(init)[h[|h| - 1].0 := h[|h| - 1].1];
      assert Keys(h) == Keys(init) + {h[|h| - 1].0} by {
        forall k | k in Keys(h) ensures k in Keys(init) + {h[|h| - 1].0} {
          var i :| 0 <= i < |h| && h[i].0 == k;
          if i < |h| - 1 { assert init[i] == h[i]; }
        }
      }
      m
  }

  lemma LastKeyDistinct(h: HeaderMap)
    requires |h| > 0
    ensures forall i :: 0 <= i < |h| - 1 ==> h[i].0 != h[|h| - 1].0
  {
    forall i | 0 <= i < |h| - 1
      ensures h[i].0 != h[|h| - 1].0
    {
      DistinctKeys(h, i, |h| - 1);
    }
  }

  /** `Map.get`: the value stored under `k`, if any. */
  function Get(h: HeaderMap, k: string): (r: Option<string>)
    ensures r.Some? <==> k in Keys(h)
    ensures r.Some? ==> r.value == ToMap(h)[k]
  {
    if k in ToMap(h) then Some(ToMap(h)[k]) else None
  }

  /** Overwrites the value of the entry at position `i`. */
  function Replace(h: HeaderMap, i: nat, v: string): (r: HeaderMap)
    requires i < |h|
    ensures |r| == |h| && r[i] == (h[i].0, v)
    ensures forall j :: 0 <= j < |h| && j != i ==> r[j] == h[j]
    ensures ToMap(r) == ToMap(h)[h[i].0 := v]
  {
    var r: seq<(string, string)> := h[i := (h[i].0, v)];
    assert forall j :: 0 <= j < |h| ==> r[j].0 == h[j].0;
    SameKeysUnique(h, r);
    var r': HeaderMap := r;
    ReplaceMap(h, r', i, v);
    r'
  }

  lemma ReplaceMap(h: HeaderMap, r: HeaderMap, i: nat, v: string)
    requires i < |h| && |r| == |h| && r[i] == (h[i].0, v)
    requires forall j :: 0 <= j < |h| && j != i ==> r[j] == h[j]
    ensures ToMap(r) == ToMap(h)[h[i].0 := v]
  {
    var a, b := ToMap(r), ToMap(h)[h[i].0 := v];
    assert a.Keys == b.Keys by {
      forall x | x in Keys(h) ensures x in Keys(r) {
        var j :| 0 <= j < |h| && h[j].0 == x;
        assert r[j].0 == x;
      }
      forall x | x in Keys(r) ensures x in Keys(h) {
        var j :| 0 <= j < |r| && r[j].0 == x;
        assert h[j].0 == x;
      }
    }
    forall x | x in a ensures a[x] == b[x] {
      var j :| 0 <= j < |r| && r[j].0 == x;
      if j != i { assert r[j] == h[j]; }
    }
  }

  /** Adds an entry for a key that is not present, as the last entry. */
  function Append(h: HeaderMap, k: string, v: string): (r: HeaderMap)
    requires k !in Keys(h)
    ensures r == h + [(k, v)]
    ensures ToMap(r) == ToMap(h)[k := v]
  {
    AppendUnique(h, k, v);
    var r: HeaderMap := h + [(k, v)];
    assert r[..|r| - 1] == h;
    r
  }

  lemma AppendUnique(h: HeaderMap, k: string, v: string)
    requires k !in Keys(h)
    ensures UniqueKeys(h + [(k, v)])
  {
    var r := h + [(k, v)];
    forall i, j | 0 <= i < j < |r|
      ensures KeyAt(r, i) != KeyAt(r, j)
    {
      if j < |h| {
        DistinctKeys(h, i, j);
      } else {
        assert r[i].0 == h[i].0 && h[i].0 in Keys(h);
      }
    }
  }

  /** `Map.set`: stores `v` under `k`, in place when `k` is present (keeping its
      position) and as a new last entry otherwise. */
  function Set(h: HeaderMap, k: string, v: string): (r: HeaderMap)
    ensures ToMap(r) == ToMap(h)[k := v]
  {
    var i := KeyIndex(h, k);
    if i >= 0 then Replace(h, i, v) else Append(h, k, v)
  }

  /** After `Set(h, k, v)`: `k` maps to `v`; every other key keeps its value and
      its position; an existing `k` keeps its position and a new `k` comes last. */
  lemma SetHeaderSpec(h: HeaderMap, k: string, v: string, other: string)
    requires other != k
    ensures Get(Set(h, k, v), k) == Some(v)
    ensures Get(Set(h, k, v), other) == Get(h, other)
    ensures k in Keys(h) ==> |Set(h, k, v)| == |h| && Set(h, k, v)[KeyIndex(h, k)] == (k, v)
    ensures k !in Keys(h) ==> Set(h, k, v) == h + [(k, v)]
    ensures forall i :: 0 <= i < |h| && h[i].0 != k ==> Set(h, k, v)[i] == h[i]
  {
  }

  /** Stores each entry of `ps` in turn, as a loop of `Map.set` calls does. */
  function SetAll(acc: HeaderMap, ps: seq<(string, string)>): HeaderMap
    decreases |ps|
  {
    if ps == [] then acc else SetAll(Set(acc, ps[0].0, ps[0].1), ps[1..])
  }

  lemma {:induction false} SetAllSnoc(acc: HeaderMap, ps: seq<(string, string)>, p: (string, string))
    ensures SetAll(acc, ps + [p]) == Set(SetAll(acc, ps), p.0, p.1)
    decreases |ps|
  {
    if ps == [] {
      assert ps + [p] == [p];
    } else {
      assert (ps + [p])[1..] == ps[1..] + [p];
      SetAllSnoc(Set(acc, ps[0].0, ps[0].1), ps[1..], p);
    }
  }

  /** Storing the entries of a map `h` one by one on top of `acc` (a
      `forEach` of `set` calls) yields the union of the two mappings, with `h`
      winning on the keys they share. */
  lemma {:induction false} SetAllOverlay(acc: HeaderMap, h: HeaderMap)
    ensures ToMap(SetAll(acc, h)) == ToMap(acc) + ToMap(h)
    decreases |h|
  {
    if h != [] {
      SliceUnique(h, 0, |h| - 1);
      var init: HeaderMap := h[..|h| - 1];
      var p := h[|h| - 1];
      assert h == init + [p];
      SetAllSnoc(acc, init, p);
      SetAllOverlay(acc, init);
      var before := SetAll(acc, init);
      calc {
        ToMap(SetAll(acc, h));
        ToMap(Set(before, p.0, p.1));
        ToMap(before)[p.0 := p.1];
        (ToMap(acc) + ToMap(init))[p.0 := p.1];
        { UnionUpdate(ToMap(acc), ToMap(init), p.0, p.1); }
        ToMap(acc) + ToMap(init)[p.0 := p.1];
        ToMap(acc) + ToMap(h);
      }
    }
  }

  lemma UnionUpdate(a: map<string, string>, b: map<string, string>, k: string, v: string)
    ensures (a + b)[k := v] == a + b[k := v]
  {
  }

  /** Storing entries whose keys are all new and pairwise distinct appends them
      in order. */
  lemma {:induction false} SetAllFresh(acc: HeaderMap, ps: seq<(string, string)>)
    requires UniqueKeys(ps)
    requires forall i :: 0 <= i < |ps| ==> ps[i].0 !in Keys(acc)
    ensures acc + ps == SetAll(acc, ps)
    decreases |ps|
  {
    if ps != [] {
      var k0, v0 := ps[0].0, ps[0].1;
      assert k0 !in Keys(acc);
      var acc' := Append(acc, k0, v0);
      assert Set(acc, k0, v0) == acc' by {
        assert KeyIndex(acc, k0) < 0;
      }
      calc {
        SetAll(acc, ps);
        SetAll(acc', ps[1..]);
        { FreshTail(acc, ps); SetAllFresh(acc', ps[1..]); }
        acc' + ps[1..];
        { assert ps == [ps[0]] + ps[1..]; }
        acc + ps;
      }
    }
  }

  lemma FreshTail(acc: HeaderMap, ps: seq<(string, string)>)
    requires |ps| > 0 && UniqueKeys(ps)
    requires forall i :: 0 <= i < |ps| ==> ps[i].0 !in Keys(acc)
    ensures UniqueKeys(ps[1..])
    ensures forall i :: 0 <= i < |ps[1..]| ==> ps[1..][i].0 !in Keys(acc + [ps[0]])
  {
    var rest := ps[1..];
    assert Keys(acc + [ps[0]]) == Keys(acc) + {ps[0].0} by {
      var a: HeaderMap := Append(acc, ps[0].0, ps[0].1);
      assert ToMap(a).Keys == ToMap(acc).Keys + {ps[0].0};
    }
    SliceUnique(ps, 1, |ps|);
    assert ps[1..|ps|] == rest;
    forall i | 0 <= i < |rest| ensures rest[i].0 !in Keys(acc + [ps[0]]) {
      assert rest[i] == ps[i + 1];
      DistinctKeys(ps, 0, i + 1);
    }
  }

  /** The value a key has after storing `ps`: its last entry in `ps`, or its value
      in `acc` when `ps` does not mention it. */
  function LastValue(acc: HeaderMap, ps: seq<(string, string)>, k: string): Option<string>
    decreases |ps|
  {
    if ps == [] then Get(acc, k)
    else if ps[|ps| - 1].0 == k then Some(ps[|ps| - 1].1)
    else LastValue(acc, ps[..|ps| - 1], k)
  }

  /** With repeated `Map.set`, the last entry for a key wins. */
  lemma {:induction false} SetAllLastWins(acc: HeaderMap, ps: seq<(string, string)>, k: string)
    ensures Get(SetAll(acc, ps), k) == LastValue(acc, ps, k)
    decreases |ps|
  {
    if ps != [] {
      var init, p := ps[..|ps| - 1], ps[|ps| - 1];
      assert ps == init + [p];
      SetAllSnoc(acc, init, p);
      SetAllLastWins(acc, init, k);
    }
  }

  /** Reversing the entries does not change the mapping they denote. */
  lemma ReverseSameMap(h: HeaderMap, r: HeaderMap)
    requires |r| == |h|
    requires forall i :: 0 <= i < |h| ==> r[i] == h[|h| - 1 - i]
    ensures ToMap(r) == ToMap(h)
  {
    assert Keys(r) == Keys(h) by {
      forall k | k in Keys(h) ensures k in Keys(r) {
        var i :| 0 <= i < |h| && h[i].0 == k;
        assert r[|h| - 1 - i] == h[i];
      }
      forall k | k in Keys(r) ensures k in Keys(h) {
        var i :| 0 <= i < |r| && r[i].0 == k;
        assert h[|h| - 1 - i] == r[i];
      }
    }
    forall k | k in ToMap(h) ensures ToMap(r)[k] == ToMap(h)[k] {
      var i :| 0 <= i < |h| && h[i].0 == k;
      assert r[|h| - 1 - i] == h[i];
    }
  }
}
