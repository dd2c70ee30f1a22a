/** Integer grid coordinates ordered as `std::pair<int, int>` orders them, and the order in
    which a `std::map` keyed by them is swept, cell after cell. */
module Grid {

  import opened Sequences

  /** A grid cell `(x, y)`. */
  type Pos = (int, int)

  /** Lexicographic order of `std::pair`: by `x`, then by `y`. */
  predicate Before(a: Pos, b: Pos) {
    a.0 < b.0 || (a.0 == b.0 && a.1 < b.1)
  }

  /** `k` is the smallest key of `s`. */
  predicate IsLeast(k: Pos, s: set<Pos>) {
    k in s && forall j {:trigger Before(k, j)} :: j in s && j != k ==> Before(k, j)
  }

  /** Every non-empty finite set of cells has a smallest one. */
  lemma {:induction false} LeastExists(s: set<Pos>)
    requires s != {}
    ensures exists k :: IsLeast(k, s)
    decreases s
  {
    var x :| x in s;
    if s == {x} {
      assert IsLeast(x, s);
    } else {
      LeastExists(s - {x});
      var k :| IsLeast(k, s - {x});
      if Before(x, k) {
        forall j | j in s && j != x
          ensures Before(x, j)
        {
          if j != k {
            assert Before(k, j);
          }
        }
        assert IsLeast(x, s);
      } else {
        assert IsLeast(k, s);
      }
    }
  }

  /** The smallest key of `s`. */
  ghost function Least(s: set<Pos>): (k: Pos)
    requires s != {}
    ensures IsLeast(k, s)
  {
    LeastExists(s);
    var k :| IsLeast(k, s); k
  }

  lemma LeastUnique(k: Pos, s: set<Pos>)
    requires IsLeast(k, s)
    ensures k == Least(s)
  {
    var l := Least(s);
    assert k == l || Before(k, l);
    assert k == l || Before(l, k);
  }

  /** The keys of `s` in the order a `std::map` iterates them. */
  ghost function SortedKeys(s: set<Pos>): seq<Pos>
    decreases s
  {
    if s == {} then []
    else
      var k := Least(s);
      [k] + SortedKeys(s - {k})
  }

  /** The sweep lists every key of `s` and nothing else, in strictly ascending order. */
  lemma {:induction false} SortedKeysOrdered(s: set<Pos>)
    ensures forall k :: k in SortedKeys(s) <==> k in s
    ensures forall i, j :: 0 <= i < j < |SortedKeys(s)| ==> Before(SortedKeys(s)[i], SortedKeys(s)[j])
    decreases s
  {
    if s != {} {
      var k := Least(s);
      SortedKeysOrdered(s - {k});
      var rest := SortedKeys(s - {k});
      assert SortedKeys(s) == [k] + rest;
      assert forall j :: 0 <= j < |rest| ==> rest[j] in s - {k};
    }
  }

  /** A sweep that has passed the keys `done` and has `s` left goes on with the smallest of `s`. */
  lemma SortedKeysStep(done: seq<Pos>, s: set<Pos>, k: Pos)
    requires IsLeast(k, s)
    ensures done + SortedKeys(s) == (done + [k]) + SortedKeys(s - {k})
  {
    LeastUnique(k, s);
    var rest := SortedKeys(s - {k});
    assert SortedKeys(s) == [k] + rest;
    assert done + ([k] + rest) == (done + [k]) + rest;
  }

  /** The list stored at `p`, or the empty list `operator[]` would create there. */
  function Cell<V>(m: map<Pos, seq<V>>, p: Pos): seq<V> {
    if p in m then m[p] else []
  }

  /** The entries of the cells `keys`, cell after cell, each cell in its own order. */
  function Visits<V>(m: map<Pos, seq<V>>, keys: seq<Pos>): seq<V> {
    if keys == [] then [] else Cell(m, keys[0]) + Visits(m, keys[1..])
  }

  lemma {:induction false} VisitsAppend<V>(m: map<Pos, seq<V>>, a: seq<Pos>, b: seq<Pos>)
    ensures Visits(m, a + b) == Visits(m, a) + Visits(m, b)
  {
    if a == [] {
      assert a + b == b;
    } else {
      assert (a + b)[1..] == a[1..] + b;
      VisitsAppend(m, a[1..], b);
    }
  }

  /** The entries of the whole map in sweep order: ascending keys, each list front to back. */
  ghost function Sweep<V>(m: map<Pos, seq<V>>): seq<V> {
    Visits(m, SortedKeys(m.Keys))
  }

  /** All entries of the cells in `s`, counted with multiplicity. */
  ghost function Occupants<V>(m: map<Pos, seq<V>>, s: set<Pos>): multiset<V>
    requires s <= m.Keys
    decreases s
  {
    if s == {} then multiset{}
    else
      var k := Least(s);
      multiset(m[k]) + Occupants(m, s - {k})
  }

  /** The sweep of the cells `s` holds exactly their entries. */
  lemma {:induction false} SweepHoldsOccupants<V>(m: map<Pos, seq<V>>, s: set<Pos>)
    requires s <= m.Keys
    ensures multiset(Visits(m, SortedKeys(s))) == Occupants(m, s)
    decreases s
  {
    if s != {} {
      var k := Least(s);
      SweepHoldsOccupants(m, s - {k});
      var rest := SortedKeys(s - {k});
      assert SortedKeys(s) == [k] + rest;
      assert ([k] + rest)[1..] == rest;
    }
  }

  lemma {:induction false} OccupantsAgree<V>(m1: map<Pos, seq<V>>, m2: map<Pos, seq<V>>, s: set<Pos>)
    requires s <= m1.Keys && s <= m2.Keys
    requires forall k :: k in s ==> m1[k] == m2[k]
    ensures Occupants(m1, s) == Occupants(m2, s)
    decreases s
  {
    if s != {} {
      OccupantsAgree(m1, m2, s - {Least(s)});
    }
  }

  /** Any one cell can be taken out of the count first: the count does not depend on the order. */
  lemma {:induction false} OccupantsSplit<V>(m: map<Pos, seq<V>>, s: set<Pos>, q: Pos)
    requires s <= m.Keys && q in s
    ensures Occupants(m, s) == multiset(m[q]) + Occupants(m, s - {q})
    decreases s
  {
    var k := Least(s);
    if q != k {
      OccupantsSplit(m, s - {k}, q);
      LeastUnique(k, s - {q});
      assert s - {k} - {q} == s - {q} - {k};
    }
  }

  /** Storing the list `v` at `p` changes the swept entries by exactly the old list at `p`
      out and `v` in; every other cell contributes as before, and an empty cell nothing. */
  lemma SweepAfterStore<V>(m: map<Pos, seq<V>>, p: Pos, v: seq<V>)
    ensures multiset(Sweep(m[p := v])) + multiset(Cell(m, p)) == multiset(Sweep(m)) + multiset(v)
  {
    var m' := m[p := v];
    var others := m.Keys - {p};
    assert m'.Keys - {p} == others;
    SweepHoldsOccupants(m', m'.Keys);
    SweepHoldsOccupants(m, m.Keys);
    OccupantsSplit(m', m'.Keys, p);
    OccupantsAgree(m', m, others);
    var rest := Occupants(m, others);
    assert multiset(Sweep(m')) == multiset(v) + rest;
    if p in m {
      OccupantsSplit(m, m.Keys, p);
      assert multiset(Sweep(m)) == multiset(m[p]) + rest;
    } else {
      assert others == m.Keys;
      assert multiset(Sweep(m)) == rest;
    }
  }

  lemma Cancel<V>(a: multiset<V>, b: multiset<V>, c: multiset<V>)
    requires a + c == b + c
    ensures a == b
  {
    assert forall x :: a[x] == (a + c)[x] - c[x];
    assert forall x :: b[x] == (b + c)[x] - c[x];
  }

  /** `add_entity`'s change to the index: `e` appended to the list at `p`. */
  function Appended<V>(m: map<Pos, seq<V>>, p: Pos, e: V): (r: map<Pos, seq<V>>)
    ensures r.Keys == m.Keys + {p}
    ensures Cell(r, p) == Cell(m, p) + [e]
  {
    m[p := Cell(m, p) + [e]]
  }

  /** `remove_entity`'s change to the index: the first `e` erased from the list at `p`,
      which now exists even if it did not before. */
  function Removed<V(==)>(m: map<Pos, seq<V>>, p: Pos, e: V): (r: map<Pos, seq<V>>)
    ensures r.Keys == m.Keys + {p}
    ensures Cell(r, p) == RemoveFirst(Cell(m, p), e)
  {
    m[p := RemoveFirst(Cell(m, p), e)]
  }

  /** Appending or erasing at `p` leaves the list of every other cell as it was. */
  lemma OtherCellsKept<V>(m: map<Pos, seq<V>>, p: Pos, e: V, q: Pos)
    requires q != p
    ensures Cell(Appended(m, p, e), q) == Cell(m, q)
    ensures Cell(Removed(m, p, e), q) == Cell(m, q)
  {
  }

  /** After an append the sweep meets `e` once more and everything else as often as before. */
  lemma SweepAfterAppend<V>(m: map<Pos, seq<V>>, p: Pos, e: V)
    ensures multiset(Sweep(Appended(m, p, e))) == multiset(Sweep(m)) + multiset{e}
  {
    var c := Cell(m, p);
    SweepAfterStore(m, p, c + [e]);
    assert multiset(c + [e]) == multiset(c) + multiset{e};
    Cancel(multiset(Sweep(Appended(m, p, e))), multiset(Sweep(m)) + multiset{e}, multiset(c));
  }

  /** After a removal the sweep meets `e` once less if `e` was at `p`, and is otherwise
      unchanged in content, even when an empty cell was created. */
  lemma SweepAfterRemoval<V>(m: map<Pos, seq<V>>, p: Pos, e: V)
    ensures e in Cell(m, p) ==> multiset(Sweep(Removed(m, p, e))) + multiset{e} == multiset(Sweep(m))
    ensures e !in Cell(m, p) ==> multiset(Sweep(Removed(m, p, e))) == multiset(Sweep(m))
  {
    var c := Cell(m, p);
    var kept := RemoveFirst(c, e);
    SweepAfterStore(m, p, kept);
    var after := multiset(Sweep(Removed(m, p, e)));
    if e in c {
      assert multiset(c) == multiset(kept) + multiset{e};
      Cancel(after + multiset{e}, multiset(Sweep(m)), multiset(kept));
    } else {
      Cancel(after, multiset(Sweep(m)), multiset(c));
    }
  }

  /** Adding an entity that is not yet at `p` and removing it again restores the list at `p`;
      a second removal finds nothing. */
  lemma {:induction false} AddThenRemove<V>(m: map<Pos, seq<V>>, p: Pos, e: V)
    requires e !in Cell(m, p)
    ensures e in Cell(Appended(m, p, e), p)
    ensures Removed(Appended(m, p, e), p, e) == m[p := Cell(m, p)]
    ensures e !in Cell(Removed(Appended(m, p, e), p, e), p)
  {
    var c := Cell(m, p);
    assert RemoveFirst(c + [e], e) == c by {
      assert (c + [e])[..|c|] == c && (c + [e])[|c| + 1..] == [];
      RemoveFirstAt(c + [e], e, |c|);
    }
    var added := Appended(m, p, e);
    assert Removed(added, p, e) == m[p := c] by {
      assert Removed(added, p, e) == added[p := c];
    }
  }
}
