/**
 * The product catalog as values: the record entity, the admission guard of the
 * add form, the timestamp order of the fetched list, and removal of rows,
 * either by position in the list or by object identity.
 */
module Catalog {
  import opened Wrappers

  /** The categories offered by the add form's picker, in picker order. */
  const Categories: seq<string> := ["Camiseta", "Top", "Vestido", "Pantalón", "Falda", "Chaqueta"]

  /** The category the add form starts with and returns to after a save. */
  const DefaultCategory: string := "Camiseta"

  /**
   * A stored product (a Core Data `Item`). `oid` stands for the identity of
   * the managed object: two records with equal fields are still different rows.
   */
  datatype Record = Record(oid: nat, name: string, category: string, price: real, timestamp: int)

  /**
   * The guard of `addItem`: a non-empty name and a price text that parses to a
   * number above zero. It admits exactly the forms whose record, with any
   * listed category, satisfies the store's invariant.
   */
  function Admits(name: string, priceText: string, parse: string -> Option<real>): (ok: bool)
    ensures forall c :: c in Categories ==>
              (ok <==> parse(priceText).Some? && WellFormed(Record(0, name, c, parse(priceText).value, 0)))
  {
    name != [] && parse(priceText).Some? && parse(priceText).value > 0.0
  }

  /** What every stored record satisfies. */
  predicate WellFormed(r: Record)
  {
    r.name != [] && r.price > 0.0 && r.category in Categories
  }

  predicate AllWellFormed(s: seq<Record>)
  {
    forall i :: 0 <= i < |s| ==> WellFormed(s[i])
  }

  /** The fetch request's order: timestamp ascending. */
  predicate Sorted(s: seq<Record>)
  {
    forall i, j :: 0 <= i < j < |s| ==> s[i].timestamp <= s[j].timestamp
  }

  /** No managed object appears twice in the list. */
  predicate UniqueOids(s: seq<Record>)
  {
    forall i, j :: 0 <= i < |s| && 0 <= j < |s| && i != j ==> s[i].oid != s[j].oid
  }

  /** Every identity in the list was handed out before `bound`. */
  predicate OidsBelow(s: seq<Record>, bound: nat)
  {
    forall i :: 0 <= i < |s| ==> s[i].oid < bound
  }

  // ---------------------------------------------------------------------------
  // Insertion into the timestamp-ordered list

  /** The position of a record stamped `t`: after every row stamped at or before `t`. */
  function InsertPos(s: seq<Record>, t: int): (p: nat)
    ensures p <= |s|
    ensures forall i :: 0 <= i < p ==> s[i].timestamp <= t
    ensures p < |s| ==> t < s[p].timestamp
  {
    if s == [] || t < s[0].timestamp then 0 else 1 + InsertPos(s[1..], t)
  }

  /**
   * The fetched list once `r` has been inserted into the store: exactly one
   * row more, `r`, and every existing row kept.
   */
  function Insert(s: seq<Record>, r: Record): (u: seq<Record>)
    ensures |u| == |s| + 1
    ensures multiset(u) == multiset(s) + multiset{r}
  {
    var p := InsertPos(s, r.timestamp);
    assert s == s[..p] + s[p..];
    s[..p] + [r] + s[p..]
  }

  /** Inserting keeps the list in timestamp order. */
  lemma InsertSorted(s: seq<Record>, r: Record)
    requires Sorted(s)
    ensures Sorted(Insert(s, r))
  {
    var p := InsertPos(s, r.timestamp);
    var u := Insert(s, r);
    assert |u| == |s| + 1;
    assert forall i :: 0 <= i < p ==> u[i] == s[i];
    assert u[p] == r;
    assert forall i :: p < i < |u| ==> u[i] == s[i - 1];
    forall i, j | 0 <= i < j < |u|
      ensures u[i].timestamp <= u[j].timestamp
    {
      if j == p {
        assert u[i] == s[i];
      } else if i == p {
        assert u[j] == s[j - 1];
        assert r.timestamp < s[p].timestamp;
        assert s[p].timestamp <= s[j - 1].timestamp;
      }
    }
  }

  /** Inserting leaves the existing rows in their relative order, with `r` at the one new position. */
  lemma InsertKeepsOrder(s: seq<Record>, r: Record)
    ensures var p := InsertPos(s, r.timestamp);
            var u := Insert(s, r);
            p < |u| && u[p] == r && u[..p] + u[p + 1..] == s
  {
    var p := InsertPos(s, r.timestamp);
    var u := Insert(s, r);
    var front, back := s[..p], s[p..];
    assert u == front + [r] + back;
    assert |u| == |s| + 1;
    assert u[..p] == front;
    assert u[p + 1..] == back;
    assert front + back == s;
  }

  /** With a clock that never goes back, the new record is simply appended. */
  lemma InsertAtEnd(s: seq<Record>, r: Record)
    requires forall i :: 0 <= i < |s| ==> s[i].timestamp <= r.timestamp
    ensures Insert(s, r) == s + [r]
  {
  }

  /** Putting a well-formed record with a fresh identity at any position keeps the store's invariants. */
  lemma InsertAtKeepsInvariant(s: seq<Record>, r: Record, p: nat)
    requires p <= |s|
    requires AllWellFormed(s) && UniqueOids(s) && OidsBelow(s, r.oid)
    requires WellFormed(r)
    ensures var u := s[..p] + [r] + s[p..];
            AllWellFormed(u) && UniqueOids(u) && OidsBelow(u, r.oid + 1)
  {
    var u := s[..p] + [r] + s[p..];
    assert forall i :: 0 <= i < p ==> u[i] == s[i];
    assert u[p] == r;
    assert forall i :: p < i < |u| ==> u[i] == s[i - 1];
    forall i, j | 0 <= i < |u| && 0 <= j < |u| && i != j
      ensures u[i].oid != u[j].oid
    {
      var si := if i < p then i else i - 1;
      var sj := if j < p then j else j - 1;
      if i != p && j != p {
        assert u[i] == s[si] && u[j] == s[sj] && si != sj;
      } else if i == p {
        assert u[j] == s[sj];
      } else {
        assert u[i] == s[si];
      }
    }
  }

  /** Inserting a well-formed record with a fresh identity keeps the store's invariants. */
  lemma InsertKeepsInvariant(s: seq<Record>, r: Record)
    requires AllWellFormed(s) && UniqueOids(s) && OidsBelow(s, r.oid)
    requires WellFormed(r)
    ensures AllWellFormed(Insert(s, r))
    ensures UniqueOids(Insert(s, r))
    ensures OidsBelow(Insert(s, r), r.oid + 1)
  {
    InsertAtKeepsInvariant(s, r, InsertPos(s, r.timestamp));
  }

  // ---------------------------------------------------------------------------
  // Removal by position

  /** The rows of `s[i..]` whose positions are not in `doomed`, in list order. */
  function RemoveFrom(s: seq<Record>, doomed: set<nat>, i: nat): (r: seq<Record>)
    requires i <= |s|
    ensures |r| <= |s| - i
    decreases |s| - i
  {
    if i == |s| then []
    else (if i in doomed then [] else [s[i]]) + RemoveFrom(s, doomed, i + 1)
  }

  /** The positions named by a list of offsets. */
  function Positions(offsets: seq<nat>): set<nat>
  {
    set o | o in offsets
  }

  /** The list after the rows at positions `doomed` are deleted: rows are only ever dropped. */
  function RemoveAt(s: seq<Record>, doomed: set<nat>): (u: seq<Record>)
    ensures |u| <= |s|
  {
    RemoveFrom(s, doomed, 0)
  }

  /** Deleting no row leaves the list as it is. */
  lemma {:induction false} RemoveNothing(s: seq<Record>, i: nat)
    requires i <= |s|
    ensures RemoveFrom(s, {}, i) == s[i..]
    decreases |s| - i
  {
    if i < |s| {
      RemoveNothing(s, i + 1);
      assert s[i..] == [s[i]] + s[i + 1..];
    }
  }

  /** The positions in `[i, n)` that are not in `doomed`, ascending. */
  function KeptFrom(n: nat, doomed: set<nat>, i: nat): seq<nat>
    requires i <= n
    decreases n - i
  {
    if i == n then []
    else (if i in doomed then [] else [i]) + KeptFrom(n, doomed, i + 1)
  }

  /** The positions of a list of length `n` that survive deleting `doomed`. */
  function Kept(n: nat, doomed: set<nat>): seq<nat>
  {
    KeptFrom(n, doomed, 0)
  }

  lemma {:induction false} KeptFromSpec(n: nat, doomed: set<nat>, i: nat)
    requires i <= n
    ensures forall k :: 0 <= k < |KeptFrom(n, doomed, i)| ==>
              i <= KeptFrom(n, doomed, i)[k] < n && KeptFrom(n, doomed, i)[k] !in doomed
    ensures forall k, l :: 0 <= k < l < |KeptFrom(n, doomed, i)| ==>
              KeptFrom(n, doomed, i)[k] < KeptFrom(n, doomed, i)[l]
    ensures forall j :: i <= j < n && j !in doomed ==> j in KeptFrom(n, doomed, i)
    decreases n - i
  {
    if i < n {
      KeptFromSpec(n, doomed, i + 1);
      var rest := KeptFrom(n, doomed, i + 1);
      var here: seq<nat> := if i in doomed then [] else [i];
      assert KeptFrom(n, doomed, i) == here + rest;
      forall j | i <= j < n && j !in doomed
        ensures j in KeptFrom(n, doomed, i)
      {
        if j == i {
          assert KeptFrom(n, doomed, i)[0] == i;
        } else {
          var k :| 0 <= k < |rest| && rest[k] == j;
          assert KeptFrom(n, doomed, i)[|here| + k] == j;
        }
      }
    }
  }

  lemma {:induction false} RemoveFromSpec(s: seq<Record>, doomed: set<nat>, i: nat)
    requires i <= |s|
    ensures |RemoveFrom(s, doomed, i)| == |KeptFrom(|s|, doomed, i)|
    ensures forall k :: 0 <= k < |RemoveFrom(s, doomed, i)| ==>
              KeptFrom(|s|, doomed, i)[k] < |s| &&
              RemoveFrom(s, doomed, i)[k] == s[KeptFrom(|s|, doomed, i)[k]]
    decreases |s| - i
  {
    if i < |s| {
      RemoveFromSpec(s, doomed, i + 1);
      KeptFromSpec(|s|, doomed, i + 1);
      var r, K := RemoveFrom(s, doomed, i + 1), KeptFrom(|s|, doomed, i + 1);
      if i in doomed {
        assert RemoveFrom(s, doomed, i) == r && KeptFrom(|s|, doomed, i) == K;
      } else {
        assert RemoveFrom(s, doomed, i) == [s[i]] + r;
        assert KeptFrom(|s|, doomed, i) == [i] + K;
      }
    }
  }

  /**
   * Deleting the rows at `doomed` keeps exactly the other rows, in their
   * original relative order: the survivors are `s` at the ascending positions
   * `Kept`, and a position is kept if and only if it was not selected.
   */
  lemma RemoveAtKeepsOrder(s: seq<Record>, doomed: set<nat>)
    ensures |RemoveAt(s, doomed)| == |Kept(|s|, doomed)|
    ensures forall k :: 0 <= k < |Kept(|s|, doomed)| ==>
              Kept(|s|, doomed)[k] < |s| && RemoveAt(s, doomed)[k] == s[Kept(|s|, doomed)[k]]
    ensures forall k, l :: 0 <= k < l < |Kept(|s|, doomed)| ==> Kept(|s|, doomed)[k] < Kept(|s|, doomed)[l]
    ensures forall j :: 0 <= j < |s| ==> (j in Kept(|s|, doomed) <==> j !in doomed)
  {
    RemoveFromSpec(s, doomed, 0);
    KeptFromSpec(|s|, doomed, 0);
  }

  /**
   * With unique identities, no selected row survives a delete and every
   * unselected row does.
   */
  lemma RemoveAtRemovesSelected(s: seq<Record>, doomed: set<nat>)
    requires UniqueOids(s)
    ensures forall o, k :: o in doomed && o < |s| && 0 <= k < |RemoveAt(s, doomed)| ==>
              RemoveAt(s, doomed)[k].oid != s[o].oid
    ensures forall j :: 0 <= j < |s| && j !in doomed ==> s[j] in RemoveAt(s, doomed)
  {
    RemoveAtKeepsOrder(s, doomed);
    var r, K := RemoveAt(s, doomed), Kept(|s|, doomed);
    forall j | 0 <= j < |s| && j !in doomed
      ensures s[j] in r
    {
      var k :| 0 <= k < |K| && K[k] == j;
      assert r[k] == s[j];
    }
  }

  /** Deleting rows keeps the store's invariants. */
  lemma RemoveAtKeepsInvariant(s: seq<Record>, doomed: set<nat>, bound: nat)
    requires AllWellFormed(s) && Sorted(s) && UniqueOids(s) && OidsBelow(s, bound)
    ensures var r := RemoveAt(s, doomed);
            AllWellFormed(r) && Sorted(r) && UniqueOids(r) && OidsBelow(r, bound)
  {
    RemoveAtKeepsOrder(s, doomed);
    var r, K := RemoveAt(s, doomed), Kept(|s|, doomed);
    forall i, j | 0 <= i < j < |r|
      ensures r[i].timestamp <= r[j].timestamp
    {
      assert K[i] < K[j];
    }
    forall i, j | 0 <= i < |r| && 0 <= j < |r| && i != j
      ensures r[i].oid != r[j].oid
    {
      assert K[i] != K[j] by {
        if i < j { assert K[i] < K[j]; } else { assert K[j] < K[i]; }
      }
    }
  }

  // ---------------------------------------------------------------------------
  // Removal by identity: what `viewContext.delete` does to the fetched list

  /**
   * The list once the managed object `oid` is deleted: no row with that
   * identity remains (`DeleteObjectStep` says which rows stay).
   */
  function DeleteObject(s: seq<Record>, oid: nat): (u: seq<Record>)
    ensures forall k :: 0 <= k < |u| ==> u[k].oid != oid
  {
    if s == [] then []
    else
      (if s[0].oid == oid then [] else [s[0]]) + DeleteObject(s[1..], oid)
  }

  lemma DeleteObjectCons(h: Record, t: seq<Record>, oid: nat)
    ensures DeleteObject([h] + t, oid) == (if h.oid == oid then [] else [h]) + DeleteObject(t, oid)
  {
    assert ([h] + t)[0] == h && ([h] + t)[1..] == t;
  }

  /**
   * Deleting, by identity, the object at position `o` of the original list
   * from a list that already lacks the rows `doomed` is the same as removing
   * the rows `doomed + {o}` by position.
   */
  lemma {:induction false} DeleteObjectStep(s: seq<Record>, doomed: set<nat>, o: nat, i: nat)
    requires UniqueOids(s) && o < |s| && o !in doomed && i <= |s|
    ensures DeleteObject(RemoveFrom(s, doomed, i), s[o].oid) == RemoveFrom(s, doomed + {o}, i)
    decreases |s| - i
  {
    if i < |s| {
      DeleteObjectStep(s, doomed, o, i + 1);
      var oid := s[o].oid;
      var tail := RemoveFrom(s, doomed, i + 1);
      var tail' := RemoveFrom(s, doomed + {o}, i + 1);
      assert DeleteObject(tail, oid) == tail';
      if i in doomed {
        assert RemoveFrom(s, doomed, i) == [] + tail == tail;
        assert RemoveFrom(s, doomed + {o}, i) == [] + tail' == tail';
      } else if i == o {
        DeleteObjectCons(s[i], tail, oid);
        assert RemoveFrom(s, doomed, i) == [s[i]] + tail;
        assert RemoveFrom(s, doomed + {o}, i) == [] + tail' == tail';
      } else {
        assert s[i].oid != oid;
        DeleteObjectCons(s[i], tail, oid);
        assert RemoveFrom(s, doomed, i) == [s[i]] + tail;
        assert RemoveFrom(s, doomed + {o}, i) == [s[i]] + tail';
      }
    }
  }
}
