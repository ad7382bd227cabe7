/**
 The transaction graph a node knows, and the ancestry of a transaction in it:
 every known transaction reachable from its parents by parent edges that run
 through known transactions. Unknown ids are skipped and not followed.
 */
module Dag {
  import opened Transactions

  /** The transactions a node knows, by id. */
  type Store = map<Id, Transaction>

  /** The parent list of a transaction, as a set. */
  function ParentIds(parents: seq<Id>): set<Id>
  {
    set p | p in parents
  }

  /** The stored copies of the known ids among `ps`. */
  function Known(txs: Store, ps: set<Id>): set<Transaction>
  {
    set id | id in ps && id in txs :: txs[id]
  }

  /** The parent ids of the known ids among `ps`: one step of the traversal. */
  function Next(txs: Store, ps: set<Id>): set<Id>
  {
    set p, q | p in ps && p in txs && q in txs[p].parents :: q
  }

  /** One more visited id adds its parents to the next layer when it is known. */
  lemma NextStep(txs: Store, done: set<Id>, id: Id)
    ensures Next(txs, done + {id}) ==
            Next(txs, done) + (if id in txs then ParentIds(txs[id].parents) else {})
  {
  }

  /** The parent ids of a concatenation are the union of the parent ids. */
  lemma ParentIdsConcat(a: seq<Id>, b: seq<Id>)
    ensures ParentIds(a + b) == ParentIds(a) + ParentIds(b)
  {
  }

  /** The ids reached from `roots` after `k` steps. */
  function Layer(txs: Store, roots: set<Id>, k: nat): set<Id>
  {
    if k == 0 then roots else Next(txs, Layer(txs, roots, k - 1))
  }

  /** `id` is reached from `roots` in some number of steps. */
  ghost predicate Reaches(txs: Store, roots: set<Id>, id: Id)
  {
    exists k: nat :: id in Layer(txs, roots, k)
  }

  /** Reference definition: the known transactions reached from `roots`. */
  ghost function Ancestry(txs: Store, roots: set<Id>): set<Transaction>
  {
    set id | id in txs && Reaches(txs, roots, id) :: txs[id]
  }

  /** What the traversal has collected after `k` rounds: the known ids of layers 0 .. k-1. */
  function Collected(txs: Store, roots: set<Id>, k: nat): set<Transaction>
  {
    if k == 0 then {} else Collected(txs, roots, k - 1) + Known(txs, Layer(txs, roots, k - 1))
  }

  /**
   An ancestry cache `ps1` extends `ps0`: no entry was dropped or changed,
   and every new entry is for an id in `known`.
   */
  predicate CacheGrows(ps0: map<Id, set<Transaction>>, ps1: map<Id, set<Transaction>>, known: set<Id>)
  {
    && (forall id :: id in ps0 ==> id in ps1 && ps1[id] == ps0[id])
    && ps1.Keys <= ps0.Keys + known
  }

  /** Cache growth composes. */
  lemma CacheGrowsTrans(ps0: map<Id, set<Transaction>>, ps1: map<Id, set<Transaction>>,
                        ps2: map<Id, set<Transaction>>, known: set<Id>)
    requires CacheGrows(ps0, ps1, known) && CacheGrows(ps1, ps2, known)
    ensures CacheGrows(ps0, ps2, known)
  {
  }

  /** The ids listed in the first `i` places of `order`. */
  function ListedIds(order: seq<Id>, i: int): set<Id>
  {
    set j | 0 <= j < i && j < |order| :: order[j]
  }

  /** Listing one more place adds its id. */
  lemma ListedIdsStep(order: seq<Id>, i: int)
    requires 0 <= i < |order|
    ensures ListedIds(order, i + 1) == ListedIds(order, i) + {order[i]}
  {
    assert order[i] in ListedIds(order, i + 1);
  }

  /** In a well-formed store, the whole order lists exactly the known ids. */
  lemma ListedIdsAll(txs: Store, order: seq<Id>)
    requires WellFormed(txs, order)
    ensures ListedIds(order, |order|) == txs.Keys
  {
    forall id | id in txs
      ensures id in ListedIds(order, |order|)
    {
      var j :| 0 <= j < |order| && order[j] == id;
    }
  }

  /** The ids of a set of transactions. */
  function TxIds(s: set<Transaction>): set<Id>
  {
    set t | t in s :: t.id
  }

  /** Moving `t` from the rest to the visited part of `all` adds its id to the visited ids. */
  lemma TxIdsVisit(all: set<Transaction>, rest: set<Transaction>, t: Transaction)
    requires t in rest && rest <= all
    ensures (all - rest) + {t} == all - (rest - {t})
    ensures TxIds(all - (rest - {t})) == TxIds(all - rest) + {t.id}
  {
    assert (all - rest) + {t} == all - (rest - {t});
  }

  /** `ps1` keeps every entry of `ps0` and has exactly the keys of `ps0` plus `added`. */
  predicate CacheAdds(ps0: map<Id, set<Transaction>>, ps1: map<Id, set<Transaction>>, added: set<Id>)
  {
    && (forall id :: id in ps0 ==> id in ps1 && ps1[id] == ps0[id])
    && ps1.Keys == ps0.Keys + added
  }

  lemma CacheAddsTrans(ps0: map<Id, set<Transaction>>, ps1: map<Id, set<Transaction>>, ps2: map<Id, set<Transaction>>,
                       a: set<Id>, b: set<Id>)
    requires CacheAdds(ps0, ps1, a) && CacheAdds(ps1, ps2, b)
    ensures CacheAdds(ps0, ps2, a + b)
  {
  }

  /** Adding only known ids is growing the cache by known ids. */
  lemma CacheAddsGrows(ps0: map<Id, set<Transaction>>, ps1: map<Id, set<Transaction>>, added: set<Id>, known: set<Id>)
    requires CacheAdds(ps0, ps1, added) && added <= known
    ensures CacheGrows(ps0, ps1, known)
  {
  }

  /** Every stored transaction is stored under its own id. */
  ghost predicate IdIndexed(txs: Store)
  {
    forall id :: id in txs ==> txs[id].id == id
  }

  /**
   The store listed by `order`: each known id once, every stored copy under
   its own id, and every known parent strictly earlier than its child (so
   the graph is acyclic).
   */
  ghost predicate WellFormed(txs: Store, order: seq<Id>)
  {
    && (forall i, j :: 0 <= i < j < |order| ==> order[i] != order[j])
    && (forall id :: id in txs <==> id in order)
    && IdIndexed(txs)
    && (forall i, j :: 0 <= i < |order| && 0 <= j < |order| && order[j] in txs[order[i]].parents ==> j < i)
  }

  /** The (up to) 10 transactions listed last in `order`, newest first. */
  function Recent(txs: Store, order: seq<Id>): (r: seq<Transaction>)
    requires forall id :: id in order ==> id in txs
    ensures |r| == if |order| < 10 then |order| else 10
    ensures forall i :: 0 <= i < |r| ==> r[i] == txs[order[|order| - 1 - i]]
  {
    var n := if |order| < 10 then |order| else 10;
    seq(n, i requires 0 <= i < n => txs[order[|order| - 1 - i]])
  }

  /**
   The transactions listed last in `order`, newest first, are stored under
   the listed ids and differ pairwise in id.
   */
  lemma RecentListed(txs: Store, order: seq<Id>, rc: seq<Transaction>)
    requires WellFormed(txs, order)
    requires |rc| <= |order|
    requires forall i :: 0 <= i < |rc| ==> rc[i] == txs[order[|order| - 1 - i]]
    ensures forall i :: 0 <= i < |rc| ==> rc[i].id == order[|order| - 1 - i]
    ensures forall i :: 0 <= i < |rc| ==> rc[i].id in txs && txs[rc[i].id] == rc[i]
    ensures forall a, b :: 0 <= a < b < |rc| ==> rc[a].id != rc[b].id
  {
    var n := |order|;
    forall a, b | 0 <= a < b < |rc|
      ensures rc[a].id != rc[b].id
    {
      assert rc[a].id == order[n - 1 - a] && rc[b].id == order[n - 1 - b];
    }
  }

  /** A known id reached after `k` steps sits at least `k` places before the end of `order`. */
  lemma {:induction false} LayerRank(txs: Store, order: seq<Id>, roots: set<Id>, k: nat)
    requires WellFormed(txs, order)
    ensures forall i :: 0 <= i < |order| && order[i] in Layer(txs, roots, k) ==> i + k < |order|
  {
    if k > 0 {
      LayerRank(txs, order, roots, k - 1);
      forall i | 0 <= i < |order| && order[i] in Layer(txs, roots, k)
        ensures i + k < |order|
      {
        var p :| p in Layer(txs, roots, k - 1) && p in txs && order[i] in txs[p].parents;
        var j :| 0 <= j < |order| && order[j] == p;
        assert j + (k - 1) < |order|;
      }
    }
  }

  /** The traversal of a well-formed store dies out after `|order| + 1` steps. */
  lemma LayerEmptyBeyond(txs: Store, order: seq<Id>, roots: set<Id>, k: nat)
    requires WellFormed(txs, order)
    ensures k > |order| ==> Layer(txs, roots, k) == {}
  {
    if k > |order| {
      LayerRank(txs, order, roots, k - 1);
      forall p | p in Layer(txs, roots, k - 1)
        ensures p !in txs
      {
        if p in txs {
          assert false;
        }
      }
    }
  }

  /**
   The traversal keeps no visited set, so on a store where a transaction
   lists itself as its parent the frontier never empties.
   */
  lemma {:induction false} SelfParentNeverEmpties(k: nat)
    ensures Layer(map[0 := Transaction(0, 0, [0], 0, 0)], {0}, k) == {0}
  {
    var txs := map[0 := Transaction(0, 0, [0], 0, 0)];
    if k > 0 {
      SelfParentNeverEmpties(k - 1);
      assert 0 in txs && 0 in txs[0].parents;
      assert 0 in Next(txs, {0});
      assert Next(txs, {0}) == {0};
    }
  }

  /** An empty layer stays empty. */
  lemma {:induction false} LayerStaysEmpty(txs: Store, roots: set<Id>, k: nat, j: nat)
    requires Layer(txs, roots, k) == {}
    requires k <= j
    ensures Layer(txs, roots, j) == {}
  {
    if k < j {
      LayerStaysEmpty(txs, roots, k, j - 1);
      assert Layer(txs, roots, j) == Next(txs, Layer(txs, roots, j - 1));
    }
  }

  /** Everything the traversal collects is an ancestor. */
  lemma {:induction false} CollectedInAncestry(txs: Store, roots: set<Id>, k: nat)
    ensures Collected(txs, roots, k) <= Ancestry(txs, roots)
  {
    if k > 0 {
      CollectedInAncestry(txs, roots, k - 1);
      forall id | id in Layer(txs, roots, k - 1) && id in txs
        ensures txs[id] in Ancestry(txs, roots)
      {
        assert Reaches(txs, roots, id);
      }
    }
  }

  /** After `k` rounds the traversal holds the known ids of every layer below `k`. */
  lemma {:induction false} CollectedHolds(txs: Store, roots: set<Id>, k: nat, j: nat, id: Id)
    requires j < k && id in Layer(txs, roots, j) && id in txs
    ensures txs[id] in Collected(txs, roots, k)
  {
    if j < k - 1 {
      CollectedHolds(txs, roots, k - 1, j, id);
    } else {
      assert txs[id] in Known(txs, Layer(txs, roots, k - 1));
    }
  }

  /** Once a layer is empty, the traversal has collected exactly the ancestry. */
  lemma CollectedComplete(txs: Store, roots: set<Id>, k: nat)
    requires Layer(txs, roots, k) == {}
    ensures Collected(txs, roots, k) == Ancestry(txs, roots)
  {
    CollectedInAncestry(txs, roots, k);
    forall t | t in Ancestry(txs, roots)
      ensures t in Collected(txs, roots, k)
    {
      var id :| id in txs && Reaches(txs, roots, id) && t == txs[id];
      var j: nat :| id in Layer(txs, roots, j);
      if k <= j {
        LayerStaysEmpty(txs, roots, k, j);
      } else {
        CollectedHolds(txs, roots, k, j, id);
      }
    }
  }

  /** Every known direct parent is an ancestor. */
  lemma KnownRootsInAncestry(txs: Store, roots: set<Id>)
    ensures forall id :: id in roots && id in txs ==> txs[id] in Ancestry(txs, roots)
  {
    forall id | id in roots && id in txs
      ensures txs[id] in Ancestry(txs, roots)
    {
      assert id in Layer(txs, roots, 0);
    }
  }

  /** Every ancestor is a known transaction, stored under its own id. */
  lemma AncestryStored(txs: Store, roots: set<Id>)
    requires IdIndexed(txs)
    ensures forall t :: t in Ancestry(txs, roots) ==> t.id in txs && txs[t.id] == t
  {
  }

  /** The ancestry is closed under known parents. */
  lemma AncestryClosed(txs: Store, roots: set<Id>, id: Id, p: Id)
    requires id in txs && Reaches(txs, roots, id)
    requires p in txs[id].parents && p in txs
    ensures Reaches(txs, roots, p) && txs[p] in Ancestry(txs, roots)
  {
    var k: nat :| id in Layer(txs, roots, k);
    assert p in Layer(txs, roots, k + 1);
  }

  /**
   The ancestry is the least set of ids that holds the known roots and is
   closed under known parents.
   */
  lemma AncestryLeast(txs: Store, roots: set<Id>, s: set<Id>)
    requires forall r :: r in roots && r in txs ==> r in s
    requires forall id, p :: id in s && id in txs && p in txs[id].parents && p in txs ==> p in s
    ensures forall id :: id in txs && Reaches(txs, roots, id) ==> id in s
  {
    forall id | id in txs && Reaches(txs, roots, id)
      ensures id in s
    {
      var k: nat :| id in Layer(txs, roots, k);
      LayerWithin(txs, roots, s, k);
    }
  }

  lemma {:induction false} LayerWithin(txs: Store, roots: set<Id>, s: set<Id>, k: nat)
    requires forall r :: r in roots && r in txs ==> r in s
    requires forall id, p :: id in s && id in txs && p in txs[id].parents && p in txs ==> p in s
    ensures forall id :: id in Layer(txs, roots, k) && id in txs ==> id in s
  {
    if k > 0 {
      LayerWithin(txs, roots, s, k - 1);
    }
  }

  /** A transaction none of whose parents is known has no ancestry. */
  lemma NoKnownParentsNoAncestry(txs: Store, roots: set<Id>)
    requires forall r :: r in roots ==> r !in txs
    ensures Ancestry(txs, roots) == {}
  {
    AncestryLeast(txs, roots, {});
  }

  /**
   Ancestry is transitive: the ancestry of an ancestor is part of the
   ancestry.
   */
  lemma AncestryTransitive(txs: Store, roots: set<Id>, t: Transaction)
    requires IdIndexed(txs)
    requires t in Ancestry(txs, roots)
    ensures Ancestry(txs, ParentIds(t.parents)) <= Ancestry(txs, roots)
  {
    var s := set id | id in txs && Reaches(txs, roots, id);
    forall r | r in ParentIds(t.parents) && r in txs
      ensures r in s
    {
      AncestryClosed(txs, roots, t.id, r);
    }
    forall id, p | id in s && id in txs && p in txs[id].parents && p in txs
      ensures p in s
    {
      AncestryClosed(txs, roots, id, p);
    }
    AncestryLeast(txs, ParentIds(t.parents), s);
  }

  /** In a store of one transaction, that transaction has no ancestry. */
  lemma SingletonNoAncestry(txs: Store, order: seq<Id>, t: Transaction)
    requires WellFormed(txs, order) && |order| == 1
    requires t in txs.Values
    ensures Ancestry(txs, ParentIds(t.parents)) == {}
  {
    var id :| id in txs && txs[id] == t;
    assert id == order[0];
    assert forall r :: r in txs ==> r == order[0];
    assert order[0] !in t.parents;
    NoKnownParentsNoAncestry(txs, ParentIds(t.parents));
  }
}
