/**
 One Avalanche node: its store of known transactions, its conflict sets, the
 ancestry cache, and the sets of queried and accepted ids, with the
 operations that read and update them.
 */
module Avalanche {
  import opened Transactions
  import opened Params
  import opened Dag
  import opened Rules

  class Node {
    const nodeId: int
    const params: Parameters
    /** The node's own copy of the network's genesis transaction. */
    const genesisTx: Transaction

    /** The known transactions by id; `order` is the order the store iterates them in. */
    var transactions: Store
    var order: seq<Id>
    var conflicts: Conflicts
    /** Ancestry cache: absence of an id means "not yet computed". */
    var parentSets: map<Id, set<Transaction>>
    var accepted: set<Id>
    var queried: set<Id>
    /**
     The parent list each id stands for. Ids are unique (UUIDs), so one id
     always comes with one parent list; this is what makes an id-keyed cache
     sound.
     */
    ghost var edges: map<Id, seq<Id>>

    /**
     The store is well formed (acyclic, listed by `order`), and every queried,
     not yet accepted, known transaction has a conflict set.
     */
    ghost predicate StoreValid()
      reads this`transactions, this`order, this`conflicts, this`queried, this`accepted
    {
      && WellFormed(transactions, order)
      && (forall id :: id in transactions && id in queried && id !in accepted ==>
            transactions[id].data in conflicts)
    }

    /** Every cache entry is the ancestry of the parent list its id stands for. */
    ghost predicate CacheValid()
      reads this`transactions, this`parentSets, this`edges
    {
      && (forall id :: id in transactions ==> id in edges && edges[id] == transactions[id].parents)
      && (forall id :: id in parentSets ==>
            id in edges && parentSets[id] == Ancestry(transactions, ParentIds(edges[id])))
    }

    ghost predicate Valid()
      reads this
    {
      StoreValid() && CacheValid()
    }

    /**
     The cache has only grown since it was `ps0`: no entry was dropped or
     changed, and new entries are for known ids.
     */
    ghost predicate CacheExtends(ps0: map<Id, set<Transaction>>)
      reads this`parentSets, this`transactions
    {
      CacheGrows(ps0, parentSets, transactions.Keys)
    }

    /** The ids of the (at most) 10 most recently listed transactions. */
    ghost function RecentIds(): set<Id>
      reads this`order
    {
      set i | 0 <= i < |order| && |order| - 10 <= i :: order[i]
    }

    /**
     Since the accepted set was `a0`: every id that joined is a known
     transaction that passes the acceptance test on the accepted set now,
     and every recent transaction that passed it on `a0` has joined.
     */
    ghost predicate AcceptedSince(a0: set<Id>)
      reads this`accepted, this`queried, this`conflicts, this`transactions, this`order
    {
      && (forall id :: id in accepted && id !in a0 ==>
            id in transactions && Accepts(params.beta1, params.beta2, accepted, queried, conflicts, transactions[id]))
      && (forall id ::
            id in RecentIds() && id in transactions &&
            Accepts(params.beta1, params.beta2, a0, queried, conflicts, transactions[id])
            ==> id in accepted)
    }

    ghost predicate Empty()
      reads this
    {
      && transactions == map[] && order == [] && conflicts == map[]
      && parentSets == map[] && accepted == {} && queried == {}
    }

    /** A node keeps its id, the parameters and a copy of genesis; it knows nothing yet. */
    constructor (id: int, params: Parameters, genesis: Transaction)
      ensures nodeId == id && this.params == params && genesisTx == genesis
      ensures Valid() && Empty()
    {
      nodeId := id;
      this.params := params;
      genesisTx := genesis;
      transactions := map[];
      order := [];
      conflicts := map[];
      parentSets := map[];
      accepted := {};
      queried := {};
      edges := map[];
    }

    /** First half of one traversal round: add the known transactions among `ps` to `parents`. */
    method InsertKnown(ps: set<Id>, parents: set<Transaction>) returns (r: set<Transaction>)
      ensures r == parents + Known(transactions, ps)
    {
      r := parents;
      var rest := ps;
      while rest != {}
        invariant rest <= ps
        invariant r == parents + Known(transactions, ps - rest)
        decreases rest
      {
        var id :| id in rest;
        if id in transactions {
          r := r + {transactions[id]};
        }
        rest := rest - {id};
      }
      assert ps - {} == ps;
    }

    /**
     Second half of one round: the parents of the known ids among `ps`. The
     C++ implementation copies them through `begin()` of an empty list; the
     evident intent, modelled here, is to append them.
     */
    method GatherParents(ps: set<Id>) returns (newPs: seq<Id>)
      ensures ParentIds(newPs) == Next(transactions, ps)
    {
      newPs := [];
      var rest := ps;
      while rest != {}
        invariant rest <= ps
        invariant ParentIds(newPs) == Next(transactions, ps - rest)
        decreases rest
      {
        var id :| id in rest;
        NextStep(transactions, ps - rest, id);
        assert ps - (rest - {id}) == (ps - rest) + {id};
        if id in transactions {
          ParentIdsConcat(newPs, transactions[id].parents);
          newPs := newPs + transactions[id].parents;
        }
        rest := rest - {id};
      }
      assert ps - {} == ps;
    }

    /**
     The ancestry of `tx`, memoised: a cached entry is returned unchanged;
     otherwise a breadth-first walk from the parents collects every known
     transaction reached and the result is cached under `tx.id`.
     */
    method ParentSet(tx: Transaction) returns (parents: set<Transaction>)
      requires Valid()
      requires tx.id in edges ==> edges[tx.id] == tx.parents
      modifies this`parentSets, this`edges
      ensures Valid()
      ensures parents == Ancestry(transactions, ParentIds(tx.parents))
      ensures tx.id in old(parentSets) ==> parents == old(parentSets)[tx.id] && parentSets == old(parentSets)
      ensures parentSets == old(parentSets)[tx.id := parents]
      ensures edges == old(edges)[tx.id := tx.parents]
      ensures tx.id in old(edges) ==> edges == old(edges)
    {
      if tx.id in edges {
        assert edges == edges[tx.id := tx.parents];
      }
      if tx.id in parentSets {
        parents := parentSets[tx.id];
        assert parentSets == parentSets[tx.id := parents];
        assert edges == edges[tx.id := tx.parents];
        return;
      }
      parents := Traverse(tx.parents);
      parentSets := parentSets[tx.id := parents];
      edges := edges[tx.id := tx.parents];
    }

    /**
     The breadth-first walk: rounds of `InsertKnown` and `GatherParents`
     from the given parent ids until the frontier is empty, collecting the
     ancestry.
     */
    method Traverse(parentIds: seq<Id>) returns (parents: set<Transaction>)
      requires WellFormed(transactions, order)
      ensures parents == Ancestry(transactions, ParentIds(parentIds))
    {
      ghost var roots := ParentIds(parentIds);
      parents := {};
      var ps := set p | p in parentIds;
      ghost var k: nat := 0;
      while ps != {}
        invariant ps == Layer(transactions, roots, k)
        invariant parents == Collected(transactions, roots, k)
        invariant k <= |order| + 1
        decreases |order| + 1 - k
      {
        LayerEmptyBeyond(transactions, order, roots, k);
        parents := InsertKnown(ps, parents);
        var newPs := GatherParents(ps);
        ps := set p | p in newPs;
        k := k + 1;
      }
      CollectedComplete(transactions, roots, k);
    }

    /**
     Every ancestor of `tx` is preferred. The C++ loop tests `tx` itself
     instead of the loop variable; this is the evident intent, testing each
     ancestor.
     */
    method IsStronglyPreferred(tx: Transaction) returns (r: bool)
      requires Valid()
      requires tx.id in edges ==> edges[tx.id] == tx.parents
      modifies this`parentSets, this`edges
      ensures Valid()
      ensures r == StronglyPreferred(transactions, conflicts, tx)
      ensures parentSets == old(parentSets)[tx.id := Ancestry(transactions, ParentIds(tx.parents))]
      ensures tx.id in old(parentSets) ==> parentSets == old(parentSets)
      ensures edges == old(edges)[tx.id := tx.parents]
      ensures tx.id in old(edges) ==> edges == old(edges)
    {
      var ancestry := ParentSet(tx);
      var rest := ancestry;
      while rest != {}
        invariant rest <= ancestry
        invariant forall t :: t in ancestry - rest ==> Preferred(conflicts, t)
        decreases rest
      {
        var it :| it in rest;
        if !Preferred(conflicts, it) {
          return false;
        }
        rest := rest - {it};
      }
      return true;
    }

    /** Whether every direct parent of `tx` is already in `accepted`. */
    method ParentsAccepted(tx: Transaction) returns (b: bool)
      ensures b <==> ParentsIn(accepted, tx)
    {
      var i := 0;
      while i < |tx.parents|
        invariant 0 <= i <= |tx.parents|
        invariant forall j :: 0 <= j < i ==> tx.parents[j] in accepted
      {
        if tx.parents[i] !in accepted {
          return false;
        }
        i := i + 1;
      }
      return true;
    }

    /**
     The memoised finality test. An accepted id stays accepted; an id never
     queried is not accepted; otherwise the acceptance rule decides, on the
     conflict set of `tx` (which must exist) and on the accepted set as it
     was, and a success is recorded.
     */
    method IsAccepted(tx: Transaction) returns (r: bool)
      requires tx.id in accepted || tx.id !in queried || tx.data in conflicts
      modifies this`accepted
      ensures r <==> (tx.id in old(accepted) ||
                      (tx.id in queried &&
                       AcceptRule(params.beta1, params.beta2, conflicts[tx.data], ParentsIn(old(accepted), tx), tx)))
      ensures accepted == if r then old(accepted) + {tx.id} else old(accepted)
    {
      if tx.id in accepted {
        return true;
      }
      if tx.id !in queried {
        return false;
      }
      var cs := conflicts[tx.data];
      var parentsAccepted := ParentsAccepted(tx);
      r := AcceptRule(params.beta1, params.beta2, cs, parentsAccepted, tx);
      if r {
        accepted := accepted + {tx.id};
      }
    }

    /**
     The most recently listed transactions, newest first: up to 10 of them
     (the C++ implementation advances an iterator 10 places without a bound check).
     */
    method TakeRecent() returns (rc: seq<Transaction>)
      requires forall id :: id in order ==> id in transactions
      ensures |rc| == if |order| < 10 then |order| else 10
      ensures forall i :: 0 <= i < |rc| ==> rc[i] == transactions[order[|order| - 1 - i]]
      ensures rc == Recent(transactions, order)
    {
      rc := [];
      var i := 0;
      while i < 10 && i < |order|
        invariant 0 <= i <= |order| && i <= 10
        invariant |rc| == i
        invariant forall j :: 0 <= j < i ==> rc[j] == transactions[order[|order| - 1 - j]]
      {
        rc := rc + [transactions[order[|order| - 1 - i]]];
        i := i + 1;
      }
    }

    /**
     What a fallback list may hold: genesis alone when exactly one
     transaction is known; otherwise at most 3 distinct known undecided
     transactions among the 10 most recent, and all of those when fewer
     than 3 are taken.
     */
    ghost predicate FallbackShape(fb: seq<Transaction>)
      reads this`order, this`transactions, this`accepted, this`conflicts
    {
      if |order| == 1 then fb == [genesisTx]
      else
        && |fb| <= 3
        && (forall a, b :: 0 <= a < b < |fb| ==> fb[a] != fb[b])
        && (forall x :: x in fb ==>
              x.id in RecentIds() && x.id in transactions && transactions[x.id] == x && Undecided(accepted, conflicts, x))
        && (|fb| < 3 ==>
              forall id :: id in RecentIds() && id in transactions && Undecided(accepted, conflicts, transactions[id]) ==>
                transactions[id] in fb)
    }

    /**
     The fallback parents. The C++ implementation shuffles the filtered list
     with the network's random generator before taking 3 (without a bound
     check); here the list is taken in recency order, up to 3. Asking about
     the 10 most recent, newest first, records each that passes the
     acceptance test.
     */
    method Fallback() returns (fb: seq<Transaction>)
      requires Valid()
      modifies this`accepted
      ensures Valid()
      ensures old(accepted) <= accepted <= old(accepted) + RecentIds()
      ensures |order| == 1 ==> accepted == old(accepted)
      ensures |order| != 1 ==>
        accepted == AcceptAll(params.beta1, params.beta2, old(accepted), queried, conflicts, Recent(transactions, order))
      ensures |order| != 1 ==> AcceptedSince(old(accepted))
      ensures FallbackShape(fb)
    {
      if |order| == 1 {
        return [genesisTx];
      }
      var rc, rc2 := RecentUndecided();
      fb := if |rc2| <= 3 then rc2 else rc2[..3];
      FirstUndecided(rc, rc2, fb);
    }

    /**
     The take and filter steps of the fallback: `rc` holds exactly the
     transactions of the 10 most recent ids, and `rc2`, without repetition,
     exactly its undecided members.
     */
    method RecentUndecided() returns (rc: seq<Transaction>, rc2: seq<Transaction>)
      requires Valid()
      modifies this`accepted
      ensures Valid()
      ensures old(accepted) <= accepted <= old(accepted) + RecentIds()
      ensures rc == Recent(transactions, order)
      ensures accepted == AcceptAll(params.beta1, params.beta2, old(accepted), queried, conflicts, rc)
      ensures AcceptedSince(old(accepted))
      ensures forall x :: x in rc ==> x.id in RecentIds() && x.id in transactions && transactions[x.id] == x
      ensures forall id :: id in RecentIds() ==> id in transactions && transactions[id] in rc
      ensures forall a, b :: 0 <= a < b < |rc2| ==> rc2[a] != rc2[b]
      ensures forall x :: x in rc2 ==> x in rc && Undecided(accepted, conflicts, x)
      ensures forall x :: x in rc && Undecided(accepted, conflicts, x) ==> x in rc2
    {
      rc := RecentList();
      rc2 := FilterUndecided(rc);
      RecentAcceptance(old(accepted), rc);
    }

    /** Asking about exactly the recent transactions gives the acceptance effect over the recent ids. */
    lemma RecentAcceptance(a0: set<Id>, rc: seq<Transaction>)
      requires IdIndexed(transactions)
      requires forall x :: x in rc ==> x.id in RecentIds() && x.id in transactions && transactions[x.id] == x
      requires forall id :: id in RecentIds() ==> id in transactions && transactions[id] in rc
      requires a0 <= accepted <= a0 + RecentIds()
      requires forall x :: x in rc && x.id in accepted && x.id !in a0 ==>
                 Accepts(params.beta1, params.beta2, accepted, queried, conflicts, x)
      requires forall x :: x in rc && Accepts(params.beta1, params.beta2, a0, queried, conflicts, x) ==> x.id in accepted
      ensures AcceptedSince(a0)
    {
      forall id | id in accepted && id !in a0
        ensures id in transactions && Accepts(params.beta1, params.beta2, accepted, queried, conflicts, transactions[id])
      {
        assert transactions[id] in rc;
        assert transactions[id].id == id;
      }
    }

    /** The recent list, with what the filter step needs to know of it. */
    method RecentList() returns (rc: seq<Transaction>)
      requires WellFormed(transactions, order)
      ensures forall i :: 0 <= i < |rc| ==> rc[i].id in transactions && transactions[rc[i].id] == rc[i]
      ensures forall a, b :: 0 <= a < b < |rc| ==> rc[a].id != rc[b].id
      ensures forall x :: x in rc ==> x.id in RecentIds() && x.id in transactions && transactions[x.id] == x
      ensures forall id :: id in RecentIds() ==> id in transactions && transactions[id] in rc
      ensures Ids(rc) == RecentIds()
      ensures rc == Recent(transactions, order)
    {
      rc := TakeRecent();
      RecentListed(transactions, order, rc);
      RecentWindow(rc);
      RecentIdsListed(rc);
    }

    /** A list holding exactly the recent transactions holds exactly the recent ids. */
    lemma RecentIdsListed(rc: seq<Transaction>)
      requires IdIndexed(transactions)
      requires forall x :: x in rc ==> x.id in RecentIds()
      requires forall id :: id in RecentIds() ==> id in transactions && transactions[id] in rc
      ensures Ids(rc) == RecentIds()
    {
      forall id | id in RecentIds()
        ensures id in Ids(rc)
      {
        assert transactions[id].id == id;
      }
    }

    /**
     Taking the first (up to) 3 of the undecided members of the recent list
     yields a list of the fallback's shape.
     */
    lemma FirstUndecided(rc: seq<Transaction>, rc2: seq<Transaction>, fb: seq<Transaction>)
      requires |order| != 1
      requires forall x :: x in rc ==> x.id in RecentIds() && x.id in transactions && transactions[x.id] == x
      requires forall id :: id in RecentIds() ==> id in transactions && transactions[id] in rc
      requires forall a, b :: 0 <= a < b < |rc2| ==> rc2[a] != rc2[b]
      requires forall x :: x in rc2 ==> x in rc && Undecided(accepted, conflicts, x)
      requires forall x :: x in rc && Undecided(accepted, conflicts, x) ==> x in rc2
      requires fb == if |rc2| <= 3 then rc2 else rc2[..3]
      ensures FallbackShape(fb)
    {
      assert forall x :: x in fb ==> x in rc2;
    }

    /**
     The recent list holds exactly the transactions of the 10 most recently
     listed ids.
     */
    lemma RecentWindow(rc: seq<Transaction>)
      requires forall i :: 0 <= i < |order| ==> order[i] in transactions
      requires |rc| == if |order| < 10 then |order| else 10
      requires forall i :: 0 <= i < |rc| ==> rc[i] == transactions[order[|order| - 1 - i]]
      requires forall i :: 0 <= i < |rc| ==> rc[i].id == order[|order| - 1 - i]
      ensures forall x :: x in rc ==> x.id in RecentIds()
      ensures forall id :: id in RecentIds() ==> id in transactions && transactions[id] in rc
    {
      var n := |order|;
      forall x | x in rc
        ensures x.id in RecentIds()
      {
        var i :| 0 <= i < |rc| && rc[i] == x;
        assert x.id == order[n - 1 - i];
      }
      forall id | id in RecentIds()
        ensures id in transactions && transactions[id] in rc
      {
        var j :| 0 <= j < n && n - 10 <= j && order[j] == id;
        assert rc[n - 1 - j] == transactions[id];
      }
    }

    /**
     The filter step of the fallback: asks `IsAccepted` of each member of
     `rc` in turn, which records those that pass the acceptance test, and
     keeps, without repetition, exactly the members that are undecided then.
     */
    method FilterUndecided(rc: seq<Transaction>) returns (rc2: seq<Transaction>)
      requires Valid()
      requires forall i :: 0 <= i < |rc| ==> rc[i].id in transactions && transactions[rc[i].id] == rc[i]
      requires forall a, b :: 0 <= a < b < |rc| ==> rc[a].id != rc[b].id
      modifies this`accepted
      ensures Valid()
      ensures old(accepted) <= accepted
      ensures accepted <= old(accepted) + Ids(rc)
      ensures accepted == AcceptAll(params.beta1, params.beta2, old(accepted), queried, conflicts, rc)
      ensures forall x :: x in rc && x.id in accepted && x.id !in old(accepted) ==>
                Accepts(params.beta1, params.beta2, accepted, queried, conflicts, x)
      ensures forall x :: x in rc && Accepts(params.beta1, params.beta2, old(accepted), queried, conflicts, x) ==>
                x.id in accepted
      ensures forall a, b :: 0 <= a < b < |rc2| ==> rc2[a] != rc2[b]
      ensures forall x :: x in rc2 ==> x in rc && Undecided(accepted, conflicts, x)
      ensures forall x :: x in rc && Undecided(accepted, conflicts, x) ==> x in rc2
    {
      rc2 := [];
      var j := 0;
      while j < |rc|
        invariant 0 <= j <= |rc|
        invariant StoreValid()
        invariant accepted == AcceptAll(params.beta1, params.beta2, old(accepted), queried, conflicts, rc[..j])
        invariant FilterInv(rc, j, rc2, accepted, conflicts)
      {
        var it := rc[j];
        ghost var accepted0, rc20 := accepted, rc2;
        rc2 := FilterStep(it, rc2);
        FilterInvStep(rc, j, rc20, rc2, accepted0, accepted, conflicts);
        AcceptAllStep(params.beta1, params.beta2, old(accepted), queried, conflicts, rc, j);
        j := j + 1;
      }
      FilterInvDone(rc, rc2, accepted, conflicts);
      AcceptAllDone(params.beta1, params.beta2, old(accepted), queried, conflicts, rc);
      AcceptAllGrows(params.beta1, params.beta2, old(accepted), queried, conflicts, rc);
      AcceptAllSound(params.beta1, params.beta2, old(accepted), queried, conflicts, rc);
      AcceptAllComplete(params.beta1, params.beta2, old(accepted), queried, conflicts, rc);
    }

    /**
     One filter step: asks `IsAccepted` of the known `it`, which may record
     it, and appends it when it is undecided afterwards.
     */
    method FilterStep(it: Transaction, rc2: seq<Transaction>) returns (rc2': seq<Transaction>)
      requires StoreValid()
      requires it.id in transactions && transactions[it.id] == it
      modifies this`accepted
      ensures StoreValid()
      ensures accepted == old(accepted) || accepted == old(accepted) + {it.id}
      ensures accepted == AcceptOne(params.beta1, params.beta2, old(accepted), queried, conflicts, it)
      ensures rc2' == if Undecided(accepted, conflicts, it) then rc2 + [it] else rc2
    {
      rc2' := rc2;
      var a := IsAccepted(it);
      if !a && it.data in conflicts && conflicts[it.data].size == 1 {
        rc2' := rc2 + [it];
      }
    }

    /**
     The scan over the store in its order: the strongly preferred
     transactions (eps0) and, among them, the safe tips (eps1). Every known
     id is cached afterwards.
     */
    method ScanTips() returns (eps0: seq<Transaction>, eps1: set<Transaction>)
      requires Valid()
      modifies this`parentSets, this`edges
      ensures Valid()
      ensures CacheExtends(old(parentSets)) && edges == old(edges)
      ensures parentSets.Keys == old(parentSets).Keys + transactions.Keys
      ensures Members(eps0) == StronglyPreferredTxs(transactions, conflicts)
      ensures eps1 == SafeTips(transactions, conflicts)
    {
      eps0 := [];
      eps1 := {};
      var i := 0;
      while i < |order|
        invariant 0 <= i <= |order|
        invariant Valid()
        invariant CacheAdds(old(parentSets), parentSets, ListedIds(order, i)) && edges == old(edges)
        invariant Members(eps0) == StronglyPreferredAmong(transactions, conflicts, order[..i])
        invariant eps1 == SafeTipsAmong(transactions, conflicts, order[..i])
      {
        ghost var ps1 := parentSets;
        eps0, eps1 := ScanStep(i, eps0, eps1);
        CacheAddsTrans(old(parentSets), ps1, parentSets, ListedIds(order, i), {order[i]});
        ListedIdsStep(order, i);
        i := i + 1;
      }
      ListedIdsAll(transactions, order);
      CacheAddsGrows(old(parentSets), parentSets, transactions.Keys, transactions.Keys);
      SafeTipsAmongAll(transactions, order, conflicts);
      StronglyPreferredAmongAll(transactions, order, conflicts);
    }

    /** The scan at place `i` of the order: eps0 and eps1 grow from the first `i` places to the first `i + 1`. */
    method ScanStep(i: int, eps0: seq<Transaction>, eps1: set<Transaction>)
      returns (eps0': seq<Transaction>, eps1': set<Transaction>)
      requires Valid()
      requires 0 <= i < |order|
      requires Members(eps0) == StronglyPreferredAmong(transactions, conflicts, order[..i])
      requires eps1 == SafeTipsAmong(transactions, conflicts, order[..i])
      modifies this`parentSets, this`edges
      ensures Valid()
      ensures CacheAdds(old(parentSets), parentSets, {order[i]}) && edges == old(edges)
      ensures Members(eps0') == StronglyPreferredAmong(transactions, conflicts, order[..i + 1])
      ensures eps1' == SafeTipsAmong(transactions, conflicts, order[..i + 1])
    {
      var tx := transactions[order[i]];
      assert tx.id == order[i];
      eps0', eps1' := VisitTip(tx, eps0, eps1);
      SafeTipsAmongStep(transactions, conflicts, order, i);
      StronglyPreferredAmongStep(transactions, conflicts, order, i);
    }

    /**
     One step of the scan: a strongly preferred `tx` joins eps0, and eps1
     too when it is a safe tip.
     */
    method VisitTip(tx: Transaction, eps0: seq<Transaction>, eps1: set<Transaction>)
      returns (eps0': seq<Transaction>, eps1': set<Transaction>)
      requires Valid()
      requires tx.id in transactions && transactions[tx.id] == tx
      modifies this`parentSets, this`edges
      ensures Valid()
      ensures CacheExtends(old(parentSets)) && edges == old(edges)
      ensures parentSets == old(parentSets)[tx.id := Ancestry(transactions, ParentIds(tx.parents))]
      ensures CacheAdds(old(parentSets), parentSets, {tx.id})
      ensures Members(eps0') == Members(eps0) + (if StronglyPreferred(transactions, conflicts, tx) then {tx} else {})
      ensures eps1' == if SafeTip(transactions, conflicts, tx) then eps1 + {tx} else eps1
    {
      eps0', eps1' := eps0, eps1;
      var sp := IsStronglyPreferred(tx);
      if sp {
        eps0' := eps0 + [tx];
        assert Members(eps0') == Members(eps0) + {tx};
        if tx.data in conflicts && (conflicts[tx.data].size == 1 || tx.confidence > 0) {
          eps1' := eps1 + {tx};
        }
      }
    }

    /** The candidate list: for each safe tip, its ancestors outside eps1. */
    method CollectCandidates(eps1: set<Transaction>) returns (parents: seq<Transaction>)
      requires Valid()
      requires eps1 == SafeTips(transactions, conflicts)
      modifies this`parentSets, this`edges
      ensures Valid()
      ensures CacheExtends(old(parentSets)) && edges == old(edges)
      ensures parentSets.Keys == old(parentSets).Keys + TxIds(eps1)
      ensures Members(parents) == Candidates(transactions, conflicts)
    {
      parents := [];
      var rest := eps1;
      while rest != {}
        invariant rest <= eps1
        invariant Valid()
        invariant CacheAdds(old(parentSets), parentSets, TxIds(eps1 - rest)) && edges == old(edges)
        invariant Members(parents) == Frontier(transactions, eps1 - rest, eps1)
        decreases rest
      {
        var t :| t in rest;
        assert t.id in transactions && transactions[t.id] == t;
        ghost var ps1 := parentSets;
        parents := CollectTip(t, eps1, parents);
        CacheAddsTrans(old(parentSets), ps1, parentSets, TxIds(eps1 - rest), {t.id});
        FrontierAdd(transactions, eps1 - rest, t, eps1);
        TxIdsVisit(eps1, rest, t);
        rest := rest - {t};
      }
      assert eps1 - {} == eps1;
      assert TxIds(eps1) <= transactions.Keys;
      CacheAddsGrows(old(parentSets), parentSets, TxIds(eps1), transactions.Keys);
    }

    /** One safe tip's share of the candidate list: its ancestors outside eps1, appended. */
    method CollectTip(t: Transaction, eps1: set<Transaction>, parents: seq<Transaction>)
      returns (parents': seq<Transaction>)
      requires Valid()
      requires t.id in transactions && transactions[t.id] == t
      modifies this`parentSets, this`edges
      ensures Valid()
      ensures CacheAdds(old(parentSets), parentSets, {t.id}) && edges == old(edges)
      ensures Members(parents') == Members(parents) + (Ancestry(transactions, ParentIds(t.parents)) - eps1)
    {
      var p := ParentSet(t);
      parents' := AppendOutside(parents, p, eps1);
    }

    /**
     The first half of parent selection: the scan for eps0 and eps1, then the
     candidates collected from eps1. (eps0 is built and not used further,
     as in the C++ implementation.)
     */
    method CandidateList() returns (parents: seq<Transaction>)
      requires Valid()
      modifies this`parentSets, this`edges
      ensures Valid()
      ensures CacheExtends(old(parentSets)) && edges == old(edges)
      ensures parentSets.Keys == old(parentSets).Keys + transactions.Keys
      ensures Members(parents) == Candidates(transactions, conflicts)
    {
      var eps0, eps1 := ScanTips();
      ghost var ps1 := parentSets;
      parents := CollectCandidates(eps1);
      CacheGrowsTrans(old(parentSets), ps1, parentSets, transactions.Keys);
      assert TxIds(eps1) <= transactions.Keys;
    }

    /**
     Parent selection: the candidates if there are any, else the fallback
     (which is computed, with its effect on `accepted`, either way). The
     C++ implementation builds both lists and then returns the empty list;
     the evident intent is modelled.
     */
    method ParentSelection() returns (edge: seq<Transaction>)
      requires Valid()
      modifies this`parentSets, this`edges, this`accepted
      ensures Valid()
      ensures CacheExtends(old(parentSets)) && edges == old(edges)
      ensures parentSets.Keys == old(parentSets).Keys + transactions.Keys
      ensures old(accepted) <= accepted <= old(accepted) + RecentIds()
      ensures |order| == 1 ==> accepted == old(accepted)
      ensures |order| != 1 ==>
        accepted == AcceptAll(params.beta1, params.beta2, old(accepted), queried, conflicts, Recent(transactions, order))
      ensures |order| != 1 ==> AcceptedSince(old(accepted))
      ensures Candidates(transactions, conflicts) != {} ==>
        Members(edge) == Candidates(transactions, conflicts)
      ensures Candidates(transactions, conflicts) == {} ==> FallbackShape(edge)
      ensures |order| == 1 ==> edge == [genesisTx]
    {
      var parents := CandidateList();
      if |parents| > 0 {
        assert parents[0] in Members(parents);
      }
      if |order| == 1 {
        SingletonNoCandidates(transactions, order, conflicts);
      }
      edge := SelectFrom(parents);
    }

    /** The candidate list when it is non-empty, otherwise the fallback parents. */
    method SelectFrom(parents: seq<Transaction>) returns (edge: seq<Transaction>)
      requires Valid()
      modifies this`accepted
      ensures Valid()
      ensures old(accepted) <= accepted <= old(accepted) + RecentIds()
      ensures |order| == 1 ==> accepted == old(accepted)
      ensures |order| != 1 ==>
        accepted == AcceptAll(params.beta1, params.beta2, old(accepted), queried, conflicts, Recent(transactions, order))
      ensures |order| != 1 ==> AcceptedSince(old(accepted))
      ensures parents != [] ==> edge == parents
      ensures parents == [] ==> FallbackShape(edge)
    {
      var fallback := Fallback();
      edge := Selection(parents, fallback);
    }

    /** Appends the members of `p` that are not in `exclude` to `parents`. */
    method AppendOutside(parents: seq<Transaction>, p: set<Transaction>, exclude: set<Transaction>)
      returns (r: seq<Transaction>)
      ensures Members(r) == Members(parents) + (p - exclude)
    {
      r := parents;
      var q := p;
      while q != {}
        invariant q <= p
        invariant Members(r) == Members(parents) + ((p - q) - exclude)
        decreases q
      {
        var a :| a in q;
        assert (p - (q - {a})) - exclude == ((p - q) - exclude) + ({a} - exclude);
        if a !in exclude {
          assert Members(r + [a]) == Members(r) + {a};
          r := r + [a];
        }
        q := q - {a};
      }
      assert p - {} == p;
    }

    /**
     Creates a transaction with conflict key `data` and a fresh id, its
     parents the ids of the selected parent transactions. The C++
     implementation computes those ids and then builds the transaction
     without them; the evident intent is modelled. Handing it to `receive_tx`, whose body is empty,
     changes nothing.
     */
    method CreateTx(data: int, id: Id) returns (t: Transaction)
      requires Valid()
      modifies this`parentSets, this`edges, this`accepted
      ensures Valid()
      ensures CacheExtends(old(parentSets)) && edges == old(edges)
      ensures parentSets.Keys == old(parentSets).Keys + transactions.Keys
      ensures old(accepted) <= accepted <= old(accepted) + RecentIds()
      ensures |order| == 1 ==> accepted == old(accepted)
      ensures |order| != 1 ==>
        accepted == AcceptAll(params.beta1, params.beta2, old(accepted), queried, conflicts, Recent(transactions, order))
      ensures |order| != 1 ==> AcceptedSince(old(accepted))
      ensures t.id == id && t.data == data && t.chit == 0 && t.confidence == 0
      ensures exists edge ::
                && t == NewTransaction(id, data, edge)
                && (Candidates(transactions, conflicts) != {} ==>
                      Members(edge) == Candidates(transactions, conflicts))
                && (Candidates(transactions, conflicts) == {} ==> FallbackShape(edge))
      ensures |order| == 1 ==> t.parents == [genesisTx.id]
    {
      var edge := ParentSelection();
      t := NewTransaction(id, data, edge);
    }
  }
}
