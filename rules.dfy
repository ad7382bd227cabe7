/**
 The decision rules of a node, stated on the values it holds: preference,
 strong preference, the acceptance rule, and the sets parent selection
 builds. The `Node` class computes each of these on its own state.
 */
module Rules {
  import opened Transactions
  import opened Dag

  /** The conflict sets a node has registered, by conflict key. */
  type Conflicts = map<int, ConflictSet>

  /**
   `tx` is the preferred member of its conflict set: a set is registered for
   its key and the copy stored there equals `tx` in all five fields.
   */
  function Preferred(conflicts: Conflicts, tx: Transaction): (r: bool)
    ensures tx.data !in conflicts ==> !r
    ensures tx.data in conflicts ==> (r <==> conflicts[tx.data].pref == tx)
  {
    tx.data in conflicts && Equal(conflicts[tx.data].pref, tx)
  }

  /** The transactions a list holds. */
  function Members(s: seq<Transaction>): set<Transaction>
  {
    set x | x in s
  }

  /** `t` may serve as a fallback parent: not accepted, and alone in its registered conflict set. */
  predicate Undecided(accepted: set<Id>, conflicts: Conflicts, t: Transaction)
  {
    t.id !in accepted && t.data in conflicts && conflicts[t.data].size == 1
  }

  /**
   What the filter step has built after looking at `rc[..j]`: without
   repetition, exactly the members of `rc[..j]` that are undecided.
   */
  ghost predicate FilterInv(rc: seq<Transaction>, j: int, rc2: seq<Transaction>, accepted: set<Id>, conflicts: Conflicts)
    requires 0 <= j <= |rc|
  {
    && (forall a, b :: 0 <= a < b < |rc2| ==> rc2[a] != rc2[b])
    && (forall x :: x in rc2 ==> x in rc[..j] && Undecided(accepted, conflicts, x))
    && (forall x :: x in rc[..j] && Undecided(accepted, conflicts, x) ==> x in rc2)
  }

  /**
   Looking at one more member `rc[j]`, which may join `accepted`, and
   appending it when it is then undecided, keeps the filter's invariant.
   */
  lemma FilterInvStep(rc: seq<Transaction>, j: int, rc2: seq<Transaction>, rc2': seq<Transaction>,
                      accepted: set<Id>, accepted': set<Id>, conflicts: Conflicts)
    requires 0 <= j < |rc|
    requires forall a, b :: 0 <= a < b < |rc| ==> rc[a].id != rc[b].id
    requires FilterInv(rc, j, rc2, accepted, conflicts)
    requires accepted' == accepted || accepted' == accepted + {rc[j].id}
    requires rc2' == if Undecided(accepted', conflicts, rc[j]) then rc2 + [rc[j]] else rc2
    ensures FilterInv(rc, j + 1, rc2', accepted', conflicts)
  {
    assert rc[..j + 1] == rc[..j] + [rc[j]];
    assert forall x :: x in rc[..j] ==> x.id != rc[j].id;
  }

  /** The ids of the transactions a list holds. */
  function Ids(s: seq<Transaction>): set<Id>
  {
    set x | x in s :: x.id
  }

  /** Once the whole list is looked at, the filter holds exactly its undecided members. */
  lemma FilterInvDone(rc: seq<Transaction>, rc2: seq<Transaction>, accepted: set<Id>, conflicts: Conflicts)
    requires FilterInv(rc, |rc|, rc2, accepted, conflicts)
    ensures Ids(rc[..|rc|]) == Ids(rc)
    ensures forall a, b :: 0 <= a < b < |rc2| ==> rc2[a] != rc2[b]
    ensures forall x :: x in rc2 ==> x in rc && Undecided(accepted, conflicts, x)
    ensures forall x :: x in rc && Undecided(accepted, conflicts, x) ==> x in rc2
  {
    assert rc[..|rc|] == rc;
  }

  /** Every ancestor of `tx` is preferred (vacuously so when it has none). */
  ghost predicate StronglyPreferred(txs: Store, conflicts: Conflicts, tx: Transaction)
  {
    forall t :: t in Ancestry(txs, ParentIds(tx.parents)) ==> Preferred(conflicts, t)
  }

  /**
   A safe tip (a member of eps1): strongly preferred, registered, and either
   uncontested or already favoured in some round.
   */
  ghost predicate SafeTip(txs: Store, conflicts: Conflicts, tx: Transaction)
  {
    && StronglyPreferred(txs, conflicts, tx)
    && tx.data in conflicts
    && (conflicts[tx.data].size == 1 || tx.confidence > 0)
  }

  /** The safe tips among the listed ids. */
  ghost function SafeTipsAmong(txs: Store, conflicts: Conflicts, ids: seq<Id>): set<Transaction>
  {
    set id | id in ids && id in txs && SafeTip(txs, conflicts, txs[id]) :: txs[id]
  }

  /** eps1: every known transaction that is a safe tip. */
  ghost function SafeTips(txs: Store, conflicts: Conflicts): set<Transaction>
  {
    set id | id in txs && SafeTip(txs, conflicts, txs[id]) :: txs[id]
  }

  /** The strongly preferred transactions among the listed ids. */
  ghost function StronglyPreferredAmong(txs: Store, conflicts: Conflicts, ids: seq<Id>): set<Transaction>
  {
    set id | id in ids && id in txs && StronglyPreferred(txs, conflicts, txs[id]) :: txs[id]
  }

  /** eps0, as a set: every known transaction that is strongly preferred. */
  ghost function StronglyPreferredTxs(txs: Store, conflicts: Conflicts): set<Transaction>
  {
    set id | id in txs && StronglyPreferred(txs, conflicts, txs[id]) :: txs[id]
  }

  /** Listing one more id adds it to the strongly preferred ones when it is one. */
  lemma StronglyPreferredAmongStep(txs: Store, conflicts: Conflicts, ids: seq<Id>, i: int)
    requires 0 <= i < |ids|
    ensures StronglyPreferredAmong(txs, conflicts, ids[..i + 1]) ==
            StronglyPreferredAmong(txs, conflicts, ids[..i]) +
            (if ids[i] in txs && StronglyPreferred(txs, conflicts, txs[ids[i]]) then {txs[ids[i]]} else {})
  {
    assert ids[..i + 1] == ids[..i] + [ids[i]];
  }

  /** Listing every known id yields all strongly preferred transactions. */
  lemma StronglyPreferredAmongAll(txs: Store, order: seq<Id>, conflicts: Conflicts)
    requires WellFormed(txs, order)
    ensures StronglyPreferredAmong(txs, conflicts, order[..|order|]) == StronglyPreferredTxs(txs, conflicts)
  {
    assert order[..|order|] == order;
  }

  /** Listing one more id adds it to the safe tips when it is one. */
  lemma SafeTipsAmongStep(txs: Store, conflicts: Conflicts, ids: seq<Id>, i: int)
    requires 0 <= i < |ids|
    ensures SafeTipsAmong(txs, conflicts, ids[..i + 1]) ==
            SafeTipsAmong(txs, conflicts, ids[..i]) +
            (if ids[i] in txs && SafeTip(txs, conflicts, txs[ids[i]]) then {txs[ids[i]]} else {})
  {
    assert ids[..i + 1] == ids[..i] + [ids[i]];
  }

  /** Listing every known id yields all safe tips. */
  lemma SafeTipsAmongAll(txs: Store, order: seq<Id>, conflicts: Conflicts)
    requires WellFormed(txs, order)
    ensures SafeTipsAmong(txs, conflicts, order[..|order|]) == SafeTips(txs, conflicts)
  {
    assert order[..|order|] == order;
  }

  /** The ancestors of the given tips that are not in `exclude`. */
  ghost function Frontier(txs: Store, tips: set<Transaction>, exclude: set<Transaction>): set<Transaction>
  {
    set t, a | t in tips && a in Ancestry(txs, ParentIds(t.parents)) && a !in exclude :: a
  }

  /** The candidate parents: ancestors of safe tips that are not safe tips themselves. */
  ghost function Candidates(txs: Store, conflicts: Conflicts): set<Transaction>
  {
    Frontier(txs, SafeTips(txs, conflicts), SafeTips(txs, conflicts))
  }

  /** Every direct parent of `tx` is in `accepted`. */
  predicate ParentsIn(accepted: set<Id>, tx: Transaction)
  {
    forall p :: p in tx.parents ==> p in accepted
  }

  /**
   The acceptance rule for a queried, not yet accepted transaction whose
   conflict set is `cs`, given whether all its direct parents are accepted:
   either they are, the set is uncontested and its confidence is strictly
   above beta1; or it is the preferred member and the set's counter is
   strictly above beta2.
   */
  predicate AcceptRule(beta1: int, beta2: int, cs: ConflictSet, parentsAccepted: bool, tx: Transaction)
  {
    || (parentsAccepted && cs.size == 1 && tx.confidence > beta1)
    || (Equal(cs.pref, tx) && cs.count > beta2)
  }

  /**
   Whether the acceptance test succeeds, on the accepted set `accepted`, for
   a transaction that is not yet accepted: it was queried, its conflict set
   is registered, and the acceptance rule holds.
   */
  predicate Accepts(beta1: int, beta2: int, accepted: set<Id>, queried: set<Id>, conflicts: Conflicts, x: Transaction)
  {
    x.id in queried && x.data in conflicts && AcceptRule(beta1, beta2, conflicts[x.data], ParentsIn(accepted, x), x)
  }

  /** The accepted set after asking whether `x` is accepted. */
  function AcceptOne(beta1: int, beta2: int, accepted: set<Id>, queried: set<Id>, conflicts: Conflicts, x: Transaction): set<Id>
  {
    if x.id in accepted || Accepts(beta1, beta2, accepted, queried, conflicts, x) then accepted + {x.id} else accepted
  }

  /** The accepted set after asking, first to last, whether each member of `rc` is accepted. */
  function AcceptAll(beta1: int, beta2: int, accepted: set<Id>, queried: set<Id>, conflicts: Conflicts, rc: seq<Transaction>): set<Id>
    decreases |rc|
  {
    if rc == [] then accepted
    else AcceptOne(beta1, beta2, AcceptAll(beta1, beta2, accepted, queried, conflicts, rc[..|rc| - 1]), queried, conflicts, rc[|rc| - 1])
  }

  /** Asking about one more member of a prefix applies one more step. */
  lemma AcceptAllStep(beta1: int, beta2: int, a0: set<Id>, queried: set<Id>, conflicts: Conflicts, rc: seq<Transaction>, j: int)
    requires 0 <= j < |rc|
    ensures AcceptAll(beta1, beta2, a0, queried, conflicts, rc[..j + 1]) ==
            AcceptOne(beta1, beta2, AcceptAll(beta1, beta2, a0, queried, conflicts, rc[..j]), queried, conflicts, rc[j])
  {
    assert rc[..j + 1][..j] == rc[..j];
  }

  /** A larger accepted set can only help the acceptance test. */
  lemma AcceptsMonotone(beta1: int, beta2: int, a: set<Id>, b: set<Id>, queried: set<Id>, conflicts: Conflicts, x: Transaction)
    requires a <= b
    requires Accepts(beta1, beta2, a, queried, conflicts, x)
    ensures Accepts(beta1, beta2, b, queried, conflicts, x)
  {
  }

  /** The accepted set only grows, and only by ids of the list asked about. */
  lemma {:induction false} AcceptAllGrows(beta1: int, beta2: int, a0: set<Id>, queried: set<Id>, conflicts: Conflicts, rc: seq<Transaction>)
    ensures a0 <= AcceptAll(beta1, beta2, a0, queried, conflicts, rc) <= a0 + Ids(rc)
    decreases |rc|
  {
    if rc != [] {
      var p := rc[..|rc| - 1];
      AcceptAllGrows(beta1, beta2, a0, queried, conflicts, p);
      assert rc == p + [rc[|rc| - 1]];
      assert Ids(rc) == Ids(p) + {rc[|rc| - 1].id};
    }
  }

  /** Every member of the list that passes the test on the initial set ends up accepted. */
  lemma {:induction false} AcceptAllComplete(beta1: int, beta2: int, a0: set<Id>, queried: set<Id>, conflicts: Conflicts, rc: seq<Transaction>)
    ensures forall x :: x in rc && Accepts(beta1, beta2, a0, queried, conflicts, x) ==>
              x.id in AcceptAll(beta1, beta2, a0, queried, conflicts, rc)
    decreases |rc|
  {
    if rc != [] {
      var p := rc[..|rc| - 1];
      var last := rc[|rc| - 1];
      AcceptAllComplete(beta1, beta2, a0, queried, conflicts, p);
      AcceptAllGrows(beta1, beta2, a0, queried, conflicts, p);
      var r' := AcceptAll(beta1, beta2, a0, queried, conflicts, p);
      assert rc == p + [last];
      forall x | x in rc && Accepts(beta1, beta2, a0, queried, conflicts, x)
        ensures x.id in AcceptAll(beta1, beta2, a0, queried, conflicts, rc)
      {
        if x !in p {
          AcceptsMonotone(beta1, beta2, a0, r', queried, conflicts, x);
        }
      }
    }
  }

  /**
   In a list without repeated ids, every member that joined the accepted set
   passes the test on the final set.
   */
  lemma {:induction false} AcceptAllSound(beta1: int, beta2: int, a0: set<Id>, queried: set<Id>, conflicts: Conflicts, rc: seq<Transaction>)
    requires forall a, b :: 0 <= a < b < |rc| ==> rc[a].id != rc[b].id
    ensures forall x :: x in rc && x.id in AcceptAll(beta1, beta2, a0, queried, conflicts, rc) && x.id !in a0 ==>
              Accepts(beta1, beta2, AcceptAll(beta1, beta2, a0, queried, conflicts, rc), queried, conflicts, x)
    decreases |rc|
  {
    if rc != [] {
      var n := |rc| - 1;
      var p := rc[..n];
      var last := rc[n];
      AcceptAllSound(beta1, beta2, a0, queried, conflicts, p);
      AcceptAllGrows(beta1, beta2, a0, queried, conflicts, p);
      var r' := AcceptAll(beta1, beta2, a0, queried, conflicts, p);
      assert AcceptAll(beta1, beta2, a0, queried, conflicts, rc) == AcceptOne(beta1, beta2, r', queried, conflicts, last);
      assert rc == p + [last];
      LastIdFresh(rc);
      forall x | x in rc && x.id in AcceptOne(beta1, beta2, r', queried, conflicts, last) && x.id !in a0
        ensures Accepts(beta1, beta2, AcceptOne(beta1, beta2, r', queried, conflicts, last), queried, conflicts, x)
      {
        AcceptSoundStep(beta1, beta2, a0, queried, conflicts, p, last, r', x);
      }
    }
  }

  /** In a list without repeated ids, no earlier member shares the id of the last one. */
  lemma LastIdFresh(rc: seq<Transaction>)
    requires |rc| > 0
    requires forall a, b :: 0 <= a < b < |rc| ==> rc[a].id != rc[b].id
    ensures forall y :: y in rc[..|rc| - 1] ==> y.id != rc[|rc| - 1].id
  {
    forall y | y in rc[..|rc| - 1]
      ensures y.id != rc[|rc| - 1].id
    {
      var k :| 0 <= k < |rc| - 1 && rc[..|rc| - 1][k] == y;
      assert rc[k] == y;
    }
  }

  /** One step of the soundness induction: the member asked about last, or an earlier one. */
  lemma AcceptSoundStep(beta1: int, beta2: int, a0: set<Id>, queried: set<Id>, conflicts: Conflicts,
                        p: seq<Transaction>, last: Transaction, r': set<Id>, x: Transaction)
    requires forall y :: y in p && y.id in r' && y.id !in a0 ==> Accepts(beta1, beta2, r', queried, conflicts, y)
    requires r' <= a0 + Ids(p)
    requires forall y :: y in p ==> y.id != last.id
    requires x in p || x == last
    requires x.id in AcceptOne(beta1, beta2, r', queried, conflicts, last) && x.id !in a0
    ensures Accepts(beta1, beta2, AcceptOne(beta1, beta2, r', queried, conflicts, last), queried, conflicts, x)
  {
    if x.id !in r' {
      assert x == last;
    }
    AcceptsMonotone(beta1, beta2, r', AcceptOne(beta1, beta2, r', queried, conflicts, last), queried, conflicts, x);
  }

  /** Asking about the whole list as a prefix is asking about the list. */
  lemma AcceptAllDone(beta1: int, beta2: int, a0: set<Id>, queried: set<Id>, conflicts: Conflicts, rc: seq<Transaction>)
    ensures AcceptAll(beta1, beta2, a0, queried, conflicts, rc[..|rc|]) == AcceptAll(beta1, beta2, a0, queried, conflicts, rc)
  {
    assert rc[..|rc|] == rc;
  }

  /** Two preferred transactions with the same conflict key are the same value. */
  lemma PreferredUnique(conflicts: Conflicts, a: Transaction, b: Transaction)
    requires Preferred(conflicts, a) && Preferred(conflicts, b) && a.data == b.data
    ensures a == b
  {
  }

  /**
   A copy of the preferred transaction whose annotations have drifted (same
   id, different chit or confidence) is not preferred.
   */
  lemma StaleCopyNotPreferred(conflicts: Conflicts, a: Transaction, b: Transaction)
    requires Preferred(conflicts, a)
    requires b.id == a.id && b.data == a.data && (b.chit != a.chit || b.confidence != a.confidence)
    ensures !Preferred(conflicts, b)
  {
  }

  /** A transaction without known parents (genesis, say) is strongly preferred. */
  lemma ParentlessStronglyPreferred(txs: Store, conflicts: Conflicts, tx: Transaction)
    requires forall p :: p in tx.parents ==> p !in txs
    ensures StronglyPreferred(txs, conflicts, tx)
  {
    NoKnownParentsNoAncestry(txs, ParentIds(tx.parents));
  }

  /** Strong preference is inherited by every ancestor. */
  lemma StronglyPreferredInherited(txs: Store, conflicts: Conflicts, tx: Transaction, a: Transaction)
    requires IdIndexed(txs)
    requires StronglyPreferred(txs, conflicts, tx)
    requires a in Ancestry(txs, ParentIds(tx.parents))
    ensures Preferred(conflicts, a) && StronglyPreferred(txs, conflicts, a)
  {
    AncestryTransitive(txs, ParentIds(tx.parents), a);
  }

  /**
   Every candidate parent is a known transaction, an ancestor of some safe
   tip, preferred and strongly preferred itself, and, not being a safe tip,
   contested and never yet favoured.
   */
  lemma CandidatesShape(txs: Store, conflicts: Conflicts, a: Transaction)
    requires IdIndexed(txs)
    requires a in Candidates(txs, conflicts)
    ensures a.id in txs && txs[a.id] == a
    ensures exists t :: t in SafeTips(txs, conflicts) && a in Ancestry(txs, ParentIds(t.parents))
    ensures a !in SafeTips(txs, conflicts)
    ensures Preferred(conflicts, a) && StronglyPreferred(txs, conflicts, a)
    ensures conflicts[a.data].size != 1 && a.confidence <= 0
  {
    var t :| t in SafeTips(txs, conflicts) && a in Ancestry(txs, ParentIds(t.parents));
    StronglyPreferredInherited(txs, conflicts, t, a);
    assert a == txs[a.id];
    assert !SafeTip(txs, conflicts, a);
  }

  /** A store holding one transaction offers no candidate parents. */
  lemma SingletonNoCandidates(txs: Store, order: seq<Id>, conflicts: Conflicts)
    requires WellFormed(txs, order) && |order| == 1
    ensures Candidates(txs, conflicts) == {}
  {
    forall t | t in SafeTips(txs, conflicts)
      ensures Ancestry(txs, ParentIds(t.parents)) == {}
    {
      SingletonNoAncestry(txs, order, t);
    }
  }

  /** Adding one tip to a frontier adds that tip's ancestors outside `exclude`. */
  lemma FrontierAdd(txs: Store, done: set<Transaction>, t: Transaction, exclude: set<Transaction>)
    ensures Frontier(txs, done + {t}, exclude) ==
            Frontier(txs, done, exclude) + (Ancestry(txs, ParentIds(t.parents)) - exclude)
  {
  }

  /** Strictness of beta1: confidence equal to beta1 does not pass the first rule, beta1 + 1 does. */
  lemma BetaOneIsStrict(beta1: int, beta2: int, cs: ConflictSet, tx: Transaction)
    requires cs.size == 1
    requires !(Equal(cs.pref, tx) && cs.count > beta2)
    ensures tx.confidence == beta1 ==> !AcceptRule(beta1, beta2, cs, true, tx)
    ensures tx.confidence == beta1 + 1 ==> AcceptRule(beta1, beta2, cs, true, tx)
  {
  }

  /** Strictness of beta2 for the preferred member of a contested set. */
  lemma BetaTwoIsStrict(beta1: int, beta2: int, cs: ConflictSet, parentsAccepted: bool, tx: Transaction)
    requires cs.size != 1 && cs.pref == tx
    ensures cs.count == beta2 ==> !AcceptRule(beta1, beta2, cs, parentsAccepted, tx)
    ensures cs.count == beta2 + 1 ==> AcceptRule(beta1, beta2, cs, parentsAccepted, tx)
  {
  }

  /**
   Safety of a single decision: of two different transactions in the same
   contested conflict set, at most one passes the acceptance rule.
   */
  lemma ContestedAcceptsAtMostOne(beta1: int, beta2: int, cs: ConflictSet, parentsA: bool, parentsB: bool,
                                   a: Transaction, b: Transaction)
    requires a != b && cs.size > 1
    ensures !(AcceptRule(beta1, beta2, cs, parentsA, a) && AcceptRule(beta1, beta2, cs, parentsB, b))
  {
  }

  // ---------------------------------------------------------------------
  // Deviations of the C++ implementation from its evident intent, each modelled both
  // as written and as intended.
  // ---------------------------------------------------------------------

  /**
   Strong preference as written: the loop over the ancestry tests the
   transaction itself instead of the loop variable, so the result is "no
   ancestry, or the transaction itself is preferred".
   */
  ghost predicate StronglyPreferredAsWritten(txs: Store, conflicts: Conflicts, tx: Transaction)
  {
    Ancestry(txs, ParentIds(tx.parents)) == {} || Preferred(conflicts, tx)
  }

  /** A preferred child of an unpreferred parent passes the as-written test but not the intended one. */
  lemma StronglyPreferredAsWrittenMisses()
    ensures var g := Transaction(0, -1, [], 1, 0);
            var rival := Transaction(2, -1, [], 0, 3);
            var t := Transaction(1, 7, [0], 0, 0);
            var txs := map[0 := g, 1 := t, 2 := rival];
            var conflicts := map[-1 := ConflictSet(rival, rival, 0, 2), 7 := ConflictSet(t, t, 0, 1)];
            StronglyPreferredAsWritten(txs, conflicts, t) && !StronglyPreferred(txs, conflicts, t)
  {
    var g := Transaction(0, -1, [], 1, 0);
    var rival := Transaction(2, -1, [], 0, 3);
    var t := Transaction(1, 7, [0], 0, 0);
    var txs := map[0 := g, 1 := t, 2 := rival];
    var conflicts := map[-1 := ConflictSet(rival, rival, 0, 2), 7 := ConflictSet(t, t, 0, 1)];
    assert ParentIds(t.parents) == {0};
    KnownRootsInAncestry(txs, {0});
    assert g in Ancestry(txs, {0});
    assert !Preferred(conflicts, g);
  }

  /** The value parent selection returns, as written: always the empty list. */
  function SelectionAsWritten(candidates: seq<Transaction>, fallback: seq<Transaction>): seq<Transaction>
  {
    []
  }

  /** As written, even a node that falls back to genesis gets no parents. */
  lemma SelectionAsWrittenDropsFallback(g: Transaction)
    ensures SelectionAsWritten([], [g]) == [] && Selection([], [g]) == [g]
  {
  }

  /** The value parent selection is meant to return: the candidates if any, else the fallback. */
  function Selection(candidates: seq<Transaction>, fallback: seq<Transaction>): (r: seq<Transaction>)
    ensures candidates != [] ==> r == candidates
    ensures candidates == [] ==> r == fallback
    ensures r == [] <==> candidates == [] && fallback == []
  {
    if |candidates| > 0 then candidates else fallback
  }

  /**
   The transaction `create_tx` builds, as written: the parent ids are
   computed and then dropped, so it has no parents.
   */
  function NewTransactionAsWritten(id: Id, data: int, edge: seq<Transaction>): Transaction
  {
    Transaction(id, data, [], 0, 0)
  }

  /** As written, a transaction created with selected parents records none of them. */
  lemma NewTransactionAsWrittenDropsParents(id: Id, data: int, edge: seq<Transaction>)
    requires edge != []
    ensures NewTransactionAsWritten(id, data, edge).parents != NewTransaction(id, data, edge).parents
  {
  }

  /** The transaction `create_tx` is meant to build: the ids of the selected parents, in order. */
  function NewTransaction(id: Id, data: int, edge: seq<Transaction>): (t: Transaction)
    ensures t.id == id && t.data == data && t.chit == 0 && t.confidence == 0
    ensures |t.parents| == |edge|
    ensures forall i :: 0 <= i < |edge| ==> t.parents[i] == edge[i].id
  {
    Transaction(id, data, seq(|edge|, i requires 0 <= i < |edge| => edge[i].id), 0, 0)
  }
}
