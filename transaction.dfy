/**
 The value types of an Avalanche node: a transaction with its per-node
 annotations, and the bookkeeping record of one conflict set. Both are plain
 structs that every operation copies, so they are datatypes here.
 */
module Transactions {

  /** Abstract transaction identifier, standing for a random 128-bit UUID. */
  type Id = nat

  /**
   A transaction: identity, conflict key (`data`), the ids of its parents,
   and two annotations local to the node holding the copy: the outcome of
   its last voting round (`chit`) and its accumulated `confidence`.
   */
  datatype Transaction = Transaction(
    id: Id,
    data: int,
    parents: seq<Id>,
    chit: int,
    confidence: int)

  /**
   The default constructor: a fresh id (drawn from the UUID generator, here a
   parameter), conflict key -1, no parents, chit 1 and confidence 0. The
   network's genesis transaction is built this way.
   */
  function Default(newId: Id): (t: Transaction)
    ensures t.id == newId
    ensures t.data == -1 && t.parents == [] && t.chit == 1 && t.confidence == 0
  {
    Transaction(newId, -1, [], 1, 0)
  }

  /**
   `operator==`: field-wise comparison of all five fields, annotations
   included. It is exactly value identity, so two copies of one transaction
   whose chit or confidence have drifted apart are different.
   */
  function Equal(a: Transaction, b: Transaction): (r: bool)
    ensures r <==> a == b
    ensures a.id == b.id && (a.chit != b.chit || a.confidence != b.confidence) ==> !r
  {
    a.id == b.id && a.data == b.data && a.parents == b.parents &&
    a.chit == b.chit && a.confidence == b.confidence
  }

  /**
   The copy constructor and the move constructor: both build the new value
   field by field from the source (the move takes a const reference, so it
   copies too).
   */
  function Copy(tx: Transaction): (t: Transaction)
    ensures Equal(t, tx)
  {
    Transaction(tx.id, tx.data, tx.parents, tx.chit, tx.confidence)
  }

  /**
   `operator=`: overwrites the target's five fields with the source's
   (`std::move` of a const reference copies), returning the new target.
   */
  function Assign(target: Transaction, src: Transaction): (t: Transaction)
    ensures Equal(t, src)
  {
    target.(id := src.id, data := src.data, parents := src.parents,
            chit := src.chit, confidence := src.confidence)
  }

  /**
   One conflict set: the preferred member, the member whose confidence was
   raised last, how many consecutive rounds `last` stayed unchanged, and how
   many members were registered. Members are stored as copies.
   */
  datatype ConflictSet = ConflictSet(
    pref: Transaction,
    last: Transaction,
    count: int,
    size: int)

  /**
   A value-initialised conflict set: both members default-constructed (each
   with its own fresh id), count and size zero.
   */
  function NewConflictSet(prefId: Id, lastId: Id): (c: ConflictSet)
    ensures c.count == 0 && c.size == 0
    ensures c.pref == Default(prefId) && c.last == Default(lastId)
  {
    ConflictSet(Default(prefId), Default(lastId), 0, 0)
  }
}

/** The protocol parameters a node consults. */
module Params {

  /**
   The integer parameters the model uses: the number of nodes the network
   builds and the two acceptance thresholds. The sample size and the
   floating-point ones (`alpha`, the double-spend ratio) are read only by
   code outside this model; the random seed seeds the network's generator,
   which is not modelled.
   */
  datatype Parameters = Parameters(numNodes: int, beta1: int, beta2: int)
}
