# Avalanche node decision core, in Dafny

This project models the local decision logic of one node in an
Avalanche-style consensus protocol over a DAG of transactions. It covers:

- The node's state: its ordered store of known transactions, its conflict
  sets keyed by the `data` conflict key, the memoised ancestry cache
  `parent_sets`, and the id sets `queried` and `accepted`.
- The rules the node applies to that state:
  - transitive ancestry (`parent_set`);
  - preference and strong preference;
  - the memoised acceptance test with its strict `beta1`/`beta2` thresholds;
  - parent selection: eps0/eps1 safe tips, the ancestor frontier of
    candidate parents, and the fallback of at most 3 from the 10 newest;
  - creation of a new transaction from the selected parents.
- The value types `Transaction` and `ConflictSet`, and a network that builds
  its nodes around one shared genesis transaction.

Modules, leaves first:

- `transaction.dfy` (`Transactions`, `Params`): the transaction and conflict
  set value types, the struct operations (default, copy and move
  constructors, `operator==`, `operator=`), and the parameters the model uses.
- `dag.dfy` (`Dag`): the graph a node knows.
  - `Ancestry` is the reference definition: the known transactions reachable
    from a parent list through known transactions.
  - `Collected` is what the breadth-first traversal gathers round by round,
    and it is proved to meet `Ancestry`.
  - `WellFormed` is the store invariant: every known parent is listed before
    its child. So the graph is acyclic and the traversal terminates.
- `rules.dfy` (`Rules`): preference, strong preference, safe tips,
  candidates and the acceptance rule, stated on values, with their lemmas.
  It also holds the as-written and the intended forms of the three
  deviations listed under Findings.
- `node.dfy` (`Avalanche`): the `Node` class. Its fields are the state
  above, and its methods are the node's operations, each proved against the
  functions of `Dag` and `Rules`. A ghost map `edges` records the parent
  list each cached id stands for. Ids are unique, so one id always comes
  with one parent list; this is what makes an id-keyed cache sound.
- `network.dfy` (`Simulation`): the `Network` class and its constructor.

## Model

| member | source | states |
|---|---|---|
| Transactions.Default | avalanche.hpp:23-26 | a default transaction has the given fresh id, data -1, no parents, chit 1 and confidence 0 |
| Transactions.Equal | avalanche.hpp:40-45 | equality is field-wise over all five fields, so it coincides with value identity; same id with different chit or confidence is unequal |
| Transactions.Copy | avalanche.hpp:28-38 | the copy and move constructors yield a value equal to the source |
| Transactions.Assign | avalanche.hpp:47-55 | after assignment the target equals the source on all five fields |
| Transactions.NewConflictSet | avalanche.hpp:77-81 | a fresh conflict set has count 0, size 0 and default-constructed pref and last |
| Dag.LayerRank | avalanche.cpp:39-59 | a known id reached after k traversal rounds lies at least k places before the end of the store order |
| Dag.LayerEmptyBeyond | avalanche.cpp:39-59 | in a well-formed store the traversal's frontier is empty after more rounds than there are known transactions, so the loop ends |
| Dag.SelfParentNeverEmpties | avalanche.cpp:39-59 | on a store where a transaction lists itself as its parent, the frontier is the same non-empty set in every round, so the traversal, which keeps no visited set, never ends |
| Dag.CollectedComplete | avalanche.cpp:39-59 | once the frontier is empty, what the rounds collected is exactly the ancestry |
| Dag.KnownRootsInAncestry | avalanche.cpp:38-46 | every known direct parent is in the ancestry |
| Dag.AncestryStored | avalanche.cpp:41-46 | every ancestor is a known transaction, stored under its own id; unknown ids contribute nothing |
| Dag.AncestryClosed | avalanche.cpp:47-58 | the ancestry is closed under known parents |
| Dag.AncestryLeast | avalanche.cpp:38-59 | the ancestry is the least set holding the known roots and closed under known parents |
| Dag.AncestryTransitive | avalanche.cpp:38-59 | the ancestry of an ancestor is contained in the ancestry |
| Dag.NoKnownParentsNoAncestry | avalanche.cpp:38-59 | a transaction none of whose parents is known has empty ancestry |
| Dag.SingletonNoAncestry | avalanche.cpp:38-59 | in a store of one transaction, that transaction has empty ancestry |
| Dag.ListedIdsAll | avalanche.cpp:109 | iterating the whole store order visits exactly the known ids |
| Rules.Preferred | avalanche.cpp:64-70 | false when no conflict set is registered for the key; otherwise true iff the stored pref equals the transaction field for field |
| Rules.PreferredUnique | avalanche.cpp:64-70 | two preferred transactions with the same conflict key are the same value |
| Rules.StaleCopyNotPreferred | avalanche.cpp:64-70 | a copy of the preferred transaction whose chit or confidence has drifted is not preferred |
| Rules.ParentlessStronglyPreferred | avalanche.cpp:72-78 | a transaction without known parents (genesis) is strongly preferred, vacuously |
| Rules.StronglyPreferredInherited | avalanche.cpp:72-78 | every ancestor of a strongly preferred transaction is preferred and strongly preferred itself |
| Rules.CandidatesShape | avalanche.cpp:109-126 | a candidate parent is stored, is an ancestor of some safe tip and not itself a safe tip, is preferred and strongly preferred, and so sits in a contested set with confidence at most 0 |
| Rules.SingletonNoCandidates | avalanche.cpp:109-126 | a node knowing one transaction has no candidate parents |
| Rules.BetaOneIsStrict | avalanche.cpp:96-98 | with accepted parents in a singleton set, confidence equal to beta1 fails the first rule and beta1 + 1 passes it |
| Rules.BetaTwoIsStrict | avalanche.cpp:96-98 | for the preferred member of a contested set, count equal to beta2 fails and beta2 + 1 passes |
| Rules.ContestedAcceptsAtMostOne | avalanche.cpp:96-98 | of two different transactions in one contested conflict set, at most one passes the acceptance rule |
| Rules.AcceptAllStep | avalanche.cpp:141-144 | asking about one more member of the list applies one more acceptance step to the set reached so far |
| Rules.AcceptAllGrows | avalanche.cpp:99-100 | asking in turn about a list only adds ids, and only ids of that list |
| Rules.AcceptAllComplete | avalanche.cpp:96-100 | every member of the list that passes the acceptance test on the initial set is accepted at the end; an earlier acceptance never blocks a later one |
| Rules.AcceptAllSound | avalanche.cpp:96-100 | in a list without repeated ids, every member that joined passes the acceptance test on the final set |
| Rules.StronglyPreferredAsWrittenMisses | avalanche.cpp:74-77 | on a concrete store, the as-written test accepts a preferred child of an unpreferred parent that the intended test rejects |
| Rules.SelectionAsWrittenDropsFallback | avalanche.cpp:151 | as written, a node with no candidates returns no parents even when the fallback is genesis |
| Rules.Selection | avalanche.cpp:128-151 | the result is the candidates when there are any, else the fallback; it is empty only when both are |
| Rules.NewTransactionAsWrittenDropsParents | avalanche.cpp:12 | as written, a transaction created with selected parents records none of them |
| Rules.NewTransaction | avalanche.cpp:8-12 | the new transaction has the given id and data, chit 0, confidence 0, and the ids of the selected parents in order |
| Avalanche.Node.constructor | avalanche.hpp:88-92 | a node keeps its id, the parameters and its copy of genesis, and starts with empty state satisfying its invariant |
| Avalanche.Node.InsertKnown | avalanche.cpp:41-46 | one round adds exactly the known transactions of the frontier to the result |
| Avalanche.Node.Traverse | avalanche.cpp:37-59 | the breadth-first rounds from a parent list gather exactly the ancestry of that list |
| Avalanche.Node.GatherParents | avalanche.cpp:47-58 | the next frontier is exactly the parents of the known ids of the current one |
| Avalanche.Node.ParentSet | avalanche.cpp:31-62 | returns the ancestry of the transaction; a cached entry is returned unchanged; afterwards the cache maps the id to the result and nothing else changes; the node invariant is kept |
| Avalanche.Node.IsStronglyPreferred | avalanche.cpp:72-78 | the result is true iff every ancestor is preferred; the only state change is the ancestry cache entry |
| Avalanche.Node.ParentsAccepted | avalanche.cpp:89-95 | true iff every direct parent id is in accepted |
| Avalanche.Node.IsAccepted | avalanche.cpp:80-102 | true at once for an accepted id, false for an unqueried one, otherwise the acceptance rule on the registered conflict set; accepted gains the id exactly when the answer is true, and nothing else changes |
| Avalanche.Node.TakeRecent | avalanche.cpp:134-139 | the up to 10 most recently listed transactions, newest first, which is the reference list `Dag.Recent` |
| Avalanche.Node.RecentWindow | avalanche.cpp:134-139 | the recent list holds exactly the transactions of the 10 last listed ids |
| Avalanche.Node.RecentList | avalanche.cpp:134-139 | the recent list holds distinct known transactions, and its ids are exactly the 10 last listed ids |
| Avalanche.Node.FilterUndecided | avalanche.cpp:140-146 | asks the acceptance test of each member of the recent list in turn: the new accepted set is exactly the fold `Rules.AcceptAll` of those tests; every member that joined passes the rule on the new set, and every member that passed it on the old set joined; the list keeps, without repetition, exactly the members that are then not accepted and alone in their registered conflict set |
| Avalanche.Node.FilterStep | avalanche.cpp:141-146 | the new accepted set is exactly one step `Rules.AcceptOne` of the acceptance test on `it` (its id joins when already accepted, or queried with a registered set passing the rule); `it` is kept exactly when it is then not accepted and alone in its registered conflict set |
| Avalanche.Node.RecentUndecided | avalanche.cpp:134-146 | the recent list is `Dag.Recent`; the new accepted set is the fold of the acceptance tests over it, so every id that joined passes the rule on the new set and every recent transaction that passed it on the old set joined; the filtered list holds, without repetition, exactly the undecided recent transactions |
| Avalanche.Node.RecentAcceptance | avalanche.cpp:134-146 | when the list asked about holds exactly the recent transactions, soundness and completeness of the fold carry over to the recent ids |
| Avalanche.Node.FirstUndecided | avalanche.cpp:148 | the first (up to) 3 of the filtered list are at most 3 distinct undecided recent transactions, and all of them when fewer than 3 exist |
| Avalanche.Node.Fallback | avalanche.cpp:128-150 | genesis alone, and accepted unchanged, when one transaction is known; otherwise at most 3 distinct known transactions from the 10 newest, none accepted, each alone in its conflict set, and every such transaction when fewer than 3 are returned; accepted becomes exactly the fold of the acceptance tests over the 10 newest, with soundness and completeness of the ids that joined |
| Avalanche.Node.VisitTip | avalanche.cpp:110-115 | a strongly preferred transaction joins eps0, and eps1 exactly when its conflict set is registered with size 1 or its confidence is positive; the cache gains exactly the ancestry entry for its id, and edges are unchanged |
| Avalanche.Node.ScanStep | avalanche.cpp:109-116 | visiting place i of the store order extends eps0 and eps1 from the first i places to the first i + 1, and caches exactly that id |
| Avalanche.Node.ScanTips | avalanche.cpp:107-116 | eps0 holds exactly the strongly preferred known transactions and eps1 exactly the safe tips; afterwards every known id is cached, no entry is dropped or changed, no other key is added, and edges are unchanged |
| Avalanche.Node.CandidateList | avalanche.cpp:107-127 | the members of the collected list are exactly the candidate parents; the cache keeps every entry and its keys become exactly the old ones plus every known id; edges are unchanged |
| Avalanche.Node.CollectCandidates | avalanche.cpp:117-127 | the collected list holds exactly the ancestors of safe tips that are not safe tips; the cache keeps every entry and its keys become exactly the old ones plus the safe tips' ids |
| Avalanche.Node.CollectTip | avalanche.cpp:120-126 | one safe tip appends exactly its ancestors outside eps1, and the cache gains exactly the entry for its id |
| Avalanche.Node.AppendOutside | avalanche.cpp:122-125 | appends exactly the members of the ancestry that are outside eps1 |
| Avalanche.Node.ParentSelection | avalanche.cpp:104-152 | the candidates when there are any, else a list meeting the fallback bounds; a node knowing one transaction gets exactly genesis and accepts nothing; otherwise accepted becomes exactly the fold of the acceptance tests over the 10 newest, with soundness and completeness; the cache keeps every entry and its keys become the old ones plus every known id; the invariant is kept |
| Avalanche.Node.SelectFrom | avalanche.cpp:128-151 | the candidate list when non-empty, else a list of the fallback's shape; accepted changes as in the fallback |
| Avalanche.Node.CreateTx | avalanche.cpp:5-15 | the new transaction has the given id and data, chit 0 and confidence 0, and its parents are the ids of a selected parent list; a node knowing one transaction creates a child of genesis; accepted changes exactly as in parent selection, the cache's keys become the old ones plus every known id with no entry changed, and edges are unchanged |
| Simulation.Network.constructor | avalanche.hpp:111-116 | builds num_nodes + 1 distinct fresh nodes, numbered from 0, each with the parameters and a copy of the one default-constructed genesis |

## Left out

- Fallback: the random shuffle at avalanche.cpp:147 is not modelled. The filtered list is taken in recency order. The contract says which transactions are eligible, that at most 3 are taken, and that all eligible ones are taken when fewer than 3 exist. It does not say which 3 are taken when more exist, because the shuffle decides that.
- UUID generation is left out: ids are natural numbers passed in as parameters (`Default`, `NewConflictSet`, `CreateTx`, `Network.constructor`).
- `ParentSet`, `IsStronglyPreferred` and their callers require that a cached id stands for the same parent list as the transaction passed in. This stands for the uniqueness of random UUIDs, on which the C++ id-keyed cache relies.
- The C++ `transactions` is an ordered map. The model keeps a map plus the sequence `order` it iterates in. Parent selection iterates `order` forwards, and `rbegin()` walks it backwards.
- The node invariant assumes that `order` lists every known parent before its child. The declaration of `transactions` is not in the files modelled, and nothing in them sets its order. If the map is keyed by UUID, the iteration order does not follow parent edges. So `ScanTips`, `TakeRecent`, and "the 10 newest" in `Fallback`, are proved only for stores that iterate in a parents-first insertion order.
- The intended `parent_set` loop (avalanche.cpp:39-59) keeps no visited set, so it never ends on a cyclic store, for instance a transaction that lists itself as a parent (`Dag.SelfParentNeverEmpties`). The model's termination argument rests on the acyclic store that the node invariant demands.
- Integers are unbounded. The only arithmetic on a machine integer in the core is the `i++` loop counter of the `Network` constructor (avalanche.hpp:114), which overflows when `num_nodes` is `INT_MAX`. That case is not modelled.
- The order in which `std::set<Tx>` iterates is not modelled. The sets are Dafny sets, and the candidate list is stated by its members.
- `CollectCandidates`, `CandidateList`, `ParentSelection` and `CreateTx` state the candidate list by its members only, not how often each occurs. The C++ list holds a candidate once for every safe tip it is an ancestor of (avalanche.cpp:120-125), so the intended `create_tx` can repeat a parent id. Those repeats are not stated.
- Output is left out: `operator<<` and `to_string`, the Node's `protocol_loop`, and `Network::run`.
- From parameters.hpp, `parse_options` (command-line parsing through a foreign library) is left out, and so are the struct defaults. `Parameters` holds only the fields the model uses: `num_nodes`, `beta1` and `beta2`. The sample size `k`, `alpha`, `double_spend_ratio`, `num_transactions`, `seed`, `dump_dags` and `verbose` are not modelled.
- The simulation drivers main.cpp and main.cc are left out.
- `receive_tx` is left out: its body is empty (avalanche.cpp:17-19), so handing it a transaction changes nothing. There is no voting round, ingestion or ancestor fetching in the C++ implementation, and none is modelled.
- The Node's link to its network, used only for the random generator, is not modelled.
- The node constructor in avalanche.hpp:88-92 does not register genesis in the store, the conflict sets or the accepted set. The model follows the code: a new node starts empty.
- `IsAccepted` requires the conflict set to exist when the id is queried and not yet accepted. This is the C++ assertion at avalanche.cpp:87.
- `IsAccepted` checks the direct parents by membership in `accepted`, as the code does, and does not ask recursively whether they are accepted.
- The two-argument `Tx(data, parents)` constructor used by `create_tx` is not in avalanche.hpp. `NewTransaction` gives the new transaction chit 0 and confidence 0.
- At avalanche.cpp:55, the C++ implementation copies into `begin()` of an empty list. This has no defined behaviour, so `GatherParents` models the evident intent of appending.
- At avalanche.cpp:137 and avalanche.cpp:148, iterators advance past the end without a bound check, which has no defined behaviour. `TakeRecent` is modelled as "up to 10" and `Fallback` as "up to 3".
- `Network.constructor`: the generator `rng`, seeded from `params.seed` (avalanche.hpp:112), is not modelled. It feeds only the shuffle at avalanche.cpp:147, which is left out as well.
- `Network.constructor` models the nodes as `seq<Node>`, and shared ownership through `shared_ptr` is not modelled. When `num_nodes` is negative, no node is built.

## Findings

| source | as written | input that shows it | evidently intended | confidence | as-written member | corrected member |
|---|---|---|---|---|---|---|
| avalanche.cpp:74-77 | the loop over the ancestry tests `tx` instead of the loop variable, so it is "ancestry empty or tx preferred" | genesis g (id 0) loses its conflict set to a rival; child t (id 1, parents [0]) is preferred in its own set | every ancestor is preferred | not executed | Rules.StronglyPreferredAsWrittenMisses | Avalanche.Node.IsStronglyPreferred |
| avalanche.cpp:151 | `parent_selection` returns the empty list after building candidates and fallback | a node knowing only genesis: no candidates, fallback [genesis], result [] | candidates if non-empty, else the fallback | not executed | Rules.SelectionAsWrittenDropsFallback | Rules.Selection |
| avalanche.cpp:12 | `create_tx` builds `Tx(data, {})`, dropping the parent ids computed at lines 8-11 | any non-empty selected parent list | the new transaction's parents are the selected parents' ids | not executed | Rules.NewTransactionAsWrittenDropsParents | Rules.NewTransaction |
