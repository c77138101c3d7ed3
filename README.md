# Chord ring variants, modelled in Dafny

This project models the four Python implementations of a Chord distributed hash table kept
side by side in the repository. Each variant is its own module:

- `sinhilos.dfy` (sinHilos.py): successor lists of TOLERANCE+1 nodes, a set of known dead
  nodes, replication on failure, storage on a chain of TOLERANCE+1 live nodes and retrieval by
  linear probing.
- `uncontrolled.dfy` (uncontrolled.py): a timeout failure detector. Each node keeps a
  last-seen time and a miss counter per peer and evicts a peer after three misses.
- `mejordefirst.dfy` (mejordefirst.py): a recursive `find`, plus successor lists repaired by
  stabilize. A dead node answers `None` for every attribute but
  `alive`, `is_alive` and `reset`.
- `chorddht.dfy` (chorddht.py): the plain protocol with one successor. A dead node answers
  only `alive`, `is_alive` and `reset`, and raises on every other attribute it is asked for.

Shared helpers:

- `ring.dfy`: the circular arc tests `between` / `between_right_incl` and the finger start
  `(id + 2^i) mod 2^m`.
- `lists.dfy`: Python list operations: `list.remove`, slicing, dict-based de-duplication and
  prefixing a result; and the least member of a set, the order recover_data takes keys in.
- `wrappers.dfy`: `Option` and the `Outcome` of a call that may raise. `Fault` names the
  exception.

## How the model is built

- **Nodes.** A network of nodes is an arena `map<int, NodeState>` from identifier to node
  state. A Python object reference is its identifier, and the predicate `Closed` says every
  reference names a node of the arena.
- **Steps.** Each protocol step is a pure function from arena to arena, or to
  `Outcome<Arena>` where the Python code can raise. In uncontrolled.py, raising is the usual
  end of stabilize, and the other nodes go on reading what a raising call has already
  written. So that module's steps return a `Run`: `Done(state)` or `Raised(fault, state)`,
  where state is the arena the call leaves either way.
- **Methods.** Each module's `class Network` holds the arena in a field. Its methods run the
  same steps imperatively, with the source's loops written as `for`/`while` loops carrying
  invariants. Each method's `ensures` ties its new state, or its answer, to the step function.
- **Lemmas.** The properties the code promises are proved as lemmas about those functions.
- **Bounded loops.** Loops and recursions that the source may run forever carry a bound:
  - `find` in mejordefirst.py and chorddht.py gives up after `MaxDepth` = 1000 frames, which
    stands for Python's recursion limit;
  - the dead-node skip of sinHilos.py gives up after as many hops as there are nodes.

The model follows the code where it departs from the textbook protocol:
- in chorddht.py `find` answers the node *preceding* the key, and notify/stabilize use the
  right-inclusive arc;
- in uncontrolled.py a lookup cannot go past its first round, and every stabilize ends in
  `handle_failure` of its successor;
- in mejordefirst.py a dead node's attributes other than `alive`, `is_alive` and `reset` read
  as `None`, so calling any of its methods raises TypeError.

## Model

| member | source | states |
|---|---|---|
| Ring.FingerStart | sinHilos.py:163 | The start of finger i, `(id + 2^i) mod space`, lies in `[0, space)`. |
| Ring.Between | sinHilos.py:188-191 | The strict arc (a, b), wrapping when a >= b, never holds either end point. |
| Ring.BetweenRightIncl | sinHilos.py:182-185 | The arc (a, b] always holds b, and holds a only when a == b, where it is the whole ring. |
| Ring.RightInclIsBetweenOrEnd | sinHilos.py:182-191 | `between_right_incl(x, a, b)` holds exactly when `between(x, a, b)` does or x == b, for all x, a and b. |
| Ring.ArcsPartition | sinHilos.py:182-185 | For a != b, every x lies on exactly one of the arcs (a, b] and (b, a]. |
| Ring.DegenerateArcs | sinHilos.py:182-191 | (a, a] is the whole ring, and (a, a) is the whole ring except a. |
| Lists.FirstIndex | sinHilos.py:124 | The index found holds x, and x does not occur before it. |
| Lists.RemoveFirst | sinHilos.py:124 | `list.remove(x)` adds no entry. |
| Lists.RemoveFirstSpec | sinHilos.py:124 | A list without x is unchanged. Otherwise exactly the first occurrence of x is cut out. |
| Lists.Take | mejordefirst.py:80 | `s[:k]` has min(k, len(s)) entries, is s itself when s is short enough, and agrees with s position by position. |
| Lists.Distinct | uncontrolled.py:89-91 | `list({n.id: n for n in s}.values())` is no longer than s and starts with s's first entry. The rest is stated by DistinctSpec. |
| Lists.DistinctSpec | uncontrolled.py:89-91 | The dict-based de-duplication has no repeats, keeps exactly the members of s, is no longer than s, and leaves a repeat-free list as it is. |
| Lists.TakeNoDuplicates | uncontrolled.py:89-91 | A slice of a repeat-free list is repeat-free. |
| Lists.Least | uncontrolled.py:162 | The key recover_data takes next in ascending order is a member of the pending keys and no larger than any of them. |
| Lists.HasLeast | uncontrolled.py:162 | Every non-empty finite set of keys has a smallest member. |
| SinHilos.SkipDead | sinHilos.py:52-53 | The dead-node skip ends at a live node. It returns a live start unchanged, and otherwise fails only on an empty list or a dead cycle. |
| SinHilos.HighestFinger | sinHilos.py:70-73 | The slot found qualifies (live, strictly between n and key) and no higher slot does; with no slot found, none below i qualifies. |
| SinHilos.Closest | sinHilos.py:68-74 | closest_preceding_finger succeeds whenever n has a successor. Its answer is a node of the ring, and it is n only as n's own first successor. |
| SinHilos.ClosestPicksHighest | sinHilos.py:68-74 | The answer is the highest qualifying finger. With none qualifying it is successors[0], or IndexError on an empty list. |
| SinHilos.ClosestIsNotCurrent | sinHilos.py:56-64 | When the key is not in (c, successors[0]], the next hop differs from c. |
| SinHilos.Route | sinHilos.py:41-66 | find_successor's walk answers either the fallback self or a first successor r of a live node c with the key in (c, r]. |
| SinHilos.Lookup | sinHilos.py:41-66 | A lookup from n answers n (the fallback) or a node that owns the key in the sense above. |
| SinHilos.SkipDeadIgnoresData | sinHilos.py:52-53 | Two arenas that differ only in stored data give the same dead-node skip. |
| SinHilos.HighestFingerIgnoresData | sinHilos.py:70-73 | Stored data do not change which finger qualifies. |
| SinHilos.ClosestIgnoresData | sinHilos.py:68-74 | Stored data do not change closest_preceding_finger. |
| SinHilos.RouteIgnoresData | sinHilos.py:41-66 | Stored data do not change the answer of a lookup. |
| SinHilos.AliveOnly | sinHilos.py:28 | The filter keeps exactly the live members of the list, and only live ones, and is no longer than the list. |
| SinHilos.Refill | sinHilos.py:31-39 | The refill loop keeps the list as a prefix. Each entry it appends is live and new. It stops at TOLERANCE+1 entries. |
| SinHilos.CheckStep | sinHilos.py:25-39 | check_successors changes only n's successor list, leaves only live successors, and changes no node's liveness. |
| SinHilos.NotifyStep | sinHilos.py:114-119 | notify keeps the arena closed and changes no liveness. What it computes is stated by NotifyGuard. |
| SinHilos.NotifyGuard | sinHilos.py:114-119 | notify writes only m's predecessor, and sets it to c exactly when c is live and strictly between the old predecessor and m. |
| SinHilos.SetSuccessors | sinHilos.py:94 | Replacing n's list installs exactly s and changes no liveness. |
| SinHilos.StabilizeStep | sinHilos.py:86-112 | stabilize keeps the arena closed over the same nodes. What it computes is stated by StabilizeLeavesAlive, StabilizeKeepsLiveness and StabilizeAdopts. |
| SinHilos.StabilizeLeavesAlive | sinHilos.py:86-112 | After stabilize on a node with a successor, every successor is live. |
| SinHilos.StabilizeKeepsLiveness | sinHilos.py:86-112 | stabilize changes no node's liveness. |
| SinHilos.StabilizeAdopts | sinHilos.py:99-102 | When the successor is live and its predecessor x is live and strictly between n and it, x becomes the first successor. |
| SinHilos.Advance | sinHilos.py:143-145 | One step of the store walk reaches a live node. What it computes is stated by ChainLinks. |
| SinHilos.Chain | sinHilos.py:137-146 | A completed walk of k rounds lists k nodes starting at the owner. |
| SinHilos.ChainLinks | sinHilos.py:141-145 | Every chain entry after the first is live and is the next live node after the entry before it. |
| SinHilos.StoreTargets | sinHilos.py:135-146 | The nodes store writes are TOLERANCE+1 nodes headed by the lookup's answer. |
| SinHilos.WriteKey | sinHilos.py:148-149 | Exactly the chain's nodes get data[key] = v. No other data and no link changes. |
| SinHilos.WriteKeyStep | sinHilos.py:148-149 | Writing one more node extends the write by that node alone. |
| SinHilos.PrefixedStep | sinHilos.py:141-145 | One round of the walk moves the current node into the recorded prefix. |
| SinHilos.RetrieveFrom | sinHilos.py:151-158 | With no probes left, retrieve answers None. What it computes is stated by RetrieveHit and StoreThenRetrieve. |
| SinHilos.RetrieveHit | sinHilos.py:151-158 | A value retrieve answers was read from a live node, which the lookup names for the probed key, holding it under that key. |
| SinHilos.StoreThenRetrieve | sinHilos.py:135-158 | After store(key, v) writes its chain, retrieve(key) from the same node answers v, provided the owner found by the lookup is live. |
| SinHilos.Routes | sinHilos.py:129-133 | Every key's destination is a node of the ring. What it computes is stated by RoutesAt. |
| SinHilos.RoutesAt | sinHilos.py:131-133 | A key is routed exactly when n holds it, it lies in the dead node's range and its lookup succeeds. The route is that lookup's answer. |
| SinHilos.ReplicaRouteFails | sinHilos.py:131-133 | A key in the dead range whose lookup raises makes replicate_data raise. |
| SinHilos.ReplicaRoutesAll | sinHilos.py:131-133 | When every such key has a route, replicate_data does not raise. |
| SinHilos.Place | sinHilos.py:133 | Copying routed keys leaves the topology alone. What it computes is stated by PlaceStep. |
| SinHilos.PlaceKeepsUnhandled | sinHilos.py:131-133 | A key not yet handled keeps its old value everywhere. |
| SinHilos.PlaceNothing | sinHilos.py:131-133 | Handling no keys changes nothing. |
| SinHilos.PlaceStep | sinHilos.py:131-133 | Handling one key more adds exactly that key's write. |
| SinHilos.PlaceStepAt | sinHilos.py:131-133 | The same, node by node. |
| SinHilos.PushedToStep | sinHilos.py:131-133 | The keys routed to m grow by k exactly when k is routed to m. |
| SinHilos.Replicated | sinHilos.py:129-133 | replicate_data leaves the topology alone. What it computes is stated by ReplicatedPlaces. |
| SinHilos.ReplicatedPlaces | sinHilos.py:129-133 | Every handled key of the dead range sits, with n's value, on the node find_successor names. |
| SinHilos.WithFinger | sinHilos.py:164 | Replacing n's table changes n's fingers to f and nothing else. |
| SinHilos.WithFingerSame | sinHilos.py:164 | Writing back the same table changes nothing. |
| SinHilos.WithFingerTwice | sinHilos.py:164 | A second table write overrides the first. |
| SinHilos.FixFrom | sinHilos.py:160-164 | fix_fingers changes only n's table, keeps the slots below i, and changes no liveness. |
| SinHilos.FixFromStep | sinHilos.py:162-164 | A completed pass looked up slot i's start, and is that write followed by the rest of the loop. |
| SinHilos.FixSlotNow | sinHilos.py:162-164 | The slot just written resolves its start against the table as it stood. |
| SinHilos.FixSlotLater | sinHilos.py:162-164 | A later slot sees the same table whether or not the current step is counted. |
| SinHilos.FixFromResolvesFirst | sinHilos.py:162-164 | The first slot fix_fingers writes holds the lookup of its start. |
| SinHilos.FixFromResolvesSlot | sinHilos.py:160-164 | Every slot holds the lookup of its start against the table as it stood at that moment. |
| SinHilos.FixFingersResolvesAll | sinHilos.py:160-164 | After fix_fingers, every slot of the table is accounted for in that way. |
| SinHilos.Forget | sinHilos.py:123-126 | n records dead in known_dead and keeps only live successors. A dead `dead` is gone from the list. Nothing else about n changes, and nothing about any other node. |
| SinHilos.Forgotten | sinHilos.py:123-125 | The first two lines keep the arena closed over the same nodes. What it computes is stated by ForgetThenSame. |
| SinHilos.ForgetThenSame | sinHilos.py:121-127 | After handle_failure, liveness and every other node's list are unchanged, and a dead `dead` is no longer n's successor. |
| SinHilos.Reported | sinHilos.py:173-175 | One round for m: a dead m leaves the arena as it is. For a live m the round keeps the nodes, their liveness and every list but m's, and drops a dead `dead` from m's list. |
| SinHilos.KillRounds | sinHilos.py:173-175 | The loop over a list, each round on what the ones before left, keeps the nodes and their liveness. |
| SinHilos.Killed | sinHilos.py:169-175 | kill leaves n dead and every other node as alive as before. |
| SinHilos.KillRoundsKeepOut | sinHilos.py:173-175 | No round of kill puts the dead node back on a list it is missing from. |
| SinHilos.KillRoundsDrop | sinHilos.py:173-175 | After the rounds over a list, no live node of that list holds the dead node. |
| SinHilos.KillDrops | sinHilos.py:169-175 | After a completed kill, no live successor of n holds n. |
| SinHilos.JoinFrom | sinHilos.py:81-84 | The end of join keeps the arena closed over the same nodes. What it computes is stated by JoinFromSuccessorsAlive. |
| SinHilos.JoinFromSuccessorsAlive | sinHilos.py:81-84 | After the end of join, every successor of n is live. |
| SinHilos.JoinFromKeepsLiveness | sinHilos.py:81-84 | The end of join changes no liveness. |
| SinHilos.JoinStep | sinHilos.py:76-84 | join keeps the arena closed over the same nodes. What it computes is stated by JoinLeavesAlive. |
| SinHilos.JoinLeavesAlive | sinHilos.py:76-84 | A completed join leaves n only live successors and changes no liveness. |
| SinHilos.Network.AddNode | sinHilos.py:12-23 | A new node is live, is its own predecessor, has no successors and an empty store, and every finger names itself. |
| SinHilos.Network.SkipDeadFrom | sinHilos.py:52-53 | The loop computes SkipDead and ends at a live node. |
| SinHilos.Network.ClosestPrecedingFinger | sinHilos.py:68-74 | The downward scan computes Closest. |
| SinHilos.Network.FindSuccessor | sinHilos.py:41-66 | The loop computes Lookup, whose answer owns the key or is self, in at most as many rounds as identifiers. |
| SinHilos.Network.RefilledSuccessors | sinHilos.py:27-39 | The list computed is the filtered and refilled list. |
| SinHilos.Network.CheckSuccessors | sinHilos.py:25-39 | The new state is CheckStep's. |
| SinHilos.Network.Notify | sinHilos.py:114-119 | The new state is NotifyStep's. |
| SinHilos.Network.Stabilize | sinHilos.py:86-112 | The new state is StabilizeStep's. |
| SinHilos.Network.FixFingers | sinHilos.py:160-164 | The new state is FixFrom's from slot 0. Only n's table changes. |
| SinHilos.Network.StoreChain | sinHilos.py:137-146 | The walk computes Chain of TOLERANCE+1 rounds. |
| SinHilos.Network.WriteAll | sinHilos.py:148-149 | The loop performs WriteKey. |
| SinHilos.Network.Store | sinHilos.py:135-149 | store writes v under key on exactly the chain's nodes, and changes nothing when the walk raises. |
| SinHilos.Network.Retrieve | sinHilos.py:151-158 | The probe loop computes RetrieveFrom with TOLERANCE+1 probes. |
| SinHilos.Network.LookupAs | sinHilos.py:133 | A lookup on an arena that differs only in data answers as on the original. |
| SinHilos.Network.ReplicateData | sinHilos.py:129-133 | replicate_data succeeds exactly when every key of the dead range can be looked up, and then is Replicated over all of n's keys. The topology never changes. |
| SinHilos.Network.PushKey | sinHilos.py:131-133 | One round adds key k's write, or shows that replicate_data raises. |
| SinHilos.Network.DropDead | sinHilos.py:123-125 | The new state is Forgotten's. |
| SinHilos.Network.HandleFailure | sinHilos.py:121-127 | handle_failure keeps liveness and every other node's list, and removes a dead `dead` from n's list. On success its state is replication after Forget. |
| SinHilos.Network.Report | sinHilos.py:173-175 | One round of kill's loop fails exactly when Reported does and otherwise leaves Reported's state: a dead m changes nothing, a live one runs handle_failure. Liveness and the other lists keep, and a live m that completes drops the dead node. |
| SinHilos.Network.Kill | sinHilos.py:169-175 | kill fails exactly when Killed does and otherwise leaves Killed's state. It stops n, changes no other liveness, and each live successor drops n when the kill completes. |
| SinHilos.Network.Join | sinHilos.py:76-84 | The new state is JoinStep's. |
| SinHilos.Network.Settle | sinHilos.py:81-84 | The new state is JoinFrom's. |
| Uncontrolled.Contact | uncontrolled.py:95-98 | record_contact changes only records, never links. What it computes is stated by ContactRecords. |
| Uncontrolled.ContactRecords | uncontrolled.py:95-98 | record_contact stamps the peer with now and clears its counter, and touches nothing else. |
| Uncontrolled.Lookup | uncontrolled.py:100-126 | The answer of find_successor is a node of the ring. What it computes is stated by LookupAnswers. |
| Uncontrolled.LookupAnswers | uncontrolled.py:100-126 | The lookup succeeds exactly when the key lies in (n, successors[0]], and then answers successors[0]. An empty list raises IndexError. |
| Uncontrolled.LookupIgnoresRecords | uncontrolled.py:100-126 | Stores and records do not change a lookup's answer. |
| Uncontrolled.Dist | uncontrolled.py:156 | The sort key `(x - m) mod ID_SPACE` lies in `[0, ID_SPACE)`. |
| Uncontrolled.Insert | uncontrolled.py:156 | Inserting x adds x and keeps every other entry. What it computes is stated by InsertSorted. |
| Uncontrolled.InsertSorted | uncontrolled.py:156 | Inserting into a list sorted by distance keeps it sorted. |
| Uncontrolled.SortByDist | uncontrolled.py:156 | The sort is a permutation. What it computes is stated by SortByDistSorts. |
| Uncontrolled.SortByDistSorts | uncontrolled.py:156 | The sort orders by distance from m and is a permutation. |
| Uncontrolled.SetSuccessors | uncontrolled.py:157 | Replacing a list keeps the arena closed and changes no liveness. |
| Uncontrolled.MergedSpec | uncontrolled.py:153-157 | The merged list holds only old entries and c. When c is listed it is the old list. Otherwise it is sorted by distance from m, has at most TOLERANCE+1 entries, and every entry the cut drops lies at least as far from m as every entry kept. |
| Uncontrolled.CutKeepsNearest | uncontrolled.py:156-157 | Cutting a list sorted by distance keeps entries no farther from m than any entry dropped. |
| Uncontrolled.NotifyStep | uncontrolled.py:147-157 | notify changes no liveness. What it computes is stated by NotifyGuard. |
| Uncontrolled.Merged | uncontrolled.py:153-157 | When c is new, the merged list has min(len(s)+1, TOLERANCE+1) entries: the cut keeps as many as it can. |
| Uncontrolled.Merge | uncontrolled.py:153-157 | The successor merge changes no liveness. What it computes is stated by NotifyGuard. |
| Uncontrolled.Adopted | uncontrolled.py:149-151 | notify's first block sets m's predecessor to c and leaves m's list alone. |
| Uncontrolled.NotifyAsWritten | uncontrolled.py:147-157 | As written, notify raises exactly when m has a predecessor, and then leaves the arena as it was. |
| Uncontrolled.NotifyAsWrittenRaises | uncontrolled.py:149-150 | When m has a predecessor p and c is strictly between p and m, notify as written raises NameError and m keeps p, while NotifyStep makes c the predecessor. |
| Uncontrolled.NotifyGuard | uncontrolled.py:147-157 | c becomes predecessor exactly when there is none or c is strictly between it and m. Otherwise the predecessor stays. The list is unchanged when c is listed, and otherwise sorted, bounded and drawn from the old list and c. Nodes other than m and c are unchanged, and c changes only its records. |
| Uncontrolled.Adopt | uncontrolled.py:131-136 | stabilize's adoption changes no liveness. What it computes is stated by AdoptFront. |
| Uncontrolled.AdoptFront | uncontrolled.py:131-136 | With `is_alive` read as liveness: a live x strictly between n and its successor goes first, followed by the old list, cut to TOLERANCE+1. Otherwise the list is unchanged. |
| Uncontrolled.Refreshed | uncontrolled.py:82-93 | update_successors changes only records, never links. |
| Uncontrolled.DedupedSpec | uncontrolled.py:89-91 | The de-duplicated slice has no repeats, at most TOLERANCE+1 entries, and only old entries. |
| Uncontrolled.Deduped | uncontrolled.py:89-91 | The kept list is the first min(TOLERANCE+1, n) entries of the de-duplicated list, n being its length. |
| Uncontrolled.Evict | uncontrolled.py:66-69 | handle_failure's first block changes no liveness. Its effect on the list is stated by HandleLinks. |
| Uncontrolled.WithSlot | uncontrolled.py:74 | Setting a finger slot changes no liveness. What it computes is stated by FixDeadSlot. |
| Uncontrolled.FixDead | uncontrolled.py:72-74 | The finger loop changes no liveness, on every path, a raising lookup included. What it computes is stated by FixDeadBelow, FixDeadSlot and FixDeadOthers. |
| Uncontrolled.FixDeadOthers | uncontrolled.py:72-74 | Whether the finger loop completes or raises, every node but n keeps all but its store. |
| Uncontrolled.FixDeadBelow | uncontrolled.py:72-74 | The loop from slot i leaves the slots below i and the successor list alone. |
| Uncontrolled.FixDeadSlot | uncontrolled.py:72-74 | A slot not holding dead is kept. A slot holding dead gets successors[0], which owns the slot's start. |
| Uncontrolled.Pushed | uncontrolled.py:165 | Copying keys changes no links. What it computes is stated by PushedNone and PushedMore. |
| Uncontrolled.PushedNone | uncontrolled.py:165 | Copying no keys changes nothing. |
| Uncontrolled.PushedMore | uncontrolled.py:165 | Copying one key more is writing it after the others. |
| Uncontrolled.Recover | uncontrolled.py:159-165 | recover_data changes no links, whether it completes or raises. What it computes is stated by RecoverPlaces, RecoverFails, RecoverRaisesAt and RecoverDone. |
| Uncontrolled.RecoverRaisesAt | uncontrolled.py:159-165 | recover_data raises at the smallest key on the dead node's arc whose lookup raises, with that key's exception. It leaves the smaller keys copied and n's record of n refreshed by the lookup. |
| Uncontrolled.HandledBelow | uncontrolled.py:162 | With keys taken in ascending order, the handled keys are exactly those below the smallest pending key. |
| Uncontrolled.RecoverOthers | uncontrolled.py:159-165 | Whether recover_data completes or raises, every node but n keeps all but its store. |
| Uncontrolled.RecoverPlaces | uncontrolled.py:159-165 | After a completed recover_data, every key n holds on the dead node's arc sits, with n's value, on the node find_successor names. |
| Uncontrolled.Partial | uncontrolled.py:162-165 | Part way through, no link has changed. What it computes is stated by PartialStep. |
| Uncontrolled.PartialStore | uncontrolled.py:162-165 | Part way through, n's own store still holds its values. |
| Uncontrolled.PartialStep | uncontrolled.py:162-165 | A key on the arc adds one lookup and one write. Any other key adds nothing. |
| Uncontrolled.ContactSettled | uncontrolled.py:110 | A second record_contact(n) at the same time changes nothing. |
| Uncontrolled.RecoverFails | uncontrolled.py:163-164 | A key on the arc whose lookup raises makes recover_data raise. |
| Uncontrolled.RecoverDone | uncontrolled.py:159-165 | When every key on the arc can be looked up, recover_data completes having handled all of n's keys. |
| Uncontrolled.Untracked | uncontrolled.py:79-80 | Deleting the records changes no links. |
| Uncontrolled.Cleared | uncontrolled.py:64-77 | handle_failure up to its `del` lines changes no liveness. What it computes is stated by HandleLinks. |
| Uncontrolled.HandleStep | uncontrolled.py:64-80 | handle_failure changes no liveness. When dead has a last-contact time but no counter, it raises KeyError with that time already deleted. What it computes is stated by HandleLinks, HandleBookkeeping and HandleRecords. |
| Uncontrolled.Unseen | uncontrolled.py:79 | Deleting the last-contact record alone changes no links. |
| Uncontrolled.HandleRecords | uncontrolled.py:79-80 | Once the steps before the `del` lines complete, handle_failure completes exactly when n holds both of dead's records. Raised or not, n then has no last-contact time for dead, and no counter for dead unless the first `del` raised. Nothing else in the arena changes. |
| Uncontrolled.HandleBookkeeping | uncontrolled.py:64-80 | A completed handle_failure deletes dead's records and keeps every other peer's. Its completion implies dead was counted and, unless it is n, seen. |
| Uncontrolled.HandleLinks | uncontrolled.py:64-80 | A completed handle_failure removes the first dead entry from the list. Fingers holding dead become the new first successor, and all other fingers stay. |
| Uncontrolled.ContactKeeps | uncontrolled.py:110 | record_contact(n) on n keeps n's records of other peers. |
| Uncontrolled.EvictKeeps | uncontrolled.py:66-69 | Eviction keeps n's records of other peers. |
| Uncontrolled.FixDeadKeeps | uncontrolled.py:72-74 | The finger loop keeps n's records of other peers. |
| Uncontrolled.RecoverKeeps | uncontrolled.py:159-165 | recover_data keeps n's records of other peers. |
| Uncontrolled.HandleKeepsOthers | uncontrolled.py:64-80 | Whether handle_failure completes or raises, every node but n keeps its links and records. Only stores of other nodes can change. |
| Uncontrolled.StabilizeStep | uncontrolled.py:128-145 | stabilize changes no liveness, raised or not. On an empty list it raises NameError, since the except handler reads the unbound `successor`. What it computes is stated by StabilizeNotifies, StabilizeRaisesAfterAdoption and StabilizeForgetsSuccessor. |
| Uncontrolled.StabilizeForgetsSuccessor | uncontrolled.py:128-145 | Once handle_failure(s) has completed its eviction, finger repair and recover_data, n has no last-contact time for its old first successor s, whether the `del` lines raise or not. |
| Uncontrolled.StabilizeNotifies | uncontrolled.py:128-157 | Whether stabilize raises or not, its first successor s (other than n) has been notified. s takes n as predecessor exactly when it had none or n is strictly between that one and s. n is merged into s's list, and s has recorded contact with n. Every node but n and s keeps all but its store. |
| Uncontrolled.StabilizeAsWritten | uncontrolled.py:128-145 | stabilize as written changes no liveness. Like StabilizeStep, it raises NameError on an empty list and passes on handle_failure's raised state. Where it parts from StabilizeStep is stated by StabilizeAsWrittenSkipsAdoption. |
| Uncontrolled.StabilizeAsWrittenSkipsAdoption | uncontrolled.py:131-145 | When s's predecessor x is live and strictly between n and s, stabilize as written runs handle_failure(s) on the arena it started from, while StabilizeStep runs it with x adopted at the head of n's list. |
| Uncontrolled.StabilizeRaisesAfterAdoption | uncontrolled.py:128-151 | When the successor accepts n as predecessor, stabilize's handle_failure of it raises. |
| Uncontrolled.BumpedSpec | uncontrolled.py:51-55 | n is never counted. Each silent peer's counter goes up by one and every other counter stays. The declared peers are exactly the silent ones whose counter reaches three. |
| Uncontrolled.Tally | uncontrolled.py:51-55 | The counting loop computes the bumped counters and the declared peers. |
| Uncontrolled.AliveOnly | uncontrolled.py:62 | The filter is no longer than the list and names only ring nodes. What it computes is stated by AliveOnlySpec. |
| Uncontrolled.AliveOnlySpec | uncontrolled.py:62 | The filter keeps exactly the live entries, and only live ones. |
| Uncontrolled.AliveOnlyAsWrittenRaises | uncontrolled.py:62 | As written, the filter raises NodeFailure on any non-empty list and so never yields the live entries. |
| Uncontrolled.AliveOnlyAsWritten | uncontrolled.py:62 | As written, the filter succeeds only on an empty list, and then yields the empty list. |
| Uncontrolled.Walk | uncontrolled.py:170-172 | A completed walk lists k+1 nodes starting at c. |
| Uncontrolled.WalkStep | uncontrolled.py:171-172 | One round moves the last entry into the prefix. |
| Uncontrolled.WalkLinks | uncontrolled.py:170-172 | Each chain entry after the first is the first successor of the one before it. |
| Uncontrolled.Written | uncontrolled.py:176 | A write changes no links. |
| Uncontrolled.Deliver | uncontrolled.py:174-179 | The deliveries change no liveness. A raising handle_failure passes on its state, with the deleted last-contact record that HandleRecords states. What it computes is stated by DeliverAllAlive. |
| Uncontrolled.DeliverAllAlive | uncontrolled.py:174-179 | With every chain node live, the deliveries complete and each chain node holds v under key. |
| Uncontrolled.DeliverKeepsKey | uncontrolled.py:174-179 | A node already holding v under key still does afterwards. |
| Uncontrolled.StoreStep | uncontrolled.py:167-179 | store changes no liveness. A raising delivery passes on its state, records included. What it computes is stated by WalkLinks and DeliverAllAlive. |
| Uncontrolled.StoreAsWritten | uncontrolled.py:167-179 | store as written never completes, and changes no links. |
| Uncontrolled.StoreAsWrittenRaises | uncontrolled.py:167-179 | Once the lookup and the walk are through, store as written raises NodeFailure. On every path it leaves every node's store as it was. |
| Uncontrolled.StoreCompletes | uncontrolled.py:167-179 | On the same lookup and walk with every chain node live, StoreStep completes and leaves v under key on each chain node. |
| Uncontrolled.Network.AddNode | uncontrolled.py:15-28 | A new node is live with no predecessor, no successors, empty store and records, and a table of HASH_SIZE slots naming itself. |
| Uncontrolled.Network.RecordContact | uncontrolled.py:95-98 | The new state is Contact's. |
| Uncontrolled.Network.FindSuccessor | uncontrolled.py:100-126 | The answer is Lookup's, and the only side effect is n's record_contact(n). |
| Uncontrolled.Network.Notify | uncontrolled.py:147-157 | The new state is NotifyStep's. |
| Uncontrolled.Network.Accept | uncontrolled.py:149-151 | The new state is Adopted's. |
| Uncontrolled.Network.MergeSuccessor | uncontrolled.py:153-157 | The new state is Merge's. |
| Uncontrolled.Network.Stabilize | uncontrolled.py:128-145 | It completes exactly when StabilizeStep does, and the new state is StabilizeStep's whether it completes or raises. |
| Uncontrolled.Network.UpdateSuccessors | uncontrolled.py:82-93 | The new state is Refreshed's. |
| Uncontrolled.Network.EvictDead | uncontrolled.py:66-69 | The new state is Evict's. |
| Uncontrolled.Network.FixDeadFingers | uncontrolled.py:72-74 | It completes exactly when FixDead from slot 0 does, and the new state is FixDead's on every path, the slots fixed before a raising lookup included. |
| Uncontrolled.Network.HandleFailure | uncontrolled.py:64-80 | It completes exactly when HandleStep does, and the new state is HandleStep's on every path, with the eviction, fingers and copies made before a raise, and the last-contact record deleted when only the counter is missing. |
| Uncontrolled.Network.Clear | uncontrolled.py:64-77 | It completes exactly when Cleared does, and the new state is Cleared's on every path. |
| Uncontrolled.Network.RecoverData | uncontrolled.py:159-165 | It completes exactly when Recover does, and the new state is Recover's on every path. Links never change. |
| Uncontrolled.Network.CopyArc | uncontrolled.py:162-165 | The loop over n's keys in ascending order computes Recover, the keys copied before a raise included. |
| Uncontrolled.Network.CopyKey | uncontrolled.py:163-165 | One round fails exactly when a key on the arc cannot be looked up, leaving only the lookup's record_contact. Otherwise it adds that key. |
| Uncontrolled.Network.CountMisses | uncontrolled.py:51-55 | The counters become the bumped ones, and the peers answered are the declared ones. |
| Uncontrolled.Network.CheckFailures | uncontrolled.py:45-62 | On completion every successor is live, and n's records of other peers are the counted ones minus the declared peers. |
| Uncontrolled.Network.HandleAll | uncontrolled.py:58-59 | On completion the declared peers' records are gone and every other peer's are kept. |
| Uncontrolled.Network.Store | uncontrolled.py:167-179 | It completes exactly when StoreStep does, and the new state is StoreStep's on every path, the writes to earlier chain nodes included. |
| Uncontrolled.Network.StoreChain | uncontrolled.py:170-172 | The loop computes Walk of TOLERANCE hops. |
| Uncontrolled.Network.DeliverAll | uncontrolled.py:174-179 | The loop computes Deliver on every path, the writes made before a raising handle_failure included. |
| MejorDeFirst.FirstAlive | mejordefirst.py:42-46 | The position found is the first live entry; every entry before it is dead. |
| MejorDeFirst.BestSuccessor | mejordefirst.py:42-46 | find_best_successor answers only a live node. What it computes is stated by BestSuccessorSpec. |
| MejorDeFirst.BestSuccessorSpec | mejordefirst.py:42-46 | It answers None exactly when every entry is dead, and otherwise the first live entry. |
| MejorDeFirst.PrecedingSlot | mejordefirst.py:64-69 | The slot found is live, strictly inside (n, id), and no higher slot is. With none found, no slot qualifies. |
| MejorDeFirst.Cpf | mejordefirst.py:62-74 | closest_preceding_finger answers a node of the ring. What it computes is stated by CpfSpec and CpfAlive. |
| MejorDeFirst.CpfSpec | mejordefirst.py:62-74 | It answers the highest preceding finger, or else the first live successor, or else n. |
| MejorDeFirst.CpfAlive | mejordefirst.py:62-74 | With a live successor the node forwarded to is live. |
| MejorDeFirst.Find | mejordefirst.py:48-60 | find answers only live nodes. What it computes is stated by FindFirstRound and FindAnswers. |
| MejorDeFirst.FindFirstRound | mejordefirst.py:48-57 | With no live successor find raises. With id in (n, best successor], it answers that successor. |
| MejorDeFirst.FindAnswers | mejordefirst.py:48-60 | An answer is the best successor of some live node c with id in (c, answer]. |
| MejorDeFirst.FindIgnoresData | mejordefirst.py:48-74 | Stores do not change where a lookup ends. |
| MejorDeFirst.BestSuccessorSame | mejordefirst.py:42-46 | Stores do not change the best successor. |
| MejorDeFirst.PrecedingSlotSame | mejordefirst.py:64-69 | Stores do not change the preceding slot. |
| MejorDeFirst.NotifyStep | mejordefirst.py:113-117 | notify keeps the arena closed over the same nodes. What it computes is stated by NotifyGuard. |
| MejorDeFirst.NotifyGuard | mejordefirst.py:113-117 | It raises exactly on a dead m, or a dead predecessor read for a live c. Otherwise it writes only m's predecessor, which becomes c exactly when there was none or c is live and strictly inside (predecessor, m). |
| MejorDeFirst.AliveOnly | mejordefirst.py:102 | The comprehension is no longer than the list. What it computes is stated by AliveOnlySpec. |
| MejorDeFirst.AliveOnlySpec | mejordefirst.py:102 | It keeps exactly the live entries, and only live ones. |
| MejorDeFirst.Adopted | mejordefirst.py:89-94 | Adoption keeps the arena closed over the same nodes. What it computes is stated by AdoptShape. |
| MejorDeFirst.AdoptShape | mejordefirst.py:89-94 | A live x strictly between n and cs goes first, the last entry drops, the length stays, and nothing else changes. Otherwise nothing changes. |
| MejorDeFirst.Recovered | mejordefirst.py:98-100 | The except branch keeps the arena closed over the same nodes. |
| MejorDeFirst.Refill | mejordefirst.py:104-110 | The refill loop lists only ring nodes. What it computes is stated by RefillSpec. |
| MejorDeFirst.RefillSpec | mejordefirst.py:104-110 | The loop keeps its start as a prefix and appends only live, new entries. It never yields an empty list, stays within TOLERANCE+1 when it grows, and keeps a repeat-free list repeat-free. |
| MejorDeFirst.Notified | mejordefirst.py:96-100 | The try block keeps the arena closed over the same nodes. |
| MejorDeFirst.Settled | mejordefirst.py:102-111 | The end of stabilize keeps the arena closed over the same nodes. What it computes is stated by SettledLive. |
| MejorDeFirst.StabilizeStep | mejordefirst.py:84-111 | stabilize keeps the arena closed over the same nodes. What it computes is stated by StabilizeLive. |
| MejorDeFirst.SettledLive | mejordefirst.py:102-111 | The end of stabilize leaves 1 to TOLERANCE+1 live successors and changes nothing else. |
| MejorDeFirst.StabilizeLive | mejordefirst.py:84-111 | A dead n raises TypeError, and without a live successor nothing changes. A completed stabilize otherwise leaves 1 to TOLERANCE+1 live successors. |
| MejorDeFirst.WithFinger | mejordefirst.py:123 | Writing a finger slot keeps the arena closed over the same nodes. |
| MejorDeFirst.Mended | mejordefirst.py:122-127 | One pass of the loop keeps the arena closed over the same nodes. What it computes is stated by MendedSpec. |
| MejorDeFirst.MendedSpec | mejordefirst.py:122-127 | The pass changes slot i only. It stores the lookup's answer, keeps a live old entry when the lookup raised, and leaves a live node there on a live n. |
| MejorDeFirst.FixSlot | mejordefirst.py:120-127 | Slot i's pass keeps the arena closed over the same nodes. What it computes is stated by FixSlotSpec. |
| MejorDeFirst.FixSlotSpec | mejordefirst.py:120-127 | The same, phrased with the find on slot i's start. |
| MejorDeFirst.FixUpTo | mejordefirst.py:120-127 | The first i passes keep the arena closed over the same nodes. What it computes is stated by FixUpToSpec. |
| MejorDeFirst.FixUpToSpec | mejordefirst.py:120-127 | After i passes on a live n, slots below i hold live nodes and only n's table has changed. |
| MejorDeFirst.FixStep | mejordefirst.py:119-127 | fix_finger_table keeps the arena closed over the same nodes. What it computes is stated by FixFingersAlive. |
| MejorDeFirst.FixFingersAlive | mejordefirst.py:119-127 | On a live node fix_finger_table completes, changes only n's table, and leaves every slot live. |
| MejorDeFirst.FixKeepsSuccessors | mejordefirst.py:82 | fix_finger_table on a live n keeps its live successor list and leaves its table live. |
| MejorDeFirst.Linked | mejordefirst.py:77-80 | join's first lines keep the arena closed over the same nodes. What it computes is stated by LinkedShape. |
| MejorDeFirst.LinkedShape | mejordefirst.py:77-80 | join clears the predecessor and lists succ, then a prefix of succ's list, at most TOLERANCE+1 entries. |
| MejorDeFirst.JoinStep | mejordefirst.py:76-82 | join on a dead n raises TypeError, since `__getattribute__` (lines 29-37) answers None for `join`, and otherwise keeps the arena closed over the same nodes. What it computes is stated by JoinSettles. |
| MejorDeFirst.JoinSettles | mejordefirst.py:76-82 | A completed join leaves a live n with 1 to TOLERANCE+1 live successors and a live table. |
| MejorDeFirst.PredecessorChecked | mejordefirst.py:129-131 | check_predecessor that completes keeps the arena closed over the same nodes. What it computes is stated by CheckPredecessorSpec. |
| MejorDeFirst.CheckPredecessorSpec | mejordefirst.py:129-131 | It raises exactly on a dead n, and then TypeError, since `__getattribute__` (lines 29-37) answers None for `check_predecessor`. Otherwise it only clears n's predecessor, leaves none or a live one, and a second run changes nothing. |
| MejorDeFirst.StoreStep | mejordefirst.py:133-137 | store changes only stores. What it computes is stated by StoreRetrieve and StoreFails. |
| MejorDeFirst.Retrieve | mejordefirst.py:139-142 | A dead n raises TypeError. An answer comes only from a completed lookup, and it is the answering node's value under key, or None exactly when that node has no such key. |
| MejorDeFirst.DeleteStep | mejordefirst.py:144-149 | delete changes only stores. What it computes is stated by StoreRetrieve and StoreFails. |
| MejorDeFirst.StoreRetrieve | mejordefirst.py:133-149 | A stored value is retrieved. Deleting it then succeeds, and afterwards nothing is retrieved. |
| MejorDeFirst.StoreFails | mejordefirst.py:133-149 | A failing lookup makes store, retrieve and delete raise alike. A dead n raises TypeError in all three. |
| MejorDeFirst.KillStep | mejordefirst.py:29-40 | kill keeps the arena closed over the same nodes. What it computes is stated by KilledRefuses. |
| MejorDeFirst.KilledRefuses | mejordefirst.py:29-40 | A killed node raises TypeError on find, join, stabilize, notify, fix_finger_table, check_predecessor, store, retrieve, delete and a second kill. |
| MejorDeFirst.Network.AddNode | mejordefirst.py:11-21 | A new node is live, its own predecessor and single successor, with a table of itself and an empty store. |
| MejorDeFirst.Network.Notify | mejordefirst.py:113-117 | The new state is NotifyStep's, and nothing changes when it raises. |
| MejorDeFirst.Network.Stabilize | mejordefirst.py:84-111 | The new state is StabilizeStep's. |
| MejorDeFirst.Network.RecoverFromNotify | mejordefirst.py:98-100 | The new state is Recovered's. |
| MejorDeFirst.Network.Settle | mejordefirst.py:102-111 | The new state is Settled's. |
| MejorDeFirst.Network.FixFingerTable | mejordefirst.py:119-127 | The loop computes FixStep, and nothing changes when it raises. |
| MejorDeFirst.Network.FixOne | mejordefirst.py:122-127 | One pass computes FixSlot. |
| MejorDeFirst.Network.Join | mejordefirst.py:76-82 | The new state is JoinStep's. |
| MejorDeFirst.Network.Link | mejordefirst.py:77-80 | The answer is find with n's predecessor cleared, and the new state is Linked's. |
| MejorDeFirst.Network.CheckPredecessor | mejordefirst.py:129-131 | The new state is PredecessorChecked's, and nothing changes when it raises. |
| MejorDeFirst.Network.Store | mejordefirst.py:133-137 | The new state is StoreStep's. |
| MejorDeFirst.Network.Delete | mejordefirst.py:144-149 | The popped value is what Retrieve answers, and the new state is DeleteStep's. |
| MejorDeFirst.Network.Kill | mejordefirst.py:39-40 | The new state is KillStep's. |
| ChordDht.Singleton | chorddht.py:10-17 | A new node is live and is its own predecessor, successor and every finger. |
| ChordDht.SetSuccessor | chorddht.py:62 | Writing the successor installs exactly s. |
| ChordDht.SetPredecessor | chorddht.py:61 | Writing the predecessor installs exactly p. |
| ChordDht.Scan | chorddht.py:50-58 | The scan answers a node of the ring. What it computes is stated by ScanSpec. |
| ChordDht.Cpf | chorddht.py:49-58 | closest_preceding_finger answers a node of the ring. What it computes is stated by ScanSpec and DeadFingerRaises. |
| ChordDht.HighestSlot | chorddht.py:50-57 | The slot found lies in (n, id] and no higher slot does. With none found, no slot does. |
| ChordDht.ScanSpec | chorddht.py:49-58 | With live fingers, it answers the highest finger in (n, id], or n. |
| ChordDht.DeadFingerRaises | chorddht.py:49-58 | A dead top finger makes the scan raise. |
| ChordDht.Find | chorddht.py:38-47 | find answers a node of the ring. What it computes is stated by FindAnswersPredecessor and FindThroughDead. |
| ChordDht.FindAnswersPredecessor | chorddht.py:38-47 | The answer is a live node with a live successor, and the key lies in (answer, successor]: the key's predecessor, not its owner. |
| ChordDht.SingletonFind | chorddht.py:38-47 | A singleton answers itself for every key. |
| ChordDht.FindThroughDead | chorddht.py:25-47 | A lookup through a dead node, or a node with a dead successor, raises. |
| ChordDht.NotifyStep | chorddht.py:74-78 | notify keeps the arena closed over the same nodes. What it computes is stated by NotifyGuard. |
| ChordDht.NotifyGuard | chorddht.py:74-78 | It raises exactly on a dead m, or, when m has a predecessor, on a dead c or a dead predecessor. Otherwise it writes only m's predecessor, which becomes c exactly when there was none, or c is on (predecessor, m], or c already was. |
| ChordDht.StabilizeStep | chorddht.py:68-72 | stabilize keeps the arena closed over the same nodes. What it computes is stated by StabilizeAdopts. |
| ChordDht.StabilizeAdopts | chorddht.py:68-72 | x is adopted exactly when on (n, successor]. The end successor is live, and takes n as predecessor when it had none or n lies in its arc. |
| ChordDht.WithFinger | chorddht.py:82 | Writing a slot keeps the arena closed over the same nodes. |
| ChordDht.FixSlot | chorddht.py:82-86 | One pass keeps the arena closed over the same nodes. What it computes is stated by FixSlotSpec. |
| ChordDht.FixFrom | chorddht.py:81-86 | The loop from slot i keeps the arena closed over the same nodes. What it computes is stated by FixFromSpec. |
| ChordDht.FixSlotSpec | chorddht.py:82-86 | A completed pass sets slot i only, to the live successor of the node answering its lookup. |
| ChordDht.FixFromSpec | chorddht.py:81-86 | The loop from i changes only n's table, keeps slots below i, and leaves the slots from i live. Slot i becomes the lookup's successor. |
| ChordDht.FixStep | chorddht.py:80-86 | fix_finger_table keeps the arena closed over the same nodes. What it computes is stated by FixFingersAlive. |
| ChordDht.FixFingersAlive | chorddht.py:80-86 | A completed fix_finger_table changes only n's table and makes every slot live. |
| ChordDht.JoinStep | chorddht.py:60-66 | join on a dead n raises at the attribute lookup (lines 25-33), and otherwise keeps the arena closed over the same nodes. What it computes is stated by JoinLinks and JoinSettles. |
| ChordDht.JoinLinks | chorddht.py:61-62 | Before stabilize, n is its own predecessor, and its successor is the successor of the node the lookup answered, which owns n's identifier. |
| ChordDht.JoinSettles | chorddht.py:60-66 | A completed join leaves n live with a live successor and a live table. |
| ChordDht.CheckStep | chorddht.py:88-90 | check_predecessor keeps the arena closed over the same nodes. What it computes is stated by CheckPredecessorSpec. |
| ChordDht.CheckPredecessorSpec | chorddht.py:88-90 | It raises exactly on a dead n. Otherwise it only clears a dead predecessor, leaves none or a live one, and a second run changes nothing. |
| ChordDht.KillStep | chorddht.py:25-36 | kill keeps the arena closed over the same nodes. What it computes is stated by KilledRefuses. |
| ChordDht.KilledRefuses | chorddht.py:25-47 | A killed node raises on find, join, stabilize, notify, fix_finger_table, check_predecessor and a second kill, as does a lookup or stabilize that reads it as the successor. |
| ChordDht.Network.AddNode | chorddht.py:10-17 | The new node is Singleton's. |
| ChordDht.Network.Notify | chorddht.py:74-78 | The new state is NotifyStep's, and nothing changes when it raises. |
| ChordDht.Network.Stabilize | chorddht.py:68-72 | The new state is StabilizeStep's. |
| ChordDht.Network.FixFingerTable | chorddht.py:80-86 | The loop computes FixStep. |
| ChordDht.Network.Join | chorddht.py:60-66 | The new state is JoinStep's. |
| ChordDht.Network.CheckPredecessor | chorddht.py:88-90 | The new state is CheckStep's, and nothing changes when it raises. |
| ChordDht.Network.Kill | chorddht.py:35-36 | The new state is KillStep's, and nothing changes when it raises. |

## Left out

- Threads, locks and `time.sleep`: the background stabilizer and failure-detector loops of
  uncontrolled.py are not modelled. Each step runs atomically on the whole arena, so there is
  no interleaving.
- The clock: `time.time()` in uncontrolled.py is an integer parameter `now` of every step
  that reads it.
- Hashing: `hash` (SHA-1) and `hash_value` (SHA-256) are left out. Keys are given to store, retrieve and
  delete as integers.
- Printing: `print`, `print_state`, `__repr__` and the demo code at the end of each file are
  left out. The `VERBOSE` debug lines of chorddht.py are modelled for the attributes they read.
  That matters because a dead node raises when it is read.
- `reset` in mejordefirst.py and chorddht.py is left out. In chorddht.py it only rebinds a
  local name.
- `successors_cache` in mejordefirst.py is written only at construction and never read, so it
  is left out.
- The values a node stores are strings (`Value = string`). Python stores any object.
- The recursion limit of mejordefirst.py's and chorddht.py's `find` is a fixed depth of 1000.
  A lookup deeper than that fails with `RecursionLimit`.
- Dict iteration order: Python walks a dict in insertion order, and the model's maps keep no
  order.
  - In replicate_data (sinHilos.py) and check_failures (uncontrolled.py), the loops take the
    keys in any order.
  - recover_data (uncontrolled.py) takes n's keys in ascending order. This matters only for
    which keys a raising recover_data has already copied.
- The chorddht.py methods store, retrieve and delete call `find_successor`, which that file
  does not define (lines 93-103). Every call raises AttributeError, so they are left out along
  with the data dictionary.
- The module-level `between` used by uncontrolled.py is not defined in that file. Both
  readings of notify are modelled (see Findings). `Ring.Between`, the strict arc of the other
  variants, stands for it in NotifyStep, StabilizeStep and what builds on them.
- uncontrolled.py calls `closest_preceding_finger`, `replicate_data`, `get_successors` and
  `is_alive`, none of which it defines. Each is answered by `__getattr__` with a handler that
  raises NodeFailure. The model follows this, except for `is_alive`:
  - at line 62 both readings are modelled (see Findings);
  - at lines 134 and 175 both readings are modelled (see Findings). StabilizeStep and
    StoreStep read `is_alive` as the node's liveness, as the other variants define it, and
    the rest of the model builds on them;
  - line 119 is never reached: closest_preceding_finger at line 115 raises first.
- The fallback `return self` of uncontrolled.py's find_successor (line 126) cannot be reached:
  the first round either returns or raises. It is not modelled.
- Uncontrolled.Network.CheckFailures: on success it promises live successors and the record
  bookkeeping, but not the full new successor lists and fingers that the handle_failure calls
  leave. Those are stated per call by HandleLinks.
- SinHilos.Network.ReplicateData and SinHilos.Network.HandleFailure: when a lookup raises
  part way, the model promises only that the topology is unchanged. It does not promise which
  keys were already copied, because that depends on the dict order.
- Every step of uncontrolled.py but check_failures gives the state it leaves when it raises.
  The methods on the next lines promise their new state only on completion, beyond the frame
  clauses they state. The model does not follow those variants past a raise.
- Uncontrolled.Network.HandleAll: after a handle_failure that raises, which declared peers
  were already handled depends on the open dict order.
- SinHilos.Network.FixFingers, SinHilos.Network.Report, SinHilos.Network.Kill,
  SinHilos.Network.Join and SinHilos.Network.Settle: the state after a raising lookup is not
  promised.
- MejorDeFirst.Network.Stabilize, MejorDeFirst.Network.RecoverFromNotify and
  MejorDeFirst.Network.Join: the state after a raise is not promised. For example, join clears
  the predecessor before a lookup that may raise.
- ChordDht.Network.Stabilize, ChordDht.Network.FixFingerTable and ChordDht.Network.Join: the
  state after a raise is not promised.

## Findings

| source | as written | input that shows it | evidently intended | confidence | as-written member | corrected member |
|---|---|---|---|---|---|---|
| uncontrolled.py:62 | `[n for n in self.successors if n.is_alive()]`. Node defines no `is_alive`, so `__getattr__` (lines 181-186) returns a handler that raises NodeFailure. | Any node with a non-empty successor list running check_failures: the comprehension raises on its first entry. | Keep exactly the live successors, in order. | not executed | Uncontrolled.AliveOnlyAsWrittenRaises | Uncontrolled.AliveOnlySpec |
| uncontrolled.py:134 | `if x and x.is_alive() and between(...)`. Node defines no `is_alive`, so whenever successors[0] has a predecessor x the handler from `__getattr__` (lines 181-186) raises NodeFailure, and the bare except at line 144 runs handle_failure(successor) with nothing adopted, notified or recorded. | A node n whose first successor s has a live predecessor x strictly between n and s: stabilize never puts x at the head of n's list. | Adopt a live x that lies strictly between n and its successor. | not executed | Uncontrolled.StabilizeAsWrittenSkipsAdoption | Uncontrolled.AdoptFront |
| uncontrolled.py:149 | `if not self.predecessor or between(node.id, self.predecessor.id, self.id):`. The module never defines `between` (only `between_right_incl`, lines 194-197), so the second operand raises NameError. | Any notify received by a node that has a predecessor: m = 10 with predecessor 5, notified by c = 7, raises and keeps 5, where the intended guard would take 7. | Take c as predecessor when it lies strictly between the old predecessor and m, as the other variants' `between` does. | not executed | Uncontrolled.NotifyAsWrittenRaises | Uncontrolled.NotifyGuard |
| uncontrolled.py:175 | `if node.is_alive():` in store's second loop. Node defines no `is_alive`, so the handler raises NodeFailure on the first node of the chain, outside any try. | Any store whose lookup and walk complete: it raises before writing anything. | Write the value on every live node of the chain and run handle_failure for a dead one. | not executed | Uncontrolled.StoreAsWrittenRaises | Uncontrolled.StoreCompletes |
