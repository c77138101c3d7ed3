/**
 * The sinHilos.py variant: a single-threaded ring with a successor list of TOLERANCE+1
 * entries, fault-tolerant lookup that skips dead nodes, and replication on a successor chain.
 * Nodes live in an arena keyed by identifier; every reference between nodes is such a key.
 */
module SinHilos {
  import opened Wrappers
  import opened Ring
  import opened Lists

  const HashSize: nat := 3
  const IdSpace: nat := 8
  const Tolerance: nat := 3

  /** One ring member. The source's predecessor starts as the node itself and is only ever
      replaced by another node, so it never is None here. */
  datatype NodeState = NodeState(
    alive: bool,
    predecessor: int,
    successors: seq<int>,
    finger: seq<int>,
    data: map<int, Value>,
    knownDead: set<int>)

  /** The source stores arbitrary Python values; strings stand for them. */
  type Value = string

  type Arena = map<int, NodeState>

  /** Identifiers lie in the ring, finger tables have HashSize slots, and every reference
      a node holds names a node of the arena. */
  predicate Closed(a: Arena) {
    && (forall id | id in a :: 0 <= id < IdSpace && |a[id].finger| == HashSize)
    && (set id | id in a :: a[id].predecessor) <= a.Keys
    && (forall id, j | id in a && 0 <= j < |a[id].successors| :: a[id].successors[j] in a)
    && (forall id, j | id in a && 0 <= j < |a[id].finger| :: a[id].finger[j] in a)
  }

  /** b differs from a at most in the nodes' stored data. */
  predicate SameTopology(a: Arena, b: Arena) {
    && a.Keys == b.Keys
    && forall id {:trigger a[id]} {:trigger b[id]} | id in a ::
         && a[id].alive == b[id].alive && a[id].predecessor == b[id].predecessor
         && a[id].successors == b[id].successors && a[id].finger == b[id].finger
         && a[id].knownDead == b[id].knownDead
  }

  lemma SameTopologyClosed(a: Arena, b: Arena)
    requires Closed(a) && SameTopology(a, b)
    ensures Closed(b)
  {
  }

  // ---------------------------------------------------------------------------------------
  // Routing specification (find_successor, closest_preceding_finger)
  // ---------------------------------------------------------------------------------------

  /** The source's `while not current.is_alive(): current = current.successors[0]`, with at
      most fuel hops; running out of hops stands for the source walking a dead cycle forever. */
  function SkipDead(a: Arena, cur: int, fuel: nat): (r: Outcome<int>)
    requires Closed(a) && cur in a
    ensures r.Ok? ==> r.value in a && a[r.value].alive
    ensures a[cur].alive ==> r == Ok(cur)
    ensures r.Fail? ==> r.fault in {NoSuccessor, DeadLoop}
    decreases fuel
  {
    if a[cur].alive then Ok(cur)
    else if |a[cur].successors| == 0 then Fail(NoSuccessor)
    else if fuel == 0 then Fail(DeadLoop)
    else SkipDead(a, a[cur].successors[0], fuel - 1)
  }

  /** Finger j of node n is alive and strictly between n and key. */
  predicate Qualifies(a: Arena, n: int, key: int, j: nat)
    requires Closed(a) && n in a && j < HashSize
  {
    a[a[n].finger[j]].alive && Between(a[n].finger[j], n, key)
  }

  /** The highest index below i whose finger qualifies. */
  function HighestFinger(a: Arena, n: int, key: int, i: nat): (r: Option<nat>)
    requires Closed(a) && n in a && i <= HashSize
    ensures r.Some? ==> r.value < i && Qualifies(a, n, key, r.value)
    ensures r.Some? ==> forall j | r.value < j < i :: !Qualifies(a, n, key, j)
    ensures r.None? ==> forall j | 0 <= j < i :: !Qualifies(a, n, key, j)
  {
    if i == 0 then None
    else if Qualifies(a, n, key, i - 1) then Some(i - 1)
    else HighestFinger(a, n, key, i - 1)
  }

  /** closest_preceding_finger: the highest-index finger that is alive and strictly between
      n and key; otherwise successors[0], which raises when the list is empty. */
  function Closest(a: Arena, n: int, key: int): (r: Outcome<int>)
    requires Closed(a) && n in a
    ensures |a[n].successors| > 0 ==> r.Ok?
    ensures r.Ok? ==> r.value in a
    ensures r == Ok(n) ==> |a[n].successors| > 0 && a[n].successors[0] == n
  {
    match HighestFinger(a, n, key, HashSize)
    case Some(j) => Ok(a[n].finger[j])
    case None => if |a[n].successors| == 0 then Fail(NoSuccessor) else Ok(a[n].successors[0])
  }

  /** closest_preceding_finger picks the highest qualifying finger when there is one, and
      otherwise falls back to the first successor. */
  lemma ClosestPicksHighest(a: Arena, n: int, key: int)
    requires Closed(a) && n in a
    ensures var r := Closest(a, n, key);
      forall j | 0 <= j < HashSize && Qualifies(a, n, key, j) ::
        exists i | j <= i < HashSize :: Qualifies(a, n, key, i) && r == Ok(a[n].finger[i])
          && forall k | i < k < HashSize :: !Qualifies(a, n, key, k)
    ensures (forall j | 0 <= j < HashSize :: !Qualifies(a, n, key, j)) ==>
      Closest(a, n, key) == if |a[n].successors| == 0 then Fail(NoSuccessor) else Ok(a[n].successors[0])
  {
  }

  /** r is the first successor of an alive node c of the arena, and key lies in (c, r]. */
  predicate Answers(a: Arena, key: int, r: int) {
    exists c | c in a :: a[c].alive && |a[c].successors| > 0 && a[c].successors[0] == r
                         && BetweenRightIncl(key, c, r)
  }

  /** The source's `if closest == current: closest = current.successors[0]` never fires:
      a qualifying finger is never the node itself, and a first successor equal to the node
      puts every key in range before the finger table is consulted. */
  lemma ClosestIsNotCurrent(a: Arena, c: int, key: int)
    requires Closed(a) && c in a && |a[c].successors| > 0
    requires !BetweenRightIncl(key, c, a[c].successors[0])
    ensures Closest(a, c, key).Ok? && Closest(a, c, key).value != c
  {
  }

  lemma VisitShrinks(keys: set<int>, visited: set<int>, cur: int)
    requires visited <= keys && cur in keys && cur !in visited
    ensures visited + {cur} <= keys
    ensures |keys - (visited + {cur})| < |keys - visited|
  {
    assert keys - visited == (keys - (visited + {cur})) + {cur};
  }

  /** find_successor's walk from cur, having already visited `visited`: a repeated node ends
      the walk with the fallback self. */
  function Route(a: Arena, self: int, key: int, cur: int, visited: set<int>): (r: Outcome<int>)
    requires Closed(a) && self in a && cur in a && visited <= a.Keys
    ensures r.Ok? ==> r.value in a && (r.value == self || Answers(a, key, r.value))
    decreases |a.Keys - visited|
  {
    if cur in visited then Ok(self)
    else
      match SkipDead(a, cur, |a|)
      case Fail(f) => Fail(f)
      case Ok(c) =>
        var ss := a[c].successors;
        if |ss| == 0 then Fail(NoSuccessor)
        else if BetweenRightIncl(key, c, ss[0]) then Ok(ss[0])
        else
          var next := Closest(a, c, key).value;
          ClosestIsNotCurrent(a, c, key);
          VisitShrinks(a.Keys, visited, cur);
          Route(a, self, key, next, visited + {cur})
  }

  /** The lookup a node n runs for key: find_successor(key) called on n. */
  function Lookup(a: Arena, n: int, key: int): (r: Outcome<int>)
    requires Closed(a) && n in a
    ensures r.Ok? ==> r.value in a && (r.value == n || Answers(a, key, r.value))
  {
    Route(a, n, key, n, {})
  }

  lemma {:induction false} SkipDeadIgnoresData(a: Arena, b: Arena, cur: int, fuel: nat)
    requires Closed(a) && Closed(b) && SameTopology(a, b) && cur in a
    ensures SkipDead(a, cur, fuel) == SkipDead(b, cur, fuel)
    decreases fuel
  {
    if !a[cur].alive && |a[cur].successors| > 0 && fuel > 0 {
      SkipDeadIgnoresData(a, b, a[cur].successors[0], fuel - 1);
    }
  }

  lemma {:induction false} HighestFingerIgnoresData(a: Arena, b: Arena, n: int, key: int, i: nat)
    requires Closed(a) && Closed(b) && SameTopology(a, b) && n in a && i <= HashSize
    ensures HighestFinger(a, n, key, i) == HighestFinger(b, n, key, i)
  {
    if i > 0 {
      var f := a[n].finger[i - 1];
      assert b[n].finger == a[n].finger && b[f].alive == a[f].alive;
      assert Qualifies(a, n, key, i - 1) == Qualifies(b, n, key, i - 1);
      HighestFingerIgnoresData(a, b, n, key, i - 1);
    }
  }

  lemma ClosestIgnoresData(a: Arena, b: Arena, n: int, key: int)
    requires Closed(a) && Closed(b) && SameTopology(a, b) && n in a
    ensures Closest(a, n, key) == Closest(b, n, key)
  {
    HighestFingerIgnoresData(a, b, n, key, HashSize);
  }

  /** Lookups read only the topology, never the stored data. */
  lemma {:induction false} RouteIgnoresData(a: Arena, b: Arena, self: int, key: int, cur: int, visited: set<int>)
    requires Closed(a) && Closed(b) && SameTopology(a, b)
    requires self in a && cur in a && visited <= a.Keys
    ensures Route(a, self, key, cur, visited) == Route(b, self, key, cur, visited)
    decreases |a.Keys - visited|
  {
    if cur !in visited {
      assert |a| == |b| by { assert |a.Keys| == |b.Keys|; }
      SkipDeadIgnoresData(a, b, cur, |a|);
      var s := SkipDead(a, cur, |a|);
      if s.Ok? {
        var c := s.value;
        var ss := a[c].successors;
        assert b[c].successors == ss;
        if |ss| > 0 && !BetweenRightIncl(key, c, ss[0]) {
          ClosestIgnoresData(a, b, c, key);
          ClosestIsNotCurrent(a, c, key);
          var next := Closest(a, c, key).value;
          VisitShrinks(a.Keys, visited, cur);
          RouteIgnoresData(a, b, self, key, next, visited + {cur});
          assert Route(a, self, key, cur, visited) == Route(a, self, key, next, visited + {cur});
          assert Route(b, self, key, cur, visited) == Route(b, self, key, next, visited + {cur});
        }
      }
    }
  }

  // ---------------------------------------------------------------------------------------
  // Successor-list maintenance (check_successors, notify, stabilize)
  // ---------------------------------------------------------------------------------------

  predicate AllIn(a: Arena, s: seq<int>) {
    forall j | 0 <= j < |s| :: s[j] in a
  }

  /** A node state whose references all name nodes of a. */
  predicate Fits(a: Arena, st: NodeState) {
    st.predecessor in a && |st.finger| == HashSize && AllIn(a, st.successors) && AllIn(a, st.finger)
  }

  lemma UpdateClosed(a: Arena, n: int, st: NodeState)
    requires Closed(a) && n in a && Fits(a, st)
    ensures Closed(a[n := st]) && a[n := st].Keys == a.Keys
  {
  }

  /** The list comprehension `[n for n in successors if n.is_alive()]`. */
  function AliveOnly(a: Arena, s: seq<int>): (r: seq<int>)
    requires AllIn(a, s)
    ensures |r| <= |s| && AllIn(a, r)
    ensures forall j | 0 <= j < |r| :: a[r[j]].alive
    ensures forall x :: x in r <==> x in s && x in a && a[x].alive
  {
    if s == [] then []
    else (if a[s[0]].alive then [s[0]] else []) + AliveOnly(a, s[1..])
  }

  /** The loop of check_successors: while the list is shorter than TOLERANCE+1, read the
      first successor of its last entry (of n's own list when that entry is n) and append it
      when it is alive and not listed yet; stop otherwise, or when a list is empty. */
  function Refill(a: Arena, n: int, s: seq<int>): (r: seq<int>)
    requires Closed(a) && n in a && AllIn(a, s)
    ensures |s| <= |r| && r[..|s|] == s && AllIn(a, r)
    ensures |r| > |s| ==> |r| <= Tolerance + 1
    ensures forall j | |s| <= j < |r| :: a[r[j]].alive && r[j] !in r[..j]
    decreases Tolerance + 1 - |s|
  {
    if |s| == 0 || |s| >= Tolerance + 1 then s
    else
      var last := s[|s| - 1];
      var ls := if last == n then s else a[last].successors;
      if |ls| > 0 && a[ls[0]].alive && ls[0] !in s then
        var r := Refill(a, n, s + [ls[0]]);
        assert r[..|s|] == (s + [ls[0]])[..|s|];
        r
      else s
  }

  /** check_successors on node n: drop the dead entries, then refill. */
  function CheckStep(a: Arena, n: int): (r: Arena)
    requires Closed(a) && n in a
    ensures Closed(r) && r.Keys == a.Keys
    ensures forall j | 0 <= j < |r[n].successors| :: r[r[n].successors[j]].alive
    ensures forall m | m in a && m != n :: r[m] == a[m]
    ensures r[n] == a[n].(successors := r[n].successors)
    ensures forall m | m in a :: r[m].alive == a[m].alive
  {
    var s := Refill(a, n, AliveOnly(a, a[n].successors));
    UpdateClosed(a, n, a[n].(successors := s));
    a[n := a[n].(successors := s)]
  }

  /** notify(c) received by m. The source's `predecessor is None` test can never succeed in
      this variant, since the predecessor starts as the node itself. */
  function NotifyStep(a: Arena, m: int, c: int): (r: Arena)
    requires Closed(a) && m in a && c in a
    ensures Closed(r) && r.Keys == a.Keys
    ensures forall id | id in a :: r[id].alive == a[id].alive
  {
    if a[c].alive && Between(c, a[m].predecessor, m) then
      UpdateClosed(a, m, a[m].(predecessor := c));
      a[m := a[m].(predecessor := c)]
    else a
  }

  /** notify writes at most m's predecessor, and it adopts c exactly when c is alive and
      strictly between the current predecessor and m. */
  lemma NotifyGuard(a: Arena, m: int, c: int)
    requires Closed(a) && m in a && c in a
    ensures forall id | id in a && id != m :: NotifyStep(a, m, c)[id] == a[id]
    ensures NotifyStep(a, m, c)[m] == a[m].(predecessor := NotifyStep(a, m, c)[m].predecessor)
    ensures NotifyStep(a, m, c)[m].predecessor ==
              if a[c].alive && Between(c, a[m].predecessor, m) then c else a[m].predecessor
  {
  }

  /** The arena with n's successor list replaced by s. */
  function SetSuccessors(a: Arena, n: int, s: seq<int>): (r: Arena)
    requires Closed(a) && n in a && AllIn(a, s)
    ensures Closed(r) && r.Keys == a.Keys
    ensures forall m | m in a :: r[m].alive == a[m].alive
    ensures r[n].successors == s
  {
    UpdateClosed(a, n, a[n].(successors := s));
    a[n := a[n].(successors := s)]
  }

  /** stabilize on node n. */
  function StabilizeStep(a: Arena, n: int): (r: Arena)
    requires Closed(a) && n in a
    ensures Closed(r) && r.Keys == a.Keys
  {
    var ss := a[n].successors;
    if |ss| == 0 then a
    else
      var succ := ss[0];
      if !a[succ].alive then CheckStep(SetSuccessors(a, n, ss[1..]), n)
      else
        var x := a[succ].predecessor;
        var a1 := if a[x].alive && Between(x, n, succ) then SetSuccessors(a, n, [x] + ss) else a;
        CheckStep(NotifyStep(a1, succ, n), n)
  }

  /** A stabilize round on a node with a successor leaves only alive successors. */
  lemma StabilizeLeavesAlive(a: Arena, n: int)
    requires Closed(a) && n in a && |a[n].successors| > 0
    ensures var r := StabilizeStep(a, n);
      forall j | 0 <= j < |r[n].successors| :: r[r[n].successors[j]].alive
  {
  }

  /** stabilize changes no node's liveness. */
  lemma StabilizeKeepsLiveness(a: Arena, n: int, m: int)
    requires Closed(a) && n in a && m in a
    ensures StabilizeStep(a, n)[m].alive == a[m].alive
  {
    var ss := a[n].successors;
    if |ss| > 0 && a[ss[0]].alive {
      var succ := ss[0];
      var x := a[succ].predecessor;
      var a1 := if a[x].alive && Between(x, n, succ) then SetSuccessors(a, n, [x] + ss) else a;
      assert a1[m].alive == a[m].alive;
      assert NotifyStep(a1, succ, n)[m].alive == a[m].alive;
    }
  }

  /** When the successor is alive and its predecessor x is alive and strictly between n and
      it, stabilize makes x the first successor. */
  lemma {:induction false} StabilizeAdopts(a: Arena, n: int)
    requires Closed(a) && n in a && |a[n].successors| > 0
    requires var succ := a[n].successors[0]; var x := a[succ].predecessor;
      a[succ].alive && a[x].alive && Between(x, n, succ)
    ensures var r := StabilizeStep(a, n);
      |r[n].successors| > 0 && r[n].successors[0] == a[a[n].successors[0]].predecessor
  {
    var ss := a[n].successors;
    var succ := ss[0];
    var x := a[succ].predecessor;
    var a1 := a[n := a[n].(successors := [x] + ss)];
    UpdateClosed(a, n, a[n].(successors := [x] + ss));
    var a2 := NotifyStep(a1, succ, n);
    NotifyGuard(a1, succ, n);
    assert a2[n].successors == [x] + ss;
    var f := AliveOnly(a2, [x] + ss);
    assert f == [x] + AliveOnly(a2, ss);
    var s := Refill(a2, n, f);
    assert f[0] == x;
    assert s[..|f|] == f;
    assert s[0] == s[..|f|][0];
    assert StabilizeStep(a, n) == CheckStep(a2, n);
    assert CheckStep(a2, n)[n].successors == s;
  }

  // ---------------------------------------------------------------------------------------
  // Store, retrieve and re-replication (store, retrieve, replicate_data)
  // ---------------------------------------------------------------------------------------

  /** One step of store's chain walk: take successors[0], then skip dead nodes. */
  function Advance(a: Arena, c: int): (r: Outcome<int>)
    requires Closed(a) && c in a
    ensures r.Ok? ==> r.value in a && a[r.value].alive
  {
    if |a[c].successors| == 0 then Fail(NoSuccessor) else SkipDead(a, a[c].successors[0], |a|)
  }

  /** store's loop: k rounds, each appending the current node and then advancing. */
  function Chain(a: Arena, c: int, k: nat): (r: Outcome<seq<int>>)
    requires Closed(a) && c in a
    ensures r.Ok? ==> |r.value| == k && AllIn(a, r.value) && (k > 0 ==> r.value[0] == c)
    decreases k
  {
    if k == 0 then Ok([])
    else
      match Advance(a, c)
      case Fail(f) => Fail(f)
      case Ok(nx) =>
        match Chain(a, nx, k - 1)
        case Fail(f) => Fail(f)
        case Ok(rest) => Ok([c] + rest)
  }

  /** Each node of a store chain after the first is alive, and is the next live node after
      its predecessor in the chain. */
  lemma {:induction false} ChainLinks(a: Arena, c: int, k: nat)
    requires Closed(a) && c in a && Chain(a, c, k).Ok?
    ensures var r := Chain(a, c, k).value;
      && (forall j | 1 <= j < k :: a[r[j]].alive)
      && (forall j | 0 <= j < k - 1 :: Advance(a, r[j]) == Ok(r[j + 1]))
    decreases k
  {
    if k > 0 {
      var nx := Advance(a, c).value;
      ChainLinks(a, nx, k - 1);
      var rest := Chain(a, nx, k - 1).value;
      assert Chain(a, c, k).value == [c] + rest;
    }
  }

  /** The TOLERANCE+1 nodes store(key, _) called on n writes to. */
  function StoreTargets(a: Arena, n: int, key: int): (r: Outcome<seq<int>>)
    requires Closed(a) && n in a
    ensures r.Ok? ==> Lookup(a, n, key).Ok? && |r.value| == Tolerance + 1
    ensures r.Ok? ==> r.value[0] == Lookup(a, n, key).value && AllIn(a, r.value)
  {
    match Lookup(a, n, key)
    case Fail(f) => Fail(f)
    case Ok(s) => Chain(a, s, Tolerance + 1)
  }

  /** data[key] := v on every node of nodes. */
  function WriteKey(a: Arena, nodes: seq<int>, key: int, v: Value): (r: Arena)
    ensures SameTopology(a, r)
    ensures forall m | m in a :: r[m].data == if m in nodes then a[m].data[key := v] else a[m].data
  {
    map m | m in a :: if m in nodes then a[m].(data := a[m].data[key := v]) else a[m]
  }

  /** One probe of retrieve: look key up from n, and read it if that node is alive and holds it. */
  function Probe(a: Arena, n: int, key: int): (r: Outcome<Option<Value>>)
    requires Closed(a) && n in a
  {
    match Lookup(a, n, key)
    case Fail(f) => Fail(f)
    case Ok(m) => Ok(if a[m].alive && key in a[m].data then Some(a[m].data[key]) else None)
  }

  /** retrieve's loop with `tries` probes left, moving to (key + 1) mod IdSpace after a miss. */
  function RetrieveFrom(a: Arena, n: int, key: int, tries: nat): (r: Outcome<Option<Value>>)
    requires Closed(a) && n in a
    ensures tries == 0 ==> r == Ok(None)
    decreases tries
  {
    if tries == 0 then Ok(None)
    else
      var p := Probe(a, n, key);
      if p.Fail? then Fail(p.fault)
      else if p.value.Some? then p
      else RetrieveFrom(a, n, (key + 1) % IdSpace, tries - 1)
  }

  /** Where a value retrieve returns was read: an alive node that find_successor names for
      the probed key (key itself or a later slot of the ring), holding the value under it. */
  function RetrieveHit(a: Arena, n: int, key: int, tries: nat): (h: (int, int))
    requires Closed(a) && n in a
    requires RetrieveFrom(a, n, key, tries).Ok? && RetrieveFrom(a, n, key, tries).value.Some?
    ensures h.0 in a && h.1 in a[h.0].data && a[h.0].alive && Lookup(a, n, h.1) == Ok(h.0)
    ensures a[h.0].data[h.1] == RetrieveFrom(a, n, key, tries).value.value
    ensures h.1 == key || 0 <= h.1 < IdSpace
    decreases tries
  {
    if Probe(a, n, key).value.Some? then (Lookup(a, n, key).value, key)
    else RetrieveHit(a, n, (key + 1) % IdSpace, tries - 1)
  }

  /** Once store(key, v) has written its chain, a retrieve of key from the same node answers v,
      provided the owner the lookup resolves to is alive. */
  lemma StoreThenRetrieve(a: Arena, n: int, key: int, v: Value)
    requires Closed(a) && n in a && StoreTargets(a, n, key).Ok?
    requires a[Lookup(a, n, key).value].alive
    ensures Closed(WriteKey(a, StoreTargets(a, n, key).value, key, v))
    ensures RetrieveFrom(WriteKey(a, StoreTargets(a, n, key).value, key, v), n, key, Tolerance + 1) == Ok(Some(v))
  {
    var chain := StoreTargets(a, n, key).value;
    var b := WriteKey(a, chain, key, v);
    SameTopologyClosed(a, b);
    RouteIgnoresData(a, b, n, key, n, {});
    assert chain[0] in chain;
  }

  /** Key k of n lies in the range (predecessor(dead), dead] that dead owned. */
  predicate InDeadRange(a: Arena, dead: int, k: int)
    requires dead in a
  {
    BetweenRightIncl(k, a[dead].predecessor, dead)
  }

  /** Every key n holds in dead's range can be looked up, so replicate_data does not raise. */
  predicate ReplicaRoutesOk(a: Arena, n: int, dead: int)
    requires Closed(a) && n in a && dead in a
  {
    forall k | k in a[n].data && InDeadRange(a, dead, k) :: Lookup(a, n, k).Ok?
  }

  /** Where replicate_data sends each key of n in dead's range that can be looked up. */
  function Routes(a: Arena, n: int, dead: int): (r: map<int, int>)
    requires Closed(a) && n in a && dead in a
    ensures forall k | k in r :: r[k] in a
  {
    map k | k in a[n].data && InDeadRange(a, dead, k) && Lookup(a, n, k).Ok? :: Lookup(a, n, k).value
  }

  /** The keys of done whose route leads to m, with their values. */
  function PushedTo(route: map<int, int>, vals: map<int, Value>, done: set<int>, m: int): map<int, Value> {
    map k | k in done && k in route && k in vals && route[k] == m :: vals[k]
  }

  lemma RoutesAt(a: Arena, n: int, dead: int, k: int)
    requires Closed(a) && n in a && dead in a
    ensures k in Routes(a, n, dead) <==> k in a[n].data && InDeadRange(a, dead, k) && Lookup(a, n, k).Ok?
    ensures k in Routes(a, n, dead) ==> Routes(a, n, dead)[k] == Lookup(a, n, k).value
  {
  }

  lemma ReplicaRouteFails(a: Arena, n: int, dead: int, k: int)
    requires Closed(a) && n in a && dead in a
    requires k in a[n].data && InDeadRange(a, dead, k) && Lookup(a, n, k).Fail?
    ensures !ReplicaRoutesOk(a, n, dead)
  {
  }

  lemma ReplicaRoutesAll(a: Arena, n: int, dead: int)
    requires Closed(a) && n in a && dead in a
    requires forall k | k in a[n].data && InDeadRange(a, dead, k) :: k in Routes(a, n, dead)
    ensures ReplicaRoutesOk(a, n, dead)
  {
    forall k | k in a[n].data && InDeadRange(a, dead, k)
      ensures Lookup(a, n, k).Ok?
    {
      RoutesAt(a, n, dead, k);
    }
  }

  /** Only keys already handled can differ from the original data. */
  lemma PlaceKeepsUnhandled(a: Arena, route: map<int, int>, vals: map<int, Value>, done: set<int>, m: int, k: int)
    requires m in a && k !in done && k in a[m].data
    ensures k in Place(a, route, vals, done)[m].data && Place(a, route, vals, done)[m].data[k] == a[m].data[k]
  {
    assert k !in PushedTo(route, vals, done, m);
  }

  /** vals[k] written to node route[k] for every key k of done that has a route. */
  function Place(a: Arena, route: map<int, int>, vals: map<int, Value>, done: set<int>): (r: Arena)
    ensures SameTopology(a, r)
  {
    map m | m in a :: a[m].(data := a[m].data + PushedTo(route, vals, done, m))
  }

  /** The arena once replicate_data on n has handled the keys of `done`. */
  function Replicated(a: Arena, n: int, dead: int, done: set<int>): (r: Arena)
    requires Closed(a) && n in a && dead in a
    ensures SameTopology(a, r)
  {
    Place(a, Routes(a, n, dead), a[n].data, done)
  }

  /** Once replicate_data has handled the keys of done, each of them that lay in dead's range
      sits, with n's value, on the node find_successor names for it. */
  lemma ReplicatedPlaces(a: Arena, n: int, dead: int, done: set<int>, k: int)
    requires Closed(a) && n in a && dead in a
    requires k in done && k in a[n].data && InDeadRange(a, dead, k) && Lookup(a, n, k).Ok?
    ensures var r := Replicated(a, n, dead, done); var t := Lookup(a, n, k).value;
      k in r[t].data && r[t].data[k] == a[n].data[k]
  {
    var route := Routes(a, n, dead);
    assert k in route;
  }

  lemma PlaceNothing(a: Arena, route: map<int, int>, vals: map<int, Value>)
    ensures Place(a, route, vals, {}) == a
  {
    forall m | m in a
      ensures Place(a, route, vals, {})[m] == a[m]
    {
      assert PushedTo(route, vals, {}, m) == map[];
      assert a[m].data + map[] == a[m].data;
    }
  }

  lemma PushedToStep(route: map<int, int>, vals: map<int, Value>, done: set<int>, k: int, m: int)
    requires k in vals && k !in done
    ensures PushedTo(route, vals, done + {k}, m) ==
      if k in route && route[k] == m then PushedTo(route, vals, done, m)[k := vals[k]]
      else PushedTo(route, vals, done, m)
  {
  }

  /** Moving key k from the keys still to do to the keys done. */
  lemma MoveKey(keys: set<int>, todo: set<int>, k: int)
    requires k in todo && todo <= keys
    ensures (keys - todo) + {k} == keys - (todo - {k}) && k !in keys - todo
  {
  }

  /** Handling one more key extends Place by that key's write, when the key has a route. */
  lemma PlaceStep(a: Arena, route: map<int, int>, vals: map<int, Value>, done: set<int>, k: int)
    requires k in vals && k !in done && (k in route ==> route[k] in a)
    ensures var b := Place(a, route, vals, done);
      Place(a, route, vals, done + {k}) ==
        if k in route then b[route[k] := b[route[k]].(data := b[route[k]].data[k := vals[k]])] else b
  {
    var b := Place(a, route, vals, done);
    var b1 := Place(a, route, vals, done + {k});
    var e := if k in route then b[route[k] := b[route[k]].(data := b[route[k]].data[k := vals[k]])] else b;
    forall m | m in a
      ensures b1[m] == e[m]
    {
      PlaceStepAt(a, route, vals, done, k, m);
    }
    assert b1.Keys == e.Keys;
  }

  lemma PlaceStepAt(a: Arena, route: map<int, int>, vals: map<int, Value>, done: set<int>, k: int, m: int)
    requires k in vals && k !in done && (k in route ==> route[k] in a) && m in a
    ensures var b := Place(a, route, vals, done);
      Place(a, route, vals, done + {k})[m] ==
        (if k in route then b[route[k] := b[route[k]].(data := b[route[k]].data[k := vals[k]])] else b)[m]
  {
    PushedToStep(route, vals, done, k, m);
    if k in route && route[k] == m {
      assert a[m].data + PushedTo(route, vals, done, m)[k := vals[k]]
        == (a[m].data + PushedTo(route, vals, done, m))[k := vals[k]];
    }
  }

  /** Writing one more node extends WriteKey by that node's write. */
  lemma WriteKeyStep(a: Arena, nodes: seq<int>, key: int, v: Value, c: int)
    requires c in a
    ensures var b := WriteKey(a, nodes, key, v);
      WriteKey(a, nodes + [c], key, v) == b[c := b[c].(data := b[c].data[key := v])]
  {
    var b := WriteKey(a, nodes, key, v);
    var b1 := WriteKey(a, nodes + [c], key, v);
    forall m | m in a
      ensures b1[m] == b[c := b[c].(data := b[c].data[key := v])][m]
    {
      assert m in nodes + [c] <==> m in nodes || m == c;
    }
  }

  /** One round of store's walk: the current node moves into the prefix. */
  lemma PrefixedStep(a: Arena, p: seq<int>, c: int, k: nat)
    requires Closed(a) && c in a && k > 0 && Advance(a, c).Ok?
    ensures Prefixed(p, Chain(a, c, k)) == Prefixed(p + [c], Chain(a, Advance(a, c).value, k - 1))
  {
    var rest := Chain(a, Advance(a, c).value, k - 1);
    if rest.Ok? {
      assert p + ([c] + rest.value) == (p + [c]) + rest.value;
    }
  }

  // ---------------------------------------------------------------------------------------
  // Finger tables, failure handling and joining (fix_fingers, handle_failure, join)
  // ---------------------------------------------------------------------------------------

  /** The arena with n's finger table replaced by f. */
  function WithFinger(a: Arena, n: int, f: seq<int>): (r: Arena)
    requires Closed(a) && n in a && |f| == HashSize && AllIn(a, f)
    ensures Closed(r) && r.Keys == a.Keys
    ensures forall m | m in a && m != n :: r[m] == a[m]
    ensures r[n] == a[n].(finger := f)
  {
    UpdateClosed(a, n, a[n].(finger := f));
    a[n := a[n].(finger := f)]
  }

  lemma WithFingerSame(a: Arena, n: int)
    requires Closed(a) && n in a
    ensures WithFinger(a, n, a[n].finger) == a
  {
  }

  lemma WithFingerTwice(a: Arena, n: int, g: seq<int>, f: seq<int>)
    requires Closed(a) && n in a && |g| == HashSize && AllIn(a, g) && |f| == HashSize && AllIn(a, f)
    ensures WithFinger(WithFinger(a, n, g), n, f) == WithFinger(a, n, f)
  {
  }

  /** fix_fingers from slot i on: slot i becomes the successor of (n + 2^i) mod IdSpace,
      looked up after the slots below i have been rewritten. */
  function FixFrom(a: Arena, n: int, i: nat): (r: Outcome<Arena>)
    requires Closed(a) && n in a
    ensures r.Ok? ==> Closed(r.value) && r.value.Keys == a.Keys
    ensures r.Ok? ==> forall m | m in a && m != n :: r.value[m] == a[m]
    ensures r.Ok? ==> r.value[n] == a[n].(finger := r.value[n].finger)
    ensures r.Ok? ==> forall j | 0 <= j < i && j < HashSize :: r.value[n].finger[j] == a[n].finger[j]
    ensures r.Ok? ==> forall m | m in a :: r.value[m].alive == a[m].alive
    decreases HashSize - i
  {
    if i >= HashSize then Ok(a)
    else
      match Lookup(a, n, FingerStart(n, i, IdSpace))
      case Fail(f) => Fail(f)
      case Ok(t) => FixFrom(WithFinger(a, n, a[n].finger[i := t]), n, i + 1)
  }

  /** Slot j of the final table f is the lookup of its start made from n when n's table
      held the new slots below j and the old slots from j on. */
  predicate SlotResolved(a: Arena, n: int, f: seq<int>, j: nat)
    requires Closed(a) && n in a && |f| == HashSize && j < HashSize
  {
    var t := f[..j] + a[n].finger[j..];
    AllIn(a, t) && Lookup(WithFinger(a, n, t), n, FingerStart(n, j, IdSpace)) == Ok(f[j])
  }

  /** One step of FixFrom: slot i gets the lookup of its start, then the rest follows. */
  lemma FixFromStep(a: Arena, n: int, i: nat)
    requires Closed(a) && n in a && i < HashSize && FixFrom(a, n, i).Ok?
    ensures Lookup(a, n, FingerStart(n, i, IdSpace)).Ok?
    ensures var t := Lookup(a, n, FingerStart(n, i, IdSpace)).value;
      FixFrom(a, n, i) == FixFrom(WithFinger(a, n, a[n].finger[i := t]), n, i + 1)
  {
  }

  /** The slot a fix_fingers step writes resolves its start against the table as it stood. */
  lemma FixSlotNow(a: Arena, n: int, i: nat, f: seq<int>)
    requires Closed(a) && n in a && i < HashSize && |f| == HashSize
    requires f[..i] == a[n].finger[..i] && Lookup(a, n, FingerStart(n, i, IdSpace)) == Ok(f[i])
    ensures SlotResolved(a, n, f, i)
  {
    assert f[..i] + a[n].finger[i..] == a[n].finger;
    WithFingerSame(a, n);
  }

  /** A slot above the one just written sees the same table whether the step is counted or not. */
  lemma FixSlotLater(a: Arena, n: int, i: nat, t: int, f: seq<int>, j: nat)
    requires Closed(a) && n in a && t in a && i < j < HashSize && |f| == HashSize
    requires SlotResolved(WithFinger(a, n, a[n].finger[i := t]), n, f, j)
    ensures SlotResolved(a, n, f, j)
  {
    var a1 := WithFinger(a, n, a[n].finger[i := t]);
    assert a1[n].finger[j..] == a[n].finger[j..];
    WithFingerTwice(a, n, a[n].finger[i := t], f[..j] + a[n].finger[j..]);
  }

  lemma SamePrefix(f: seq<int>, g: seq<int>, i: nat)
    requires i <= |f| && i <= |g| && forall k | 0 <= k < i :: f[k] == g[k]
    ensures f[..i] == g[..i]
  {
  }

  /** The slot FixFrom writes first resolves against the table as it stood. */
  lemma FixFromResolvesFirst(a: Arena, n: int, i: nat)
    requires Closed(a) && n in a && i < HashSize && FixFrom(a, n, i).Ok?
    ensures SlotResolved(a, n, FixFrom(a, n, i).value[n].finger, i)
  {
    FixFromStep(a, n, i);
    var t := Lookup(a, n, FingerStart(n, i, IdSpace)).value;
    var g := a[n].finger[i := t];
    var f := FixFrom(WithFinger(a, n, g), n, i + 1).value[n].finger;
    assert forall k | 0 <= k <= i :: f[k] == g[k];
    SamePrefix(f, a[n].finger, i);
    FixSlotNow(a, n, i, f);
  }

  /** Every slot fix_fingers writes holds the lookup of its start made with the table as it
      stood at that moment. */
  lemma {:induction false} FixFromResolvesSlot(a: Arena, n: int, i: nat, j: nat)
    requires Closed(a) && n in a && i <= j < HashSize && FixFrom(a, n, i).Ok?
    ensures SlotResolved(a, n, FixFrom(a, n, i).value[n].finger, j)
    decreases HashSize - i
  {
    if j == i {
      FixFromResolvesFirst(a, n, i);
    } else {
      FixFromStep(a, n, i);
      var t := Lookup(a, n, FingerStart(n, i, IdSpace)).value;
      var a1 := WithFinger(a, n, a[n].finger[i := t]);
      FixFromResolvesSlot(a1, n, i + 1, j);
      FixSlotLater(a, n, i, t, FixFrom(a1, n, i + 1).value[n].finger, j);
    }
  }

  /** fix_fingers as a whole: every slot of the new table is accounted for. */
  lemma FixFingersResolvesAll(a: Arena, n: int)
    requires Closed(a) && n in a && FixFrom(a, n, 0).Ok?
    ensures forall j | 0 <= j < HashSize :: SlotResolved(a, n, FixFrom(a, n, 0).value[n].finger, j)
  {
    forall j | 0 <= j < HashSize
      ensures SlotResolved(a, n, FixFrom(a, n, 0).value[n].finger, j)
    {
      FixFromResolvesSlot(a, n, 0, j);
    }
  }

  /** handle_failure's bookkeeping on n: drop dead from the successors, record it as dead,
      run check_successors. */
  function Forget(a: Arena, n: int, dead: int): (r: Arena)
    requires Closed(a) && n in a && dead in a
    ensures Closed(r) && r.Keys == a.Keys
    ensures forall m | m in a && m != n :: r[m] == a[m]
    ensures r[n].knownDead == a[n].knownDead + {dead}
    ensures r[n].data == a[n].data && r[n].alive == a[n].alive
    ensures r[n].predecessor == a[n].predecessor && r[n].finger == a[n].finger
    ensures forall j | 0 <= j < |r[n].successors| :: r[r[n].successors[j]].alive
    ensures !a[dead].alive ==> dead !in r[n].successors
  {
    CheckStep(Forgotten(a, n, dead), n)
  }

  /** handle_failure before its check_successors: dead removed from n's list and recorded
      in knownDead. */
  function Forgotten(a: Arena, n: int, dead: int): (r: Arena)
    requires Closed(a) && n in a && dead in a
    ensures Closed(r) && r.Keys == a.Keys
  {
    var ss := RemoveFirst(a[n].successors, dead);
    assert forall j | 0 <= j < |ss| :: ss[j] in a[n].successors;
    var st := a[n].(successors := ss, knownDead := a[n].knownDead + {dead});
    UpdateClosed(a, n, st);
    a[n := st]
  }

  /** What handle_failure leaves in place: the ring's liveness, every other node's list. */
  lemma ForgetThenSame(a: Arena, n: int, dead: int, b: Arena)
    requires Closed(a) && n in a && dead in a && SameTopology(Forget(a, n, dead), b)
    ensures b.Keys == a.Keys
    ensures forall m | m in b :: b[m].alive == a[m].alive
    ensures forall m | m in b && m != n :: b[m].successors == a[m].successors
    ensures !a[dead].alive ==> dead !in b[n].successors
  {
    var f := Forget(a, n, dead);
    forall m | m in b
      ensures b[m].alive == a[m].alive
      ensures m != n ==> b[m].successors == a[m].successors
    {
      assert f[m].alive == b[m].alive && f[m].successors == b[m].successors;
    }
    assert f[n].successors == b[n].successors;
  }

  /** What one round of kill's loop for m keeps: the nodes, their liveness and every list
      but m's. */
  predicate RoundKept(a: Arena, b: Arena, m: int) {
    && a.Keys == b.Keys
    && forall x {:trigger b[x]} | x in a ::
         b[x].alive == a[x].alive && (x != m ==> b[x].successors == a[x].successors)
  }

  /** One round of kill's loop for successor m: an alive m runs handle_failure(dead), a dead
      one is skipped. None stands for the exception a failed lookup in replicate_data
      raises. */
  function Reported(a: Arena, m: int, dead: int): (r: Option<Arena>)
    requires Closed(a) && m in a && dead in a
    ensures r.Some? ==> Closed(r.value) && RoundKept(a, r.value, m)
    ensures r.Some? && a[m].alive && !a[dead].alive ==> dead !in r.value[m].successors
    ensures !a[m].alive ==> r == Some(a)
  {
    if !a[m].alive then Some(a)
    else
      var f := Forget(a, m, dead);
      if !ReplicaRoutesOk(f, m, dead) then None
      else
        var b := Replicated(f, m, dead, a[m].data.Keys);
        SameTopologyClosed(f, b);
        ForgetThenSame(a, m, dead, b);
        Some(b)
  }

  /** kill's loop over the list s: each round runs on what the rounds before it left, and
      the first exception ends the loop. */
  function KillRounds(a: Arena, dead: int, s: seq<int>): (r: Option<Arena>)
    requires Closed(a) && dead in a && forall j | 0 <= j < |s| :: s[j] in a
    ensures r.Some? ==> Closed(r.value) && r.value.Keys == a.Keys
    ensures r.Some? ==> forall x | x in a :: r.value[x].alive == a[x].alive
    decreases |s|
  {
    if s == [] then Some(a)
    else match Reported(a, s[0], dead)
      case None => None
      case Some(b) => KillRounds(b, dead, s[1..])
  }

  /** kill on n: n stops, then each node of its list, in order, reports n. */
  function Killed(a: Arena, n: int): (r: Option<Arena>)
    requires Closed(a) && n in a
    ensures r.Some? ==> Closed(r.value) && r.value.Keys == a.Keys && !r.value[n].alive
    ensures r.Some? ==> forall x | x in a && x != n :: r.value[x].alive == a[x].alive
  {
    var st := a[n].(alive := false);
    UpdateClosed(a, n, st);
    KillRounds(a[n := st], n, a[n].successors)
  }

  /** The rounds of kill never put dead back on a list it is missing from. */
  lemma {:induction false} KillRoundsKeepOut(a: Arena, dead: int, s: seq<int>, x: int)
    requires Closed(a) && dead in a && forall j | 0 <= j < |s| :: s[j] in a
    requires !a[dead].alive && x in a && dead !in a[x].successors && KillRounds(a, dead, s).Some?
    ensures dead !in KillRounds(a, dead, s).value[x].successors
    decreases |s|
  {
    if s != [] {
      var b := Reported(a, s[0], dead).value;
      var t := s[1..];
      assert KillRounds(a, dead, s) == KillRounds(b, dead, t);
      assert dead !in b[x].successors by {
        if x == s[0] && a[x].alive {
        } else {
          assert b[x].successors == a[x].successors;
        }
      }
      assert forall j | 0 <= j < |t| :: t[j] in b by {
        forall j | 0 <= j < |t| ensures t[j] in b {
          assert t[j] == s[j + 1];
        }
      }
      KillRoundsKeepOut(b, dead, t, x);
    }
  }

  /** After the rounds of kill over s, no alive node of s keeps dead on its list. */
  lemma {:induction false} KillRoundsDrop(a: Arena, dead: int, s: seq<int>)
    requires Closed(a) && dead in a && forall j | 0 <= j < |s| :: s[j] in a
    requires !a[dead].alive && KillRounds(a, dead, s).Some?
    ensures forall j | 0 <= j < |s| && a[s[j]].alive :: dead !in KillRounds(a, dead, s).value[s[j]].successors
    decreases |s|
  {
    if s != [] {
      var b := Reported(a, s[0], dead).value;
      var t := s[1..];
      var r := KillRounds(b, dead, t).value;
      assert KillRounds(a, dead, s).value == r;
      KillRoundsDrop(b, dead, t);
      forall j | 0 <= j < |s| && a[s[j]].alive
        ensures dead !in r[s[j]].successors
      {
        if j == 0 {
          KillRoundsKeepOut(b, dead, t, s[0]);
        } else {
          assert s[j] == t[j - 1] && b[t[j - 1]].alive;
        }
      }
    }
  }

  /** A kill that completes leaves n dead, every other node as alive as before, and no
      alive node of n's list holding n. */
  lemma KillDrops(a: Arena, n: int)
    requires Closed(a) && n in a && Killed(a, n).Some?
    ensures var r := Killed(a, n).value;
      forall m | m in a[n].successors && a[m].alive && m != n :: n !in r[m].successors
  {
    var st := a[n].(alive := false);
    UpdateClosed(a, n, st);
    var s := a[n].successors;
    KillRoundsDrop(a[n := st], n, s);
    forall m | m in s && a[m].alive && m != n
      ensures n !in Killed(a, n).value[m].successors
    {
      var j :| 0 <= j < |s| && s[j] == m;
    }
  }

  /** join's result once the entry point and the new successor s are known. */
  function JoinFrom(a: Arena, n: int, s: int): (r: Outcome<Arena>)
    requires Closed(a) && n in a && s in a
    ensures r.Ok? ==> Closed(r.value) && r.value.Keys == a.Keys
  {
    FixFrom(StabilizeStep(CheckStep(SetSuccessors(a, n, [s]), n), n), n, 0)
  }

  lemma JoinFromSuccessorsAlive(a: Arena, n: int, s: int)
    requires Closed(a) && n in a && s in a && JoinFrom(a, n, s).Ok?
    ensures var b := JoinFrom(a, n, s).value;
      forall j | 0 <= j < |b[n].successors| :: b[b[n].successors[j]].alive
  {
    var a2 := CheckStep(SetSuccessors(a, n, [s]), n);
    if |a2[n].successors| > 0 {
      StabilizeLeavesAlive(a2, n);
    }
  }

  lemma JoinFromKeepsLiveness(a: Arena, n: int, s: int, m: int)
    requires Closed(a) && n in a && s in a && m in a && JoinFrom(a, n, s).Ok?
    ensures JoinFrom(a, n, s).value[m].alive == a[m].alive
  {
    StabilizeKeepsLiveness(CheckStep(SetSuccessors(a, n, [s]), n), n, m);
  }

  /** join(e) on n: reach an alive entry point, take the successor of n as sole successor,
      then check_successors, stabilize and fix_fingers. */
  function JoinStep(a: Arena, n: int, e: int): (r: Outcome<Arena>)
    requires Closed(a) && n in a && e in a
    ensures r.Ok? ==> Closed(r.value) && r.value.Keys == a.Keys
  {
    var entry := if a[e].alive then Ok(e) else Lookup(a, e, e);
    if entry.Fail? then Fail(entry.fault)
    else
      var s := Lookup(a, entry.value, n);
      if s.Fail? then Fail(s.fault)
      else JoinFrom(a, n, s.value)
  }

  /** A successful join leaves n with only alive successors, and no node changes liveness. */
  lemma JoinLeavesAlive(a: Arena, n: int, e: int)
    requires Closed(a) && n in a && e in a && JoinStep(a, n, e).Ok?
    ensures var b := JoinStep(a, n, e).value;
      && (forall j | 0 <= j < |b[n].successors| :: b[b[n].successors[j]].alive)
      && (forall m | m in a :: b[m].alive == a[m].alive)
  {
    var entry := if a[e].alive then e else Lookup(a, e, e).value;
    var s := Lookup(a, entry, n).value;
    forall m | m in a
      ensures JoinFrom(a, n, s).value[m].alive == a[m].alive
    {
      JoinFromKeepsLiveness(a, n, s, m);
    }
    JoinFromSuccessorsAlive(a, n, s);
  }

  // ---------------------------------------------------------------------------------------
  // The ring as a mutable arena
  // ---------------------------------------------------------------------------------------

  /** Every node of the process, addressed by identifier. */
  class Network {
    var nodes: Arena

    predicate Valid()
      reads this
    {
      Closed(nodes)
    }

    constructor ()
      ensures Valid() && nodes == map[]
    {
      nodes := map[];
    }

    /** Node(node_id): an alive node that is its own predecessor, has no successors yet,
        an empty store, and a finger table whose HashSize slots all name itself. */
    method AddNode(id: int)
      requires Valid() && 0 <= id < IdSpace && id !in nodes
      modifies this
      ensures Valid()
      ensures id in nodes && nodes == old(nodes)[id := NodeState(true, id, [], nodes[id].finger, map[], {})]
      ensures |nodes[id].finger| == HashSize && forall j | 0 <= j < HashSize :: nodes[id].finger[j] == id
    {
      var f: seq<int> := [];
      for i := 0 to HashSize
        invariant |f| == i && forall j | 0 <= j < i :: f[j] == id
      {
        f := f + [id];
      }
      nodes := nodes[id := NodeState(true, id, [], f, map[], {})];
    }

    /** The dead-node skip of find_successor and store. */
    method SkipDeadFrom(c: int) returns (r: Outcome<int>)
      requires Valid() && c in nodes
      ensures r == SkipDead(nodes, c, |nodes|)
      ensures r.Ok? ==> r.value in nodes && nodes[r.value].alive
    {
      var cur := c;
      var fuel: nat := |nodes|;
      while !nodes[cur].alive
        invariant cur in nodes
        invariant SkipDead(nodes, cur, fuel) == SkipDead(nodes, c, |nodes|)
        decreases fuel
      {
        if |nodes[cur].successors| == 0 {
          return Fail(NoSuccessor);
        }
        if fuel == 0 {
          return Fail(DeadLoop);
        }
        cur := nodes[cur].successors[0];
        fuel := fuel - 1;
      }
      return Ok(cur);
    }

    /** closest_preceding_finger, scanning the finger table from the highest index down. */
    method ClosestPrecedingFinger(n: int, key: int) returns (r: Outcome<int>)
      requires Valid() && n in nodes
      ensures r == Closest(nodes, n, key)
    {
      var i := HashSize;
      while i > 0
        invariant 0 <= i <= HashSize
        invariant HighestFinger(nodes, n, key, HashSize) == HighestFinger(nodes, n, key, i)
      {
        var f := nodes[n].finger[i - 1];
        if nodes[f].alive && Between(f, n, key) {
          return Ok(f);
        }
        i := i - 1;
      }
      if |nodes[n].successors| == 0 {
        return Fail(NoSuccessor);
      }
      return Ok(nodes[n].successors[0]);
    }

    /** find_successor(key) called on self. Each round adds a node not visited before, so
        there are at most as many rounds as identifiers. */
    method FindSuccessor(self: int, key: int) returns (r: Outcome<int>, rounds: nat)
      requires Valid() && self in nodes
      ensures r == Lookup(nodes, self, key)
      ensures r.Ok? ==> r.value in nodes && (r.value == self || Answers(nodes, key, r.value))
      ensures rounds <= |nodes| <= IdSpace
    {
      IdsBounded(nodes.Keys, IdSpace);
      var current := self;
      var visited: set<int> := {};
      rounds := 0;
      while true
        invariant current in nodes && visited <= nodes.Keys && rounds == |visited|
        invariant Route(nodes, self, key, current, visited) == Lookup(nodes, self, key)
        decreases |nodes.Keys - visited|
      {
        if current in visited {
          SubsetCard(visited, nodes.Keys);
          return Ok(self), rounds;
        }
        VisitShrinks(nodes.Keys, visited, current);
        visited := visited + {current};
        rounds := rounds + 1;
        SubsetCard(visited, nodes.Keys);
        var alive := SkipDeadFrom(current);
        if alive.Fail? {
          return Fail(alive.fault), rounds;
        }
        current := alive.value;
        var ss := nodes[current].successors;
        if |ss| == 0 {
          return Fail(NoSuccessor), rounds;
        }
        if BetweenRightIncl(key, current, ss[0]) {
          return Ok(ss[0]), rounds;
        }
        var closest := ClosestPrecedingFinger(current, key);
        // The source falls back to successors[0] when closest is current; that cannot happen.
        ClosestIsNotCurrent(nodes, current, key);
        current := closest.value;
      }
    }

    /** The list check_successors leaves on n, computed without changing anything. */
    method RefilledSuccessors(n: int) returns (s: seq<int>)
      requires Valid() && n in nodes
      ensures s == Refill(nodes, n, AliveOnly(nodes, nodes[n].successors))
    {
      s := AliveOnly(nodes, nodes[n].successors);
      ghost var s0 := s;
      while |s| < Tolerance + 1
        invariant AllIn(nodes, s)
        invariant Refill(nodes, n, s) == Refill(nodes, n, s0)
        decreases Tolerance + 1 - |s|
      {
        if |s| == 0 {
          break;
        }
        var last := s[|s| - 1];
        var ls := if last == n then s else nodes[last].successors;
        if |ls| == 0 {
          break;
        }
        var next := ls[0];
        if nodes[next].alive && next !in s {
          s := s + [next];
        } else {
          break;
        }
      }
    }

    /** check_successors on n. */
    method CheckSuccessors(n: int)
      requires Valid() && n in nodes
      modifies this
      ensures Valid() && nodes == CheckStep(old(nodes), n)
    {
      var s := RefilledSuccessors(n);
      nodes := nodes[n := nodes[n].(successors := s)];
    }

    /** notify(c) received by m. */
    method Notify(m: int, c: int)
      requires Valid() && m in nodes && c in nodes
      modifies this
      ensures Valid() && nodes == NotifyStep(old(nodes), m, c)
    {
      if nodes[c].alive && Between(c, nodes[m].predecessor, m) {
        nodes := nodes[m := nodes[m].(predecessor := c)];
      }
    }

    /** stabilize on n. The source's two except branches cannot be reached: reading a
        predecessor and notify never raise in this variant. */
    method Stabilize(n: int)
      requires Valid() && n in nodes
      modifies this
      ensures Valid() && nodes == StabilizeStep(old(nodes), n)
    {
      if |nodes[n].successors| == 0 {
        return;
      }
      var succ := nodes[n].successors[0];
      if !nodes[succ].alive {
        nodes := nodes[n := nodes[n].(successors := nodes[n].successors[1..])];
        CheckSuccessors(n);
        return;
      }
      var x := nodes[succ].predecessor;
      if nodes[x].alive && Between(x, n, succ) {
        nodes := nodes[n := nodes[n].(successors := [x] + nodes[n].successors)];
      }
      Notify(succ, n);
      CheckSuccessors(n);
    }
  
    /** fix_fingers on n: slot i becomes find_successor((n + 2^i) mod IdSpace), in order. */
    method FixFingers(n: int) returns (ok: bool)
      requires Valid() && n in nodes
      modifies this
      ensures Valid() && nodes.Keys == old(nodes).Keys
      ensures ok == FixFrom(old(nodes), n, 0).Ok?
      ensures ok ==> nodes == FixFrom(old(nodes), n, 0).value
      ensures forall m | m in old(nodes) && m != n :: nodes[m] == old(nodes)[m]
      ensures nodes[n] == old(nodes)[n].(finger := nodes[n].finger)
    {
      ghost var a := nodes;
      for i := 0 to HashSize
        invariant Valid() && nodes.Keys == a.Keys
        invariant FixFrom(nodes, n, i) == FixFrom(a, n, 0)
        invariant forall m | m in a && m != n :: nodes[m] == a[m]
        invariant nodes[n] == a[n].(finger := nodes[n].finger)
      {
        var t, _ := FindSuccessor(n, FingerStart(n, i, IdSpace));
        if t.Fail? {
          return false;
        }
        ghost var g := WithFinger(nodes, n, nodes[n].finger[i := t.value]);
        nodes := nodes[n := nodes[n].(finger := nodes[n].finger[i := t.value])];
        assert nodes == g;
      }
      return true;
    }

    /** store's first loop: from the owner first, TOLERANCE+1 rounds that each record the
        current node and move on to the next alive one. */
    method StoreChain(first: int) returns (r: Outcome<seq<int>>)
      requires Valid() && first in nodes
      ensures r == Chain(nodes, first, Tolerance + 1)
    {
      var chain: seq<int> := [];
      var current := first;
      PrefixedEmpty(Chain(nodes, first, Tolerance + 1));
      for i := 0 to Tolerance + 1
        invariant current in nodes && AllIn(nodes, chain)
        invariant Chain(nodes, first, Tolerance + 1) == Prefixed(chain, Chain(nodes, current, Tolerance + 1 - i))
      {
        ghost var before := chain;
        chain := chain + [current];
        if |nodes[current].successors| == 0 {
          return Fail(NoSuccessor);
        }
        var next := SkipDeadFrom(nodes[current].successors[0]);
        if next.Fail? {
          return Fail(next.fault);
        }
        PrefixedStep(nodes, before, current, Tolerance + 1 - i);
        current := next.value;
      }
      assert chain + [] == chain;
      return Ok(chain);
    }

    /** store's second loop: data[key] := v on each node of chain. */
    method WriteAll(chain: seq<int>, key: int, v: Value)
      requires Valid() && AllIn(nodes, chain)
      modifies this
      ensures Valid() && nodes == WriteKey(old(nodes), chain, key, v)
    {
      ghost var a := nodes;
      for j := 0 to |chain|
        invariant nodes == WriteKey(a, chain[..j], key, v)
      {
        WriteKeyStep(a, chain[..j], key, v, chain[j]);
        assert chain[..j + 1] == chain[..j] + [chain[j]];
        nodes := nodes[chain[j] := nodes[chain[j]].(data := nodes[chain[j]].data[key := v])];
      }
      assert chain[..|chain|] == chain;
      SameTopologyClosed(a, nodes);
    }

    /** store(key, v) called on n: the owner of key and the next TOLERANCE alive nodes
        after it each get data[key] := v; nothing is written when a step of the walk raises. */
    method Store(n: int, key: int, v: Value) returns (ok: bool)
      requires Valid() && n in nodes
      modifies this
      ensures Valid()
      ensures ok == StoreTargets(old(nodes), n, key).Ok?
      ensures ok ==> nodes == WriteKey(old(nodes), StoreTargets(old(nodes), n, key).value, key, v)
      ensures !ok ==> nodes == old(nodes)
    {
      var first, _ := FindSuccessor(n, key);
      if first.Fail? {
        return false;
      }
      var chain := StoreChain(first.value);
      if chain.Fail? {
        return false;
      }
      WriteAll(chain.value, key, v);
      return true;
    }

    /** retrieve(key) called on n: up to TOLERANCE+1 probes at key, key+1, ... mod IdSpace. */
    method Retrieve(n: int, key: int) returns (r: Outcome<Option<Value>>)
      requires Valid() && n in nodes
      ensures r == RetrieveFrom(nodes, n, key, Tolerance + 1)
    {
      var k := key;
      for i := 0 to Tolerance + 1
        invariant RetrieveFrom(nodes, n, k, Tolerance + 1 - i) == RetrieveFrom(nodes, n, key, Tolerance + 1)
      {
        var m, _ := FindSuccessor(n, k);
        if m.Fail? {
          return Fail(m.fault);
        }
        if nodes[m.value].alive && k in nodes[m.value].data {
          return Ok(Some(nodes[m.value].data[k]));
        }
        k := (k + 1) % IdSpace;
      }
      return Ok(None);
    }

    /** find_successor(key) from n, read against a, of which the current arena differs at
        most in stored data. */
    method LookupAs(ghost a: Arena, n: int, key: int) returns (r: Outcome<int>)
      requires Valid() && Closed(a) && SameTopology(a, nodes) && n in a
      ensures r == Lookup(a, n, key)
    {
      RouteIgnoresData(a, nodes, n, key, n, {});
      var rounds;
      r, rounds := FindSuccessor(n, key);
    }

    /** replicate_data(dead) on n: every key n holds in (predecessor(dead), dead] is copied
        to the node find_successor(key) names. The keys are taken in an arbitrary order. */
    method ReplicateData(n: int, dead: int) returns (ok: bool)
      requires Valid() && n in nodes && dead in nodes
      modifies this
      ensures Valid() && SameTopology(old(nodes), nodes)
      ensures ok == ReplicaRoutesOk(old(nodes), n, dead)
      ensures ok ==> nodes == Replicated(old(nodes), n, dead, old(nodes)[n].data.Keys)
    {
      ghost var a := nodes;
      ghost var route := Routes(a, n, dead);
      ghost var keys := a[n].data.Keys;
      var todo := nodes[n].data.Keys;
      PlaceNothing(a, route, a[n].data);
      assert keys - todo == {};
      while todo != {}
        invariant todo <= keys
        invariant nodes == Place(a, route, a[n].data, keys - todo) && Valid()
        invariant forall k | k in keys - todo && InDeadRange(a, dead, k) :: k in route
        decreases |todo|
      {
        var k :| k in todo;
        var pushed := PushKey(n, dead, k, a, keys - todo);
        if !pushed {
          return false;
        }
        MoveKey(keys, todo, k);
        todo := todo - {k};
      }
      assert keys - todo == keys;
      ReplicaRoutesAll(a, n, dead);
      return true;
    }

    /** One round of replicate_data's loop: key k of n, if it lies in dead's range, is
        copied to the node find_successor(k) names. */
    method PushKey(n: int, dead: int, k: int, ghost a: Arena, ghost done: set<int>) returns (ok: bool)
      requires Closed(a) && n in a && dead in a && k in a[n].data && k !in done
      requires nodes == Place(a, Routes(a, n, dead), a[n].data, done) && Valid()
      modifies this
      ensures Valid() && SameTopology(a, nodes)
      ensures ok ==> nodes == Place(a, Routes(a, n, dead), a[n].data, done + {k})
      ensures ok ==> (InDeadRange(a, dead, k) ==> k in Routes(a, n, dead))
      ensures !ok ==> !ReplicaRoutesOk(a, n, dead)
    {
      ghost var route := Routes(a, n, dead);
      PlaceKeepsUnhandled(a, route, a[n].data, done, n, k);
      PlaceStep(a, route, a[n].data, done, k);
      RoutesAt(a, n, dead, k);
      if BetweenRightIncl(k, nodes[dead].predecessor, dead) {
        var t := LookupAs(a, n, k);
        if t.Fail? {
          ReplicaRouteFails(a, n, dead, k);
          return false;
        }
        nodes := nodes[t.value := nodes[t.value].(data := nodes[t.value].data[k := nodes[n].data[k]])];
      }
      SameTopologyClosed(a, nodes);
      return true;
    }

    /** The first two lines of handle_failure: remove dead from n's successors if it is
        there, and add it to knownDead. */
    method DropDead(n: int, dead: int)
      requires Valid() && n in nodes && dead in nodes
      modifies this
      ensures Valid() && nodes == Forgotten(old(nodes), n, dead)
    {
      ghost var a := nodes;
      RemoveFirstSpec(nodes[n].successors, dead);
      var ss := nodes[n].successors;
      if dead in ss {
        ss := RemoveFirst(ss, dead);
      }
      assert ss == RemoveFirst(a[n].successors, dead);
      nodes := nodes[n := nodes[n].(successors := ss)];
      nodes := nodes[n := nodes[n].(knownDead := nodes[n].knownDead + {dead})];
      assert nodes == Forgotten(a, n, dead);
    }

    /** handle_failure(dead) on n. */
    method HandleFailure(n: int, dead: int) returns (ok: bool)
      requires Valid() && n in nodes && dead in nodes
      modifies this
      ensures Valid() && SameTopology(Forget(old(nodes), n, dead), nodes)
      ensures ok == ReplicaRoutesOk(Forget(old(nodes), n, dead), n, dead)
      ensures ok ==> nodes == Replicated(Forget(old(nodes), n, dead), n, dead, old(nodes)[n].data.Keys)
      ensures nodes.Keys == old(nodes).Keys
      ensures forall m | m in nodes :: nodes[m].alive == old(nodes)[m].alive
      ensures forall m | m in nodes && m != n :: nodes[m].successors == old(nodes)[m].successors
      ensures !old(nodes)[dead].alive ==> dead !in nodes[n].successors
    {
      ghost var a := nodes;
      DropDead(n, dead);
      CheckSuccessors(n);
      ok := ReplicateData(n, dead);
      ForgetThenSame(a, n, dead, nodes);
    }

    /** The body of kill's loop for successor m: m runs handle_failure(dead) if m is alive. */
    method Report(m: int, dead: int) returns (ok: bool)
      requires Valid() && m in nodes && dead in nodes
      modifies this
      ensures Valid() && nodes.Keys == old(nodes).Keys
      ensures forall x | x in nodes :: nodes[x].alive == old(nodes)[x].alive
      ensures forall x | x in nodes && x != m :: nodes[x].successors == old(nodes)[x].successors
      ensures ok && old(nodes)[m].alive && !old(nodes)[dead].alive ==> dead !in nodes[m].successors
      ensures ok == Reported(old(nodes), m, dead).Some?
      ensures ok ==> nodes == Reported(old(nodes), m, dead).value
      ensures !old(nodes)[m].alive ==> nodes == old(nodes)
    {
      ok := true;
      if nodes[m].alive {
        ok := HandleFailure(m, dead);
      }
    }

    /** kill on n: n stops, and each of its alive successors runs handle_failure(n). Every
        such successor that completes drops n from its list. */
    method Kill(n: int) returns (ok: bool)
      requires Valid() && n in nodes
      modifies this
      ensures Valid() && nodes.Keys == old(nodes).Keys && !nodes[n].alive
      ensures forall m | m in nodes && m != n :: nodes[m].alive == old(nodes)[m].alive
      ensures ok ==> forall m | m in old(nodes)[n].successors && m != n && old(nodes)[m].alive ::
                       n !in nodes[m].successors
      ensures ok == Killed(old(nodes), n).Some?
      ensures ok ==> nodes == Killed(old(nodes), n).value
    {
      ghost var a := nodes;
      UpdateClosed(nodes, n, nodes[n].(alive := false));
      nodes := nodes[n := nodes[n].(alive := false)];
      var succs := nodes[n].successors;
      for i := 0 to |succs|
        invariant Valid() && nodes.Keys == a.Keys && !nodes[n].alive
        invariant forall m | m in nodes && m != n :: nodes[m].alive == a[m].alive
        invariant forall j | 0 <= j < |succs| :: succs[j] in nodes
        invariant KillRounds(nodes, n, succs[i..]) == Killed(a, n)
      {
        assert succs[i..][1..] == succs[i + 1..];
        var done := Report(succs[i], n);
        if !done {
          return false;
        }
      }
      KillDrops(a, n);
      return true;
    }

    /** join(e) on n. */
    method Join(n: int, e: int) returns (ok: bool)
      requires Valid() && n in nodes && e in nodes
      modifies this
      ensures Valid() && nodes.Keys == old(nodes).Keys
      ensures ok == JoinStep(old(nodes), n, e).Ok?
      ensures ok ==> nodes == JoinStep(old(nodes), n, e).value
    {
      var entry := e;
      if !nodes[e].alive {
        var r, _ := FindSuccessor(e, e);
        if r.Fail? {
          return false;
        }
        entry := r.value;
      }
      var s, _ := FindSuccessor(entry, n);
      if s.Fail? {
        return false;
      }
      ok := Settle(n, s.value);
    }

    /** The last four lines of join, once the new successor s is found: successors := [s],
        then check_successors, stabilize and fix_fingers. */
    method Settle(n: int, s: int) returns (ok: bool)
      requires Valid() && n in nodes && s in nodes
      modifies this
      ensures Valid() && nodes.Keys == old(nodes).Keys
      ensures ok == JoinFrom(old(nodes), n, s).Ok?
      ensures ok ==> nodes == JoinFrom(old(nodes), n, s).value
    {
      ghost var a := nodes;
      nodes := nodes[n := nodes[n].(successors := [s])];
      assert nodes == SetSuccessors(a, n, [s]);
      CheckSuccessors(n);
      Stabilize(n);
      ok := FixFingers(n);
    }
  }
}
