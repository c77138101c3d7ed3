/**
 * The chorddht.py variant: the textbook protocol with a single successor, right-inclusive
 * arcs everywhere, and a lookup that answers the node preceding the key, whose successor is
 * the owner.
 *
 * A killed node raises "Node is dead" on every attribute read except alive, is_alive and
 * reset (Fault NodeDead); assignments still reach it. The model writes that guard out as an
 * explicit liveness test before each read. VERBOSE is True in this file, so the debug lines
 * run, and the `.id` reads they make raise on a killed node as well. Nodes live in an arena
 * keyed by identifier, and a lookup's recursion depth is bounded by Python's default limit.
 */
module ChordDht {
  import opened Wrappers
  import opened Ring

  const HashSize: nat := 3
  const IdSpace: nat := 8
  /** Python's default recursion limit: a lookup that nests this deep raises RecursionError. */
  const MaxDepth: nat := 1000

  /** One ring member. The predecessor is a node or, after check_predecessor, None. */
  datatype NodeState = NodeState(
    alive: bool,
    predecessor: Option<int>,
    successor: int,
    finger: seq<int>)

  type Arena = map<int, NodeState>

  predicate AllIn(a: Arena, s: seq<int>) {
    forall j | 0 <= j < |s| :: s[j] in a
  }

  /** Every entry of s is a live node. */
  predicate AllAlive(a: Arena, s: seq<int>)
    requires AllIn(a, s)
  {
    forall j | 0 <= j < |s| :: a[s[j]].alive
  }

  /** Every reference st holds names a node of a, and its finger table has HashSize slots. */
  predicate Fits(a: Arena, st: NodeState) {
    && (st.predecessor.Some? ==> st.predecessor.value in a)
    && st.successor in a
    && |st.finger| == HashSize && AllIn(a, st.finger)
  }

  /** Identifiers lie in the ring and every node fits the arena. A node's successor is a
      plain reference, so the quantifier fires only where a node's links are read; firing on
      every membership would chase successors without end. */
  predicate Closed(a: Arena) {
    forall id {:trigger a[id].successor} {:trigger a[id].predecessor} {:trigger a[id].finger} | id in a ::
      0 <= id < IdSpace && Fits(a, a[id])
  }

  lemma UpdateClosed(a: Arena, n: int, st: NodeState)
    requires Closed(a) && n in a && Fits(a, st)
    ensures Closed(a[n := st]) && a[n := st].Keys == a.Keys
  {
    var b := a[n := st];
    assert a.Keys <= b.Keys;
    forall id | id in b ensures 0 <= id < IdSpace && Fits(b, b[id]) {
      assert id in a;
      assert a[id].successor in a;
      if id == n {
        FitsGrows(a, b, st);
      } else {
        assert b[id] == a[id];
        FitsGrows(a, b, a[id]);
      }
    }
  }

  lemma FitsGrows(a: Arena, b: Arena, st: NodeState)
    requires Fits(a, st) && a.Keys <= b.Keys
    ensures Fits(b, st)
  {
    if st.predecessor.Some? {
      assert st.predecessor.value in a;
    }
    assert st.successor in a;
    forall j | 0 <= j < |st.finger| ensures st.finger[j] in b {
      assert st.finger[j] in a;
    }
  }

  /** Node(id): alive, and its own predecessor, successor and every finger. */
  function Singleton(id: int): (st: NodeState)
    ensures st.alive && st.predecessor == Some(id) && st.successor == id
    ensures |st.finger| == HashSize && forall j | 0 <= j < HashSize :: st.finger[j] == id
  {
    NodeState(true, Some(id), id, seq(HashSize, j => id))
  }

  function SetSuccessor(a: Arena, n: int, s: int): (r: Arena)
    requires Closed(a) && n in a && s in a
    ensures Closed(r) && r.Keys == a.Keys && r[n].successor == s
  {
    UpdateClosed(a, n, a[n].(successor := s));
    a[n := a[n].(successor := s)]
  }

  function SetPredecessor(a: Arena, n: int, p: Option<int>): (r: Arena)
    requires Closed(a) && n in a && (p.Some? ==> p.value in a)
    ensures Closed(r) && r.Keys == a.Keys && r[n].predecessor == p
  {
    UpdateClosed(a, n, a[n].(predecessor := p));
    a[n := a[n].(predecessor := p)]
  }

  // ---------------------------------------------------------------------------------------
  // closest_preceding_finger and find
  // ---------------------------------------------------------------------------------------

  /** The loop of closest_preceding_finger over slots i - 1 down to 0. Each slot's `.id` is
      read; the first slot in (n, id] is answered after the debug line has read the `.id` of
      every finger. */
  function Scan(a: Arena, n: int, id: int, i: nat): (r: Outcome<int>)
    requires Closed(a) && n in a && i <= HashSize
    ensures r.Ok? ==> r.value in a
    decreases i
  {
    var f := a[n].finger;
    if i == 0 then Ok(n)
    else if !a[f[i - 1]].alive then Fail(NodeDead)
    else if BetweenRightIncl(f[i - 1], n, id) then
      if AllAlive(a, f) then Ok(f[i - 1]) else Fail(NodeDead)
    else Scan(a, n, id, i - 1)
  }

  /** closest_preceding_finger(id) on n. */
  function Cpf(a: Arena, n: int, id: int): (r: Outcome<int>)
    requires Closed(a) && n in a
    ensures r.Ok? ==> r.value in a
  {
    Scan(a, n, id, HashSize)
  }

  /** The highest slot below i whose finger lies in (n, id]. */
  function HighestSlot(f: seq<int>, n: int, id: int, i: nat): (r: Option<nat>)
    requires i <= |f|
    ensures r.Some? ==> r.value < i && BetweenRightIncl(f[r.value], n, id)
    ensures r.Some? ==> forall k | r.value < k < i :: !BetweenRightIncl(f[k], n, id)
    ensures r.None? ==> forall k | 0 <= k < i :: !BetweenRightIncl(f[k], n, id)
    decreases i
  {
    if i == 0 then None
    else if BetweenRightIncl(f[i - 1], n, id) then Some(i - 1)
    else HighestSlot(f, n, id, i - 1)
  }

  /** With every finger live, closest_preceding_finger answers the finger in the highest slot
      that lies in (n, id], and n itself when none does. */
  lemma {:induction false} ScanSpec(a: Arena, n: int, id: int, i: nat)
    requires Closed(a) && n in a && i <= HashSize && AllAlive(a, a[n].finger)
    ensures var f := a[n].finger;
      Scan(a, n, id, i) == Ok(match HighestSlot(f, n, id, i) case Some(k) => f[k] case None => n)
    decreases i
  {
    var f := a[n].finger;
    if i > 0 {
      assert a[f[i - 1]].alive;
      if !BetweenRightIncl(f[i - 1], n, id) {
        ScanSpec(a, n, id, i - 1);
      }
    }
  }

  /** A finger scanned before the answer that is dead makes the scan raise. */
  lemma DeadFingerRaises(a: Arena, n: int, id: int)
    requires Closed(a) && n in a && !a[a[n].finger[HashSize - 1]].alive
    ensures Cpf(a, n, id) == Fail(NodeDead)
  {
  }

  /** find(id) started at n with depth frames left. It answers n itself once id lies in
      (n, n.successor]; callers take that node's successor to reach the owner. */
  function Find(a: Arena, n: int, id: int, depth: nat): (r: Outcome<int>)
    requires Closed(a) && n in a
    ensures r.Ok? ==> r.value in a
    decreases depth
  {
    if depth == 0 then Fail(RecursionLimit)
    else if !a[n].alive || !a[a[n].successor].alive then Fail(NodeDead)
    else if BetweenRightIncl(id, n, a[n].successor) then Ok(n)
    else match Cpf(a, n, id)
      case Fail(f) => Fail(f)
      case Ok(c) => Find(a, c, id, depth - 1)
  }

  /** A lookup answers a live node whose live successor closes the arc around id: the node
      preceding the key, not its owner. */
  lemma {:induction false} FindAnswersPredecessor(a: Arena, n: int, id: int, depth: nat)
    requires Closed(a) && n in a && Find(a, n, id, depth).Ok?
    ensures var r := Find(a, n, id, depth).value;
      a[r].alive && a[a[r].successor].alive && BetweenRightIncl(id, r, a[r].successor)
    decreases depth
  {
    if !BetweenRightIncl(id, n, a[n].successor) {
      FindAnswersPredecessor(a, Cpf(a, n, id).value, id, depth - 1);
    }
  }

  /** In a singleton the arc (n, n] is the whole ring, so every lookup answers n at once. */
  lemma SingletonFind(a: Arena, n: int, id: int, depth: nat)
    requires Closed(a) && n in a && a[n] == Singleton(n) && depth > 0
    ensures Find(a, n, id, depth) == Ok(n)
  {
    DegenerateArcs(id, n);
  }

  /** A lookup through a dead node, or a node whose successor is dead, raises. */
  lemma FindThroughDead(a: Arena, n: int, id: int, depth: nat)
    requires Closed(a) && n in a && depth > 0
    requires !a[n].alive || !a[a[n].successor].alive
    ensures Find(a, n, id, depth) == Fail(NodeDead)
  {
  }

  // ---------------------------------------------------------------------------------------
  // notify and stabilize
  // ---------------------------------------------------------------------------------------

  /** notify(c) received by m: with a predecessor of None c is always taken; otherwise the
      test reads c's and the predecessor's ids, which raises for a dead one. */
  function NotifyStep(a: Arena, m: int, c: int): (r: Outcome<Arena>)
    requires Closed(a) && m in a && c in a
    ensures r.Ok? ==> Closed(r.value) && r.value.Keys == a.Keys
  {
    if !a[m].alive then Fail(NodeDead)
    else match a[m].predecessor
      case None => Ok(SetPredecessor(a, m, Some(c)))
      case Some(p) =>
        if !a[c].alive || !a[p].alive then Fail(NodeDead)
        else if BetweenRightIncl(c, p, m) then Ok(SetPredecessor(a, m, Some(c)))
        else Ok(a)
  }

  /** notify takes c as predecessor exactly when there is none or c lies in the
      right-inclusive arc (predecessor, m], changes nothing else, and raises exactly when a
      node whose id it reads is dead. */
  lemma NotifyGuard(a: Arena, m: int, c: int)
    requires Closed(a) && m in a && c in a
    ensures NotifyStep(a, m, c).Fail? <==>
      !a[m].alive || (a[m].predecessor.Some? && (!a[c].alive || !a[a[m].predecessor.value].alive))
    ensures var r := NotifyStep(a, m, c); r.Ok? ==>
      && r.value == a[m := a[m].(predecessor := r.value[m].predecessor)]
      && (r.value[m].predecessor == a[m].predecessor || r.value[m].predecessor == Some(c))
      && (r.value[m].predecessor == Some(c) <==>
            a[m].predecessor.None? || BetweenRightIncl(c, a[m].predecessor.value, m)
            || a[m].predecessor == Some(c))
  {
  }

  /** stabilize run by n: x = successor.predecessor (a None there has no `.id`) replaces the
      successor when it lies in (n, successor], and the successor then gets notify(n). */
  function StabilizeStep(a: Arena, n: int): (r: Outcome<Arena>)
    requires Closed(a) && n in a
    ensures r.Ok? ==> Closed(r.value) && r.value.Keys == a.Keys
  {
    var s := a[n].successor;
    if !a[n].alive || !a[s].alive then Fail(NodeDead)
    else match a[s].predecessor
      case None => Fail(NoPredecessor)
      case Some(x) =>
        if !a[x].alive then Fail(NodeDead)
        else
          var b := if BetweenRightIncl(x, n, s) then SetSuccessor(a, n, x) else a;
          NotifyStep(b, b[n].successor, n)
  }

  /** stabilize adopts x exactly when it lies in (n, successor], and the successor it ends
      with has n as predecessor whenever that one had none or n lies in its arc. */
  lemma StabilizeAdopts(a: Arena, n: int)
    requires Closed(a) && n in a && StabilizeStep(a, n).Ok?
    ensures var s := a[n].successor; var x := a[s].predecessor.value;
      var r := StabilizeStep(a, n).value;
      && r[n].successor == (if BetweenRightIncl(x, n, s) then x else s)
      && r[n].alive && r[r[n].successor].alive
      && var p := a[r[n].successor].predecessor;
         (p.None? || BetweenRightIncl(n, p.value, r[n].successor)) ==>
           r[r[n].successor].predecessor == Some(n)
  {
    var s := a[n].successor;
    var x := a[s].predecessor.value;
    var b := if BetweenRightIncl(x, n, s) then SetSuccessor(a, n, x) else a;
    NotifyGuard(b, b[n].successor, n);
    if b[n].successor != n {
      assert b[b[n].successor] == a[b[n].successor];
    }
  }

  // ---------------------------------------------------------------------------------------
  // fix_finger_table and join
  // ---------------------------------------------------------------------------------------

  function WithFinger(a: Arena, n: int, i: nat, t: int): (r: Arena)
    requires Closed(a) && n in a && i < HashSize && t in a
    ensures Closed(r) && r.Keys == a.Keys
  {
    UpdateClosed(a, n, a[n].(finger := a[n].finger[i := t]));
    a[n := a[n].(finger := a[n].finger[i := t])]
  }

  /** One pass of the loop: slot i takes the successor of the node answering
      find((n + 2^i) mod 2^m), and the debug line then reads that successor's id. */
  function FixSlot(a: Arena, n: int, i: nat): (r: Outcome<Arena>)
    requires Closed(a) && n in a && i < HashSize
    ensures r.Ok? ==> Closed(r.value) && r.value.Keys == a.Keys
  {
    match Find(a, n, FingerStart(n, i, IdSpace), MaxDepth)
    case Fail(f) => Fail(f)
    case Ok(p) =>
      var t := a[p].successor;
      if !a[t].alive then Fail(NodeDead) else Ok(WithFinger(a, n, i, t))
  }

  /** The loop from slot i on. */
  function FixFrom(a: Arena, n: int, i: nat): (r: Outcome<Arena>)
    requires Closed(a) && n in a && i <= HashSize
    ensures r.Ok? ==> Closed(r.value) && r.value.Keys == a.Keys
    decreases HashSize - i
  {
    if i == HashSize then Ok(a)
    else match FixSlot(a, n, i)
      case Fail(f) => Fail(f)
      case Ok(b) => FixFrom(b, n, i + 1)
  }

  /** A completed pass changes only slot i of n's table, to the live successor of the node
      its lookup answered. */
  lemma FixSlotSpec(a: Arena, n: int, i: nat)
    requires Closed(a) && n in a && i < HashSize && FixSlot(a, n, i).Ok?
    ensures var p := Find(a, n, FingerStart(n, i, IdSpace), MaxDepth); var r := FixSlot(a, n, i).value;
      && p.Ok? && r[a[p.value].successor].alive
      && r == a[n := a[n].(finger := a[n].finger[i := a[p.value].successor])]
  {
  }

  /** fix_finger_table run by n. On a dead n the lookup of the `fix_finger_table` attribute
      itself raises, before any slot is read. */
  function FixStep(a: Arena, n: int): (r: Outcome<Arena>)
    requires Closed(a) && n in a
    ensures r.Ok? ==> Closed(r.value) && r.value.Keys == a.Keys
  {
    if !a[n].alive then Fail(NodeDead) else FixFrom(a, n, 0)
  }

  /** A completed loop from slot i changes only n's table: the slots below i keep their
      nodes, slot i holds the successor of the node its lookup answered, and every slot
      from i on holds a live node. */
  lemma {:induction false} FixFromSpec(a: Arena, n: int, i: nat)
    requires Closed(a) && n in a && i <= HashSize && FixFrom(a, n, i).Ok?
    ensures var r := FixFrom(a, n, i).value;
      && r == a[n := a[n].(finger := r[n].finger)]
      && (forall j | 0 <= j < i :: r[n].finger[j] == a[n].finger[j])
      && (forall j | i <= j < HashSize :: r[r[n].finger[j]].alive)
      && (i < HashSize ==>
            r[n].finger[i] == a[Find(a, n, FingerStart(n, i, IdSpace), MaxDepth).value].successor)
    decreases HashSize - i
  {
    if i == HashSize {
      assert a[n := a[n].(finger := a[n].finger)] == a;
    } else {
      FixSlotSpec(a, n, i);
      var b := FixSlot(a, n, i).value;
      FixFromSpec(b, n, i + 1);
      var r := FixFrom(b, n, i + 1).value;
      assert r == FixFrom(a, n, i).value;
      FingersCompose(a, b, r, n);
      SlotsAfter(a, b, r, n, i);
    }
  }

  lemma SlotsAfter(a: Arena, b: Arena, r: Arena, n: int, i: nat)
    requires Closed(a) && n in a && i < HashSize && Closed(b) && Closed(r) && n in b && n in r
    requires b == a[n := a[n].(finger := b[n].finger)] && r == a[n := a[n].(finger := r[n].finger)]
    requires b[n].finger == a[n].finger[i := b[n].finger[i]] && b[b[n].finger[i]].alive
    requires forall j | 0 <= j < i + 1 :: r[n].finger[j] == b[n].finger[j]
    requires forall j | i + 1 <= j < HashSize :: r[r[n].finger[j]].alive
    ensures forall j | 0 <= j < i :: r[n].finger[j] == a[n].finger[j]
    ensures forall j | i <= j < HashSize :: r[r[n].finger[j]].alive
  {
    var t := b[n].finger[i];
    assert r[n].finger[i] == t;
    assert r[t].alive == a[t].alive == b[t].alive;
  }

  lemma FingersCompose(a: Arena, b: Arena, r: Arena, n: int)
    requires n in a && n in b && n in r
    requires b == a[n := a[n].(finger := b[n].finger)]
    requires r == b[n := b[n].(finger := r[n].finger)]
    ensures r == a[n := a[n].(finger := r[n].finger)]
  {
    assert b[n].(finger := r[n].finger) == a[n].(finger := r[n].finger);
  }

  /** A completed fix_finger_table leaves every slot holding a live node and changes only
      n's table. */
  lemma FixFingersAlive(a: Arena, n: int)
    requires Closed(a) && n in a && FixStep(a, n).Ok?
    ensures var r := FixStep(a, n).value;
      r == a[n := a[n].(finger := r[n].finger)] && AllAlive(r, r[n].finger)
  {
    FixFromSpec(a, n, 0);
  }

  /** join(boot) run by n: a dead n raises on the join attribute itself; otherwise n becomes
      its own predecessor, its successor is the successor of the node boot's lookup of n
      answers, the debug line reads that successor's id, and stabilize and
      fix_finger_table follow. */
  function JoinStep(a: Arena, n: int, boot: int): (r: Outcome<Arena>)
    requires Closed(a) && n in a && boot in a
    ensures r.Ok? ==> Closed(r.value) && r.value.Keys == a.Keys
    ensures !a[n].alive ==> r == Fail(NodeDead)
  {
    if !a[n].alive then Fail(NodeDead)
    else
    var b := SetPredecessor(a, n, Some(n));
    match Find(b, boot, n, MaxDepth)
    case Fail(f) => Fail(f)
    case Ok(p) =>
      var c := SetSuccessor(b, n, b[p].successor);
      if !c[c[n].successor].alive then Fail(NodeDead)
      else match StabilizeStep(c, n)
        case Fail(f) => Fail(f)
        case Ok(d) => FixStep(d, n)
  }

  /** Before stabilize, join leaves n as its own predecessor and, as successor, the successor
      of the node answering boot's lookup: the owner of n's identifier. */
  lemma JoinLinks(a: Arena, n: int, boot: int)
    requires Closed(a) && n in a && boot in a
    requires Find(SetPredecessor(a, n, Some(n)), boot, n, MaxDepth).Ok?
    ensures var b := SetPredecessor(a, n, Some(n)); var p := Find(b, boot, n, MaxDepth).value;
      && b[p].alive && BetweenRightIncl(n, p, b[p].successor)
      && var c := SetSuccessor(b, n, b[p].successor);
         c[n].predecessor == Some(n) && c[n].successor == a[p].successor
  {
    var b := SetPredecessor(a, n, Some(n));
    FindAnswersPredecessor(b, boot, n, MaxDepth);
  }

  /** A completed join leaves n live with a live successor and a table of live fingers. */
  lemma JoinSettles(a: Arena, n: int, boot: int)
    requires Closed(a) && n in a && boot in a && JoinStep(a, n, boot).Ok?
    ensures var r := JoinStep(a, n, boot).value;
      r[n].alive && r[r[n].successor].alive && AllAlive(r, r[n].finger)
  {
    var b := SetPredecessor(a, n, Some(n));
    var p := Find(b, boot, n, MaxDepth).value;
    var c := SetSuccessor(b, n, b[p].successor);
    StabilizeAdopts(c, n);
    var d := StabilizeStep(c, n).value;
    FixFingersAlive(d, n);
    var r := JoinStep(a, n, boot).value;
    assert r == FixStep(d, n).value;
    var s := d[n].successor;
    assert r[n].successor == s;
    if s != n {
      assert r[s] == d[s];
    }
  }

  // ---------------------------------------------------------------------------------------
  // check_predecessor and kill
  // ---------------------------------------------------------------------------------------

  /** check_predecessor: a dead predecessor is cleared; on a dead n the read raises. */
  function CheckStep(a: Arena, n: int): (r: Outcome<Arena>)
    requires Closed(a) && n in a
    ensures r.Ok? ==> Closed(r.value) && r.value.Keys == a.Keys
  {
    if !a[n].alive then Fail(NodeDead)
    else match a[n].predecessor
      case Some(p) => if !a[p].alive then Ok(SetPredecessor(a, n, None)) else Ok(a)
      case None => Ok(a)
  }

  /** check_predecessor on a live n only clears a dead predecessor, leaves none or a live
      one, and running it twice is running it once. */
  lemma CheckPredecessorSpec(a: Arena, n: int)
    requires Closed(a) && n in a
    ensures CheckStep(a, n).Ok? <==> a[n].alive
    ensures var r := CheckStep(a, n); r.Ok? ==>
      && r.value == a[n := a[n].(predecessor := r.value[n].predecessor)]
      && (r.value[n].predecessor != a[n].predecessor ==>
            r.value[n].predecessor.None? && !a[a[n].predecessor.value].alive)
      && (r.value[n].predecessor.Some? ==> r.value[r.value[n].predecessor.value].alive)
      && CheckStep(r.value, n) == r
  {
  }

  /** kill; a killed node raises on its own kill attribute. */
  function KillStep(a: Arena, n: int): (r: Outcome<Arena>)
    requires Closed(a) && n in a
    ensures r.Ok? ==> Closed(r.value) && r.value.Keys == a.Keys
  {
    if !a[n].alive then Fail(NodeDead)
    else
      UpdateClosed(a, n, a[n].(alive := false));
      Ok(a[n := a[n].(alive := false)])
  }

  /** The liveness guard: a killed node raises on every call of the protocol, join
      included, and so does a lookup, stabilize or join that has to read it as successor. */
  lemma KilledRefuses(a: Arena, n: int, m: int, id: int, depth: nat)
    requires Closed(a) && n in a && m in a && KillStep(a, n).Ok? && depth > 0
    ensures var b := KillStep(a, n).value;
      && Find(b, n, id, depth) == Fail(NodeDead)
      && StabilizeStep(b, n) == Fail(NodeDead)
      && (b[m].successor == n ==> Find(b, m, id, depth) == Fail(NodeDead))
      && (b[m].successor == n ==> StabilizeStep(b, m) == Fail(NodeDead))
      && NotifyStep(b, n, m) == Fail(NodeDead)
      && FixStep(b, n) == Fail(NodeDead)
      && CheckStep(b, n) == Fail(NodeDead)
      && KillStep(b, n) == Fail(NodeDead)
      && JoinStep(b, n, m) == Fail(NodeDead)
  {
  }

  // ---------------------------------------------------------------------------------------
  // The nodes as the program holds them
  // ---------------------------------------------------------------------------------------

  /** The Node objects of one run, keyed by identifier. Each method is one call on a node,
      and a false `ok` stands for the exception that call raises. */
  class Network {
    var nodes: Arena

    predicate Valid()
      reads this
    {
      Closed(nodes)
    }

    constructor ()
      ensures Valid() && nodes == map[]
    {
      nodes := map[];
    }

    /** Node(id), which starts as a ring of its own. */
    method AddNode(id: int)
      requires Valid() && 0 <= id < IdSpace && id !in nodes
      modifies this
      ensures Valid() && nodes == old(nodes)[id := Singleton(id)]
    {
      var st := NodeState(true, Some(id), id, seq(HashSize, j => id));
      var b := nodes[id := st];
      assert nodes.Keys <= b.Keys;
      forall x | x in b ensures 0 <= x < IdSpace && Fits(b, b[x]) {
        if x != id {
          assert nodes[x].successor in nodes;
          assert b[x] == nodes[x];
          FitsGrows(nodes, b, nodes[x]);
        }
      }
      nodes := b;
    }

    /** notify(c) on m. */
    method Notify(m: int, c: int) returns (ok: bool)
      requires Valid() && m in nodes && c in nodes
      modifies this
      ensures Valid()
      ensures ok == NotifyStep(old(nodes), m, c).Ok?
      ensures ok ==> nodes == NotifyStep(old(nodes), m, c).value
      ensures !ok ==> nodes == old(nodes)
    {
      if !nodes[m].alive {
        return false;
      }
      var p := nodes[m].predecessor;
      if p.Some? {
        if !nodes[c].alive || !nodes[p.value].alive {
          return false;
        }
        if !BetweenRightIncl(c, p.value, m) {
          return true;
        }
      }
      nodes := SetPredecessor(nodes, m, Some(c));
      ok := true;
    }

    /** stabilize on n. */
    method Stabilize(n: int) returns (ok: bool)
      requires Valid() && n in nodes
      modifies this
      ensures Valid()
      ensures ok == StabilizeStep(old(nodes), n).Ok?
      ensures ok ==> nodes == StabilizeStep(old(nodes), n).value
    {
      var s := nodes[n].successor;
      if !nodes[n].alive || !nodes[s].alive {
        return false;
      }
      var x := nodes[s].predecessor;
      if x.None? {
        return false;
      }
      if !nodes[x.value].alive {
        return false;
      }
      if BetweenRightIncl(x.value, n, s) {
        nodes := SetSuccessor(nodes, n, x.value);
      }
      ok := Notify(nodes[n].successor, n);
    }

    /** fix_finger_table on n. */
    method FixFingerTable(n: int) returns (ok: bool)
      requires Valid() && n in nodes
      modifies this
      ensures Valid()
      ensures ok == FixStep(old(nodes), n).Ok?
      ensures ok ==> nodes == FixStep(old(nodes), n).value
    {
      if !nodes[n].alive {
        return false;
      }
      ghost var a := nodes;
      for i := 0 to HashSize
        invariant Closed(nodes) && n in nodes
        invariant FixFrom(nodes, n, i) == FixFrom(a, n, 0)
      {
        var p := Find(nodes, n, FingerStart(n, i, IdSpace), MaxDepth);
        if p.Fail? {
          return false;
        }
        var t := nodes[p.value].successor;
        nodes := WithFinger(nodes, n, i, t);
        if !nodes[t].alive {
          return false;
        }
      }
      ok := true;
    }

    /** join(boot) on n. */
    method Join(n: int, boot: int) returns (ok: bool)
      requires Valid() && n in nodes && boot in nodes
      modifies this
      ensures Valid()
      ensures ok == JoinStep(old(nodes), n, boot).Ok?
      ensures ok ==> nodes == JoinStep(old(nodes), n, boot).value
    {
      if !nodes[n].alive {
        return false;
      }
      ghost var a := nodes;
      var b := SetPredecessor(nodes, n, Some(n));
      nodes := b;
      var p := Find(b, boot, n, MaxDepth);
      if p.Fail? {
        return false;
      }
      JoinLinks(a, n, boot);
      nodes := SetSuccessor(b, n, b[p.value].successor);
      if !nodes[nodes[n].successor].alive {
        return false;
      }
      ghost var c := nodes;
      ok := Stabilize(n);
      if !ok {
        assert StabilizeStep(c, n).Fail?;
        return false;
      }
      assert nodes == StabilizeStep(c, n).value;
      ok := FixFingerTable(n);
    }

    /** check_predecessor on n. */
    method CheckPredecessor(n: int) returns (ok: bool)
      requires Valid() && n in nodes
      modifies this
      ensures Valid()
      ensures ok == CheckStep(old(nodes), n).Ok?
      ensures ok ==> nodes == CheckStep(old(nodes), n).value
      ensures !ok ==> nodes == old(nodes)
    {
      if !nodes[n].alive {
        return false;
      }
      var p := nodes[n].predecessor;
      if p.Some? && !nodes[p.value].alive {
        nodes := SetPredecessor(nodes, n, None);
      }
      ok := true;
    }

    /** kill on n. */
    method Kill(n: int) returns (ok: bool)
      requires Valid() && n in nodes
      modifies this
      ensures Valid()
      ensures ok == KillStep(old(nodes), n).Ok?
      ensures ok ==> nodes == KillStep(old(nodes), n).value
      ensures !ok ==> nodes == old(nodes)
    {
      if !nodes[n].alive {
        return false;
      }
      UpdateClosed(nodes, n, nodes[n].(alive := false));
      nodes := nodes[n := nodes[n].(alive := false)];
      ok := true;
    }
  }
}
