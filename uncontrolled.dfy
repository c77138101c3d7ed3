/**
 * The uncontrolled.py variant: a ring with a timeout-based failure detector. Each node keeps,
 * per peer, the time of the last contact and a counter of missed checks; peers whose counter
 * reaches three are declared dead and evicted. Time is an integer `now` passed to every step
 * that reads the clock, and nodes live in an arena keyed by identifier.
 *
 * Several methods this variant calls are not defined in it: closest_preceding_finger,
 * replicate_data, get_successors and is_alive. The class's __getattr__ answers each of them
 * with a handler that raises NodeFailure. The module-level `between` is not defined either:
 * NotifyAsWritten models notify with the NameError it raises, and elsewhere Ring.Between, the
 * strict arc test of the sinHilos.py variant, stands for it.
 */
module Uncontrolled {
  import opened Wrappers
  import opened Ring
  import opened Lists

  const HashSize: nat := 8
  const IdSpace: nat := 256
  const Tolerance: nat := 3
  const FailureTimeout: int := 5
  /** check_failures declares a peer dead once its counter reaches this many misses. */
  const FailureThreshold: int := 3

  /** The source stores arbitrary Python values; strings stand for them. */
  type Value = string

  /** One ring member: its links, its store, and its failure-detector records, lastSeen
      (peer to time of the last contact) and failureCounter (peer to missed checks). */
  datatype NodeState = NodeState(
    alive: bool,
    predecessor: Option<int>,
    successors: seq<int>,
    finger: seq<int>,
    data: map<int, Value>,
    lastSeen: map<int, int>,
    failureCounter: map<int, int>)

  type Arena = map<int, NodeState>

  /** How a step ends: it returns, or it raises fault. Either way state is the arena it leaves,
      with every write made before the raise: no handler rolls them back, and the other
      nodes' later rounds read them. */
  datatype Run = Done(state: Arena) | Raised(fault: Fault, state: Arena)

  predicate AllIn(a: Arena, s: seq<int>) {
    forall j | 0 <= j < |s| :: s[j] in a
  }

  /** Every reference st holds names a node of a, and its finger table has HashSize slots. */
  predicate Fits(a: Arena, st: NodeState) {
    && (st.predecessor.Some? ==> st.predecessor.value in a)
    && AllIn(a, st.successors)
    && |st.finger| == HashSize && AllIn(a, st.finger)
    && st.lastSeen.Keys <= a.Keys && st.failureCounter.Keys <= a.Keys
  }

  /** Identifiers lie in the ring and every node fits the arena. */
  predicate Closed(a: Arena) {
    forall id | id in a :: 0 <= id < IdSpace && Fits(a, a[id])
  }

  lemma UpdateClosed(a: Arena, n: int, st: NodeState)
    requires Closed(a) && n in a && Fits(a, st)
    ensures Closed(a[n := st]) && a[n := st].Keys == a.Keys
  {
  }

  /** b differs from a at most in the stores and the failure-detector records. */
  predicate SameLinks(a: Arena, b: Arena) {
    && a.Keys == b.Keys
    && forall id {:trigger a[id]} {:trigger b[id]} | id in a ::
         && a[id].alive == b[id].alive && a[id].predecessor == b[id].predecessor
         && a[id].successors == b[id].successors && a[id].finger == b[id].finger
  }

  /** No step of this variant changes a node's liveness. */
  predicate SameLiveness(a: Arena, b: Arena) {
    && a.Keys == b.Keys
    && forall id {:trigger a[id]} {:trigger b[id]} | id in a :: a[id].alive == b[id].alive
  }

  // ---------------------------------------------------------------------------------------
  // Contacts and lookups (record_contact, find_successor)
  // ---------------------------------------------------------------------------------------

  /** record_contact(peer) on x at time now. */
  function Contact(a: Arena, x: int, peer: int, now: int): (r: Arena)
    requires Closed(a) && x in a && peer in a
    ensures Closed(r) && SameLinks(a, r)
  {
    var st := a[x].(lastSeen := a[x].lastSeen[peer := now],
                    failureCounter := a[x].failureCounter - {peer});
    UpdateClosed(a, x, st);
    a[x := st]
  }

  /** record_contact(peer) stamps peer with now and clears its counter; it touches nothing
      else: no other peer's records, no other field, no other node. */
  lemma ContactRecords(a: Arena, x: int, peer: int, now: int)
    requires Closed(a) && x in a && peer in a
    ensures var r := Contact(a, x, peer, now);
      && peer in r[x].lastSeen && r[x].lastSeen[peer] == now
      && peer !in r[x].failureCounter
      && r[x].lastSeen - {peer} == a[x].lastSeen - {peer}
      && r[x].failureCounter - {peer} == a[x].failureCounter - {peer}
      && r[x].data == a[x].data
      && (forall m | m in a && m != x :: r[m] == a[m])
  {
  }

  /** The answer of find_successor(key) on n. In the first round current is n: when key lies
      on (n, successors[0]] that successor is the answer. Otherwise the round goes on to
      closest_preceding_finger, which this variant does not define, so the call raises and no
      second round is ever reached. An empty successor list raises IndexError. */
  function Lookup(a: Arena, n: int, key: int): (r: Outcome<int>)
    requires Closed(a) && n in a
    ensures r.Ok? ==> r.value in a
  {
    var ss := a[n].successors;
    if |ss| == 0 then Fail(NoSuccessor)
    else if BetweenRightIncl(key, n, ss[0]) then Ok(ss[0])
    else Fail(NodeFailure)
  }

  /** The answer is n's first successor and owns key, in the sense that key lies on the arc
      from n to it; for every other key the lookup raises. */
  lemma LookupAnswers(a: Arena, n: int, key: int)
    requires Closed(a) && n in a
    ensures Lookup(a, n, key).Ok? <==>
      |a[n].successors| > 0 && BetweenRightIncl(key, n, a[n].successors[0])
    ensures Lookup(a, n, key).Ok? ==> Lookup(a, n, key).value == a[n].successors[0]
    ensures |a[n].successors| == 0 ==> Lookup(a, n, key) == Fail(NoSuccessor)
  {
  }

  /** A lookup depends only on n's links, so the side effects of other steps on stores and
      records never change an answer. */
  lemma LookupIgnoresRecords(a: Arena, b: Arena, n: int, key: int)
    requires Closed(a) && Closed(b) && n in a && SameLinks(a, b)
    ensures Lookup(b, n, key) == Lookup(a, n, key)
  {
    assert a[n].successors == b[n].successors;
  }

  // ---------------------------------------------------------------------------------------
  // notify and stabilize
  // ---------------------------------------------------------------------------------------

  /** notify's sort key: how far clockwise x lies from m, (x - m) mod ID_SPACE. */
  function Dist(x: int, m: int): (d: int)
    ensures 0 <= d < IdSpace
  {
    (x - m) % IdSpace
  }

  /** s is ordered by distance from m. */
  predicate SortedFrom(s: seq<int>, m: int) {
    forall i, j | 0 <= i < j < |s| :: Dist(s[i], m) <= Dist(s[j], m)
  }

  /** x put into s behind every entry whose distance does not exceed x's. */
  function Insert(s: seq<int>, x: int, m: int): (r: seq<int>)
    ensures multiset(r) == multiset(s) + multiset{x}
  {
    if s == [] then [x]
    else if Dist(x, m) < Dist(s[0], m) then [x] + s
    else
      assert s == [s[0]] + s[1..];
      [s[0]] + Insert(s[1..], x, m)
  }

  lemma {:induction false} InsertSorted(s: seq<int>, x: int, m: int)
    requires SortedFrom(s, m)
    ensures SortedFrom(Insert(s, x, m), m)
  {
    if s != [] && Dist(x, m) >= Dist(s[0], m) {
      InsertSorted(s[1..], x, m);
      var r := Insert(s[1..], x, m);
      forall y | y in multiset(r)
        ensures Dist(s[0], m) <= Dist(y, m)
      {
      }
      forall j | 0 <= j < |r|
        ensures Dist(s[0], m) <= Dist(r[j], m)
      {
        assert r[j] in multiset(r);
      }
    }
  }

  /** successors.sort(key=lambda n: (n.id - self.id) % ID_SPACE): a stable insertion sort,
      which orders equal keys as Python's stable sort does. */
  function SortByDist(s: seq<int>, m: int): (r: seq<int>)
    ensures multiset(r) == multiset(s)
  {
    if s == [] then []
    else
      assert s == s[..|s| - 1] + [s[|s| - 1]];
      Insert(SortByDist(s[..|s| - 1], m), s[|s| - 1], m)
  }

  /** The sort orders by distance and keeps every entry, each as often as before. */
  lemma {:induction false} SortByDistSorts(s: seq<int>, m: int)
    ensures SortedFrom(SortByDist(s, m), m) && multiset(SortByDist(s, m)) == multiset(s)
  {
    if s != [] {
      SortByDistSorts(s[..|s| - 1], m);
      InsertSorted(SortByDist(s[..|s| - 1], m), s[|s| - 1], m);
    }
  }

  /** The arena with n's successor list replaced by s. */
  function SetSuccessors(a: Arena, n: int, s: seq<int>): (r: Arena)
    requires Closed(a) && n in a && AllIn(a, s)
    ensures Closed(r) && SameLiveness(a, r)
  {
    UpdateClosed(a, n, a[n].(successors := s));
    a[n := a[n].(successors := s)]
  }

  /** notify's list update: c is appended, the list sorted by distance from m and cut to
      TOLERANCE+1 entries, unless c is listed already. */
  function Merged(s: seq<int>, c: int, m: int): (r: seq<int>)
    ensures c !in s ==> |r| == if |s| + 1 <= Tolerance + 1 then |s| + 1 else Tolerance + 1
  {
    assert |SortByDist(s + [c], m)| == |multiset(s + [c])|;
    if c in s then s else Take(SortByDist(s + [c], m), Tolerance + 1)
  }

  /** A merged list holds only entries of s and c; when c was new it is sorted by distance from
      m, has at most TOLERANCE+1 entries, and keeps the nearest ones: every entry of s + [c]
      the cut drops lies at least as far from m as every entry kept. Otherwise it is s
      itself. */
  lemma {:induction false} MergedSpec(s: seq<int>, c: int, m: int)
    ensures forall y | y in Merged(s, c, m) :: y in s || y == c
    ensures c in s ==> Merged(s, c, m) == s
    ensures c !in s ==> SortedFrom(Merged(s, c, m), m) && |Merged(s, c, m)| <= Tolerance + 1
    ensures c !in s ==> forall y, z | y in s + [c] && y !in Merged(s, c, m) && z in Merged(s, c, m) ::
      Dist(z, m) <= Dist(y, m)
  {
    if c !in s {
      var t := SortByDist(s + [c], m);
      var r := Merged(s, c, m);
      assert r == Take(t, Tolerance + 1);
      SortByDistSorts(s + [c], m);
      SortedMembers(s + [c], m);
      CutKeepsNearest(t, Tolerance + 1, m);
      TakeMembers(t, Tolerance + 1);
    }
  }

  /** A prefix holds only entries of the list. */
  lemma TakeMembers(t: seq<int>, k: nat)
    ensures forall y | y in Take(t, k) :: y in t
  {
    var r := Take(t, k);
    forall y | y in r ensures y in t {
      var j :| 0 <= j < |r| && r[j] == y;
      assert t[j] == y;
    }
  }

  /** Sorting by distance neither adds nor loses an entry. */
  lemma SortedMembers(s: seq<int>, m: int)
    ensures forall y :: y in SortByDist(s, m) <==> y in s
  {
    SortByDistSorts(s, m);
    forall y ensures y in SortByDist(s, m) <==> y in s {
      assert y in SortByDist(s, m) <==> y in multiset(SortByDist(s, m));
      assert y in s <==> y in multiset(s);
    }
  }

  /** Cutting a list sorted by distance from m keeps entries no farther than those dropped. */
  lemma CutKeepsNearest(t: seq<int>, k: nat, m: int)
    requires SortedFrom(t, m)
    ensures forall y, z | y in t && y !in Take(t, k) && z in Take(t, k) :: Dist(z, m) <= Dist(y, m)
  {
    var r := Take(t, k);
    forall y, z | y in t && y !in r && z in r
      ensures Dist(z, m) <= Dist(y, m)
    {
      var j :| 0 <= j < |t| && t[j] == y;
      var i :| 0 <= i < |r| && r[i] == z;
      assert t[i] == z;
    }
  }

  /** notify(c) received by m at time now. When m has no predecessor, or c lies strictly
      between the predecessor and m, c becomes the predecessor and c records contact with m.
      Then c is merged into m's successor list. */
  function NotifyStep(a: Arena, m: int, c: int, now: int): (r: Arena)
    requires Closed(a) && m in a && c in a
    ensures Closed(r) && SameLiveness(a, r)
  {
    var p := a[m].predecessor;
    var b := if p.None? || Between(c, p.value, m) then Adopted(a, m, c, now) else a;
    Merge(b, m, c)
  }

  /** m's successor list with c merged in. */
  function Merge(a: Arena, m: int, c: int): (r: Arena)
    requires Closed(a) && m in a && c in a
    ensures Closed(r) && SameLiveness(a, r)
  {
    var t := Merged(a[m].successors, c, m);
    MergedSpec(a[m].successors, c, m);
    assert forall j | 0 <= j < |t| :: t[j] in t;
    SetSuccessors(a, m, t)
  }

  /** m's predecessor set to c, and c's record of m refreshed. */
  function Adopted(a: Arena, m: int, c: int, now: int): (r: Arena)
    requires Closed(a) && m in a && c in a
    ensures Closed(r) && SameLiveness(a, r)
    ensures r[m].successors == a[m].successors && r[m].predecessor == Some(c)
  {
    UpdateClosed(a, m, a[m].(predecessor := Some(c)));
    Contact(a[m := a[m].(predecessor := Some(c))], c, m, now)
  }

  /** notify writes m's predecessor exactly when m has none or c lies strictly between it and
      m; m's list changes only when c is not in it, and then it comes out sorted by distance
      from m, with at most TOLERANCE+1 entries, drawn from the old list and c. */
  lemma NotifyGuard(a: Arena, m: int, c: int, now: int)
    requires Closed(a) && m in a && c in a
    ensures var r := NotifyStep(a, m, c, now); var p := a[m].predecessor;
      && (p.None? || Between(c, p.value, m) ==> r[m].predecessor == Some(c))
      && (p.Some? && !Between(c, p.value, m) ==> r[m].predecessor == p)
      && (c in a[m].successors ==> r[m].successors == a[m].successors)
      && (c !in a[m].successors ==>
            SortedFrom(r[m].successors, m) && |r[m].successors| <= Tolerance + 1)
      && (forall y | y in r[m].successors :: y in a[m].successors || y == c)
      && (forall x | x in a && x != m && x != c :: r[x] == a[x])
      && (c != m ==> r[c] == a[c].(lastSeen := r[c].lastSeen, failureCounter := r[c].failureCounter))
  {
    MergedSpec(a[m].successors, c, m);
  }

  /** notify as written. The module never defines `between`, so when m has a predecessor the
      guard's second operand raises NameError before anything is written; when it has none,
      `not self.predecessor` settles the guard and the run is the one NotifyStep describes. */
  function NotifyAsWritten(a: Arena, m: int, c: int, now: int): (r: Run)
    requires Closed(a) && m in a && c in a
    ensures r.Raised? <==> a[m].predecessor.Some?
    ensures r.Raised? ==> r.state == a
  {
    if a[m].predecessor.Some? then Raised(UndefinedName, a) else Done(NotifyStep(a, m, c, now))
  }

  /** Where notify as written and NotifyStep part: m has a predecessor p and c lies strictly
      between p and m. NotifyStep hands m's predecessor to c; as written the call raises and
      m keeps p. */
  lemma NotifyAsWrittenRaises(a: Arena, m: int, c: int, now: int)
    requires Closed(a) && m in a && c in a
    requires a[m].predecessor.Some? && Between(c, a[m].predecessor.value, m)
    ensures NotifyAsWritten(a, m, c, now) == Raised(UndefinedName, a)
    ensures NotifyStep(a, m, c, now)[m].predecessor == Some(c)
    ensures a[m].predecessor != Some(c)
  {
    NotifyGuard(a, m, c, now);
  }

  /** stabilize's adoption: x = successors[0].predecessor goes in front when it is alive and
      strictly between n and that successor, and the list is cut to TOLERANCE+1 entries. */
  function Adopt(a: Arena, n: int): (r: Arena)
    requires Closed(a) && n in a && |a[n].successors| > 0
    ensures Closed(r) && SameLiveness(a, r)
  {
    var ss := a[n].successors;
    var x := a[ss[0]].predecessor;
    if x.Some? && x.value in a && a[x.value].alive && Between(x.value, n, ss[0]) then
      SetSuccessors(a, n, Take([x.value] + ss, Tolerance + 1))
    else a
  }

  /** When stabilize adopts x it becomes the first successor, the old list follows it, and the
      list has at most TOLERANCE+1 entries; otherwise the list stays as it was. */
  lemma AdoptFront(a: Arena, n: int)
    requires Closed(a) && n in a && |a[n].successors| > 0
    ensures var ss := a[n].successors; var x := a[ss[0]].predecessor; var r := Adopt(a, n);
      if x.Some? && x.value in a && a[x.value].alive && Between(x.value, n, ss[0]) then
        && |r[n].successors| <= Tolerance + 1 && r[n].successors[0] == x.value
        && forall j | 1 <= j < |r[n].successors| :: r[n].successors[j] == ss[j - 1]
      else r[n].successors == ss
  {
  }

  // ---------------------------------------------------------------------------------------
  // Failure handling (handle_failure, update_successors, recover_data)
  // ---------------------------------------------------------------------------------------

  /** update_successors on n: when the list is short it calls find_successor(n), whose
      record_contact is the only lasting effect, since the get_successors call on the answer
      raises and the bare except swallows it. */
  function Refreshed(a: Arena, n: int, now: int): (r: Arena)
    requires Closed(a) && n in a
    ensures Closed(r) && SameLinks(a, r)
  {
    if |a[n].successors| < Tolerance + 1 then Contact(a, n, n, now) else a
  }

  /** The list update_successors would keep, `list({n.id: n for n in s}.values())[:TOLERANCE+1]`.
      The call on get_successors before it always raises, so update_successors never gets
      here; the line is modelled on its own. */
  function Deduped(s: seq<int>): (r: seq<int>)
    ensures |r| == if |Distinct(s)| <= Tolerance + 1 then |Distinct(s)| else Tolerance + 1
    ensures forall j | 0 <= j < |r| :: r[j] == Distinct(s)[j]
  {
    Take(Distinct(s), Tolerance + 1)
  }

  /** That list has no repeated node, at most TOLERANCE+1 entries, and only entries of s. */
  lemma DedupedSpec(s: seq<int>)
    ensures NoDuplicates(Deduped(s)) && |Deduped(s)| <= Tolerance + 1
    ensures forall x | x in Deduped(s) :: x in s
  {
    DistinctSpec(s);
    TakeNoDuplicates(Distinct(s), Tolerance + 1);
  }

  /** handle_failure's first block: when dead is listed, its first occurrence is removed and
      update_successors runs. */
  function Evict(a: Arena, n: int, dead: int, now: int): (r: Arena)
    requires Closed(a) && n in a
    ensures Closed(r) && SameLiveness(a, r)
  {
    if dead in a[n].successors then
      var ss := RemoveFirst(a[n].successors, dead);
      assert forall j | 0 <= j < |ss| :: ss[j] in ss;
      Refreshed(SetSuccessors(a, n, ss), n, now)
    else a
  }

  /** The arena with finger slot i of n set to t. */
  function WithSlot(a: Arena, n: int, i: nat, t: int): (r: Arena)
    requires Closed(a) && n in a && i < HashSize && t in a
    ensures Closed(r) && SameLiveness(a, r)
  {
    var f := a[n].finger[i := t];
    assert forall j | 0 <= j < |f| :: f[j] in a;
    UpdateClosed(a, n, a[n].(finger := f));
    a[n := a[n].(finger := f)]
  }

  /** handle_failure's finger loop from slot i on: every slot that holds dead gets
      find_successor((n + 2^i) mod ID_SPACE); a lookup that raises ends the loop and the call,
      after its record_contact and with the slots before it already fixed. */
  function FixDead(a: Arena, n: int, dead: int, now: int, i: nat): (r: Run)
    requires Closed(a) && n in a && i <= HashSize
    ensures Closed(r.state) && SameLiveness(a, r.state)
    decreases HashSize - i
  {
    if i == HashSize then Done(a)
    else if a[n].finger[i] != dead then FixDead(a, n, dead, now, i + 1)
    else
      var b := Contact(a, n, n, now);
      match Lookup(a, n, FingerStart(n, i, IdSpace))
      case Fail(f) => Raised(f, b)
      case Ok(t) => FixDead(WithSlot(b, n, i, t), n, dead, now, i + 1)
  }

  /** The keys of n's store on dead's arc (p, dead], p being dead's predecessor. */
  function InRange(a: Arena, n: int, p: int, dead: int): set<int>
    requires n in a
  {
    set k | k in a[n].data && BetweenRightIncl(k, p, dead)
  }

  /** The keys of dead's arc (p, dead] in n's store whose lookup from n raises. */
  function Unplaceable(a: Arena, n: int, p: int, dead: int): set<int>
    requires Closed(a) && n in a
  {
    set k | k in InRange(a, n, p, dead) && Lookup(a, n, k).Fail?
  }

  /** The keys of n's store below key: those handled before it in ascending order. */
  function KeysBelow(a: Arena, n: int, key: int): set<int>
    requires n in a
  {
    set j | j in a[n].data && j < key
  }

  /** s's store with every key of keys copied from vals. */
  function Pushed(a: Arena, s: int, vals: map<int, Value>, keys: set<int>): (r: Arena)
    requires Closed(a) && s in a
    ensures Closed(r) && SameLinks(a, r)
  {
    var d := a[s].data + map k | k in keys && k in vals :: vals[k];
    UpdateClosed(a, s, a[s].(data := d));
    a[s := a[s].(data := d)]
  }

  /** recover_data(dead) on n, taking the keys of n's store in ascending order. An empty store
      does nothing. Otherwise the first key reads dead's predecessor, and a predecessor that is
      None raises AttributeError before anything is written. Each key on dead's arc is looked
      up from n and written, with n's value, to the answer; every lookup from n answers n's
      first successor or raises. The call raises at the first key on the arc whose lookup
      raises, after that lookup's record_contact and with the smaller keys copied; when there
      is none it completes with all of them copied. */
  function Recover(a: Arena, n: int, dead: int, now: int): (r: Run)
    requires Closed(a) && n in a && dead in a
    ensures Closed(r.state) && SameLinks(a, r.state)
  {
    if a[n].data == map[] then Done(a)
    else if a[dead].predecessor.None? then Raised(NoPredecessor, a)
    else
      var p := a[dead].predecessor.value;
      var bad := Unplaceable(a, n, p, dead);
      if bad == {} then Done(Partial(a, n, p, dead, now, a[n].data.Keys))
      else
        var k := Least(bad);
        Raised(Lookup(a, n, k).fault, Contact(Partial(a, n, p, dead, now, KeysBelow(a, n, k)), n, n, now))
  }

  /** After a completed recover_data every key of n's store on dead's arc sits, with n's
      value, on the node find_successor names for it. */
  lemma RecoverPlaces(a: Arena, n: int, dead: int, now: int, k: int)
    requires Closed(a) && n in a && dead in a && Recover(a, n, dead, now).Done?
    requires a[dead].predecessor.Some? && k in InRange(a, n, a[dead].predecessor.value, dead)
    ensures Lookup(a, n, k).Ok?
    ensures var r := Recover(a, n, dead, now).state; var t := Lookup(a, n, k).value;
      k in r[t].data && r[t].data[k] == a[n].data[k]
  {
    var p := a[dead].predecessor.value;
    assert k in a[n].data;
    assert k !in Unplaceable(a, n, p, dead);
  }

  /** recover_data(dead) part way: the keys of done have been handled, those on dead's arc
      (p, dead] copied to n's first successor, with n's own record of n refreshed by the
      lookups when there was at least one. */
  function Partial(a: Arena, n: int, p: int, dead: int, now: int, done: set<int>): (r: Arena)
    requires Closed(a) && n in a
    ensures Closed(r) && SameLinks(a, r)
  {
    var ks := done * InRange(a, n, p, dead);
    if ks == {} || |a[n].successors| == 0 then a else Pushed(Contact(a, n, n, now), a[n].successors[0], a[n].data, ks)
  }

  /** Part way through, n's store still holds its old values. */
  lemma PartialStore(a: Arena, n: int, p: int, dead: int, now: int, done: set<int>, k: int)
    requires Closed(a) && n in a && k in a[n].data
    ensures var r := Partial(a, n, p, dead, now, done); k in r[n].data && r[n].data[k] == a[n].data[k]
  {
  }

  /** One more key handled: one on the arc costs a lookup and a write to the first successor,
      any other nothing. */
  lemma PartialStep(a: Arena, n: int, p: int, dead: int, now: int, done: set<int>, key: int)
    requires Closed(a) && n in a && key in a[n].data
    requires key in InRange(a, n, p, dead) ==> |a[n].successors| > 0
    ensures key in InRange(a, n, p, dead) ==>
      var b := Partial(a, n, p, dead, now, done);
      Written(Contact(b, n, n, now), a[n].successors[0], key, a[n].data[key])
        == Partial(a, n, p, dead, now, done + {key})
    ensures key !in InRange(a, n, p, dead) ==>
      Partial(a, n, p, dead, now, done + {key}) == Partial(a, n, p, dead, now, done)
  {
    var ks := done * InRange(a, n, p, dead);
    assert (done + {key}) * InRange(a, n, p, dead) ==
      if key in InRange(a, n, p, dead) then ks + {key} else ks;
    if key in InRange(a, n, p, dead) {
      var c := Contact(a, n, n, now);
      var t := a[n].successors[0];
      PushedMore(c, t, a[n].data, ks, key);
      if ks == {} {
        PushedNone(c, t, a[n].data);
        assert ks + {key} == {key};
      } else {
        ContactSettled(a, n, now, t, a[n].data, ks);
      }
    }
  }

  /** Pushing no key changes nothing. */
  lemma PushedNone(a: Arena, s: int, vals: map<int, Value>)
    requires Closed(a) && s in a
    ensures Pushed(a, s, vals, {}) == a
  {
    var r := Pushed(a, s, vals, {});
    assert r[s].data == a[s].data;
    assert r[s] == a[s];
  }

  /** Pushing one key more is writing it after the others. */
  lemma PushedMore(a: Arena, s: int, vals: map<int, Value>, keys: set<int>, key: int)
    requires Closed(a) && s in a && key in vals
    ensures Pushed(a, s, vals, keys + {key}) == Written(Pushed(a, s, vals, keys), s, key, vals[key])
  {
    var d := a[s].data + map k | k in keys && k in vals :: vals[k];
    assert a[s].data + (map k | k in keys + {key} && k in vals :: vals[k]) == d[key := vals[key]];
  }

  /** After record_contact(n) on n, pushing keys to any node leaves n's record of n as it is,
      so a further record_contact(n) at the same time changes nothing. */
  lemma ContactSettled(a: Arena, n: int, now: int, s: int, vals: map<int, Value>, keys: set<int>)
    requires Closed(a) && n in a && s in a
    ensures var b := Pushed(Contact(a, n, n, now), s, vals, keys); Contact(b, n, n, now) == b
  {
    var b := Pushed(Contact(a, n, n, now), s, vals, keys);
    assert b[n].lastSeen[n := now] == b[n].lastSeen;
    assert b[n].failureCounter - {n} == b[n].failureCounter;
    assert b[n := b[n].(lastSeen := b[n].lastSeen[n := now], failureCounter := b[n].failureCounter - {n})] == b;
  }

  /** A key on dead's arc whose lookup from n raises makes recover_data raise. */
  lemma RecoverFails(a: Arena, n: int, dead: int, now: int, key: int)
    requires Closed(a) && n in a && dead in a && a[dead].predecessor.Some?
    requires key in InRange(a, n, a[dead].predecessor.value, dead) && Lookup(a, n, key).Fail?
    ensures Recover(a, n, dead, now).Raised?
  {
    var p := a[dead].predecessor.value;
    assert key in a[n].data;
    assert key in Unplaceable(a, n, p, dead);
  }

  /** recover_data raises at the smallest key on dead's arc whose lookup raises: the keys
      below it have been handled, and its own lookup has recorded contact. */
  lemma RecoverRaisesAt(a: Arena, n: int, dead: int, now: int, key: int)
    requires Closed(a) && n in a && dead in a && a[dead].predecessor.Some?
    requires var p := a[dead].predecessor.value;
      key in InRange(a, n, p, dead) && Lookup(a, n, key).Fail?
    requires var p := a[dead].predecessor.value;
      forall k | k in KeysBelow(a, n, key) && k in InRange(a, n, p, dead) :: Lookup(a, n, k).Ok?
    ensures var p := a[dead].predecessor.value;
      Recover(a, n, dead, now)
        == Raised(Lookup(a, n, key).fault, Contact(Partial(a, n, p, dead, now, KeysBelow(a, n, key)), n, n, now))
  {
    var p := a[dead].predecessor.value;
    var bad := Unplaceable(a, n, p, dead);
    assert key in bad && key in a[n].data;
    var m := Least(bad);
    assert m in InRange(a, n, p, dead) && Lookup(a, n, m).Fail?;
    assert m !in KeysBelow(a, n, key);
    assert m == key;
  }

  /** Keys taken in ascending order: when every handled key lies below every pending one, the
      handled keys are exactly those below the smallest pending one. */
  lemma HandledBelow(keys: set<int>, todo: set<int>)
    requires todo != {} && todo <= keys
    requires forall k, j | k in keys - todo && j in todo :: k < j
    ensures keys - todo == set j | j in keys && j < Least(todo)
  {
  }

  /** When every key of n's store on dead's arc can be looked up, recover_data completes with
      all of them handled. */
  lemma RecoverDone(a: Arena, n: int, dead: int, now: int)
    requires Closed(a) && n in a && dead in a && a[dead].predecessor.Some? && a[n].data != map[]
    requires var p := a[dead].predecessor.value;
      forall k | k in a[n].data.Keys && k in InRange(a, n, p, dead) :: Lookup(a, n, k).Ok?
    ensures var p := a[dead].predecessor.value;
      Recover(a, n, dead, now) == Done(Partial(a, n, p, dead, now, a[n].data.Keys))
  {
    var p := a[dead].predecessor.value;
    assert a[n].data.Keys * InRange(a, n, p, dead) == InRange(a, n, p, dead);
    forall k | k in InRange(a, n, p, dead)
      ensures BetweenRightIncl(k, n, a[n].successors[0])
    {
      LookupAnswers(a, n, k);
    }
  }

  /** n's records with dead's entries deleted: `del last_seen[dead]`, `del failure_counter[dead]`. */
  function Untracked(a: Arena, n: int, dead: int): (r: Arena)
    requires Closed(a) && n in a
    ensures Closed(r) && SameLinks(a, r)
  {
    var st := a[n].(lastSeen := a[n].lastSeen - {dead}, failureCounter := a[n].failureCounter - {dead});
    UpdateClosed(a, n, st);
    a[n := st]
  }

  /** handle_failure(dead) on n up to its `del` lines: evict dead from the successor list,
      recompute the finger slots holding it, then recover_data(dead). */
  function Cleared(a: Arena, n: int, dead: int, now: int): (r: Run)
    requires Closed(a) && n in a && dead in a
    ensures Closed(r.state) && SameLiveness(a, r.state)
  {
    match FixDead(Evict(a, n, dead, now), n, dead, now, 0)
    case Raised(f, c) => Raised(f, c)
    case Done(c) => Recover(c, n, dead, now)
  }

  /** n's last-contact record of dead deleted, its failure counters left: the state when
      `del last_seen[dead]` has run and `del failure_counter[dead]` raises. */
  function Unseen(a: Arena, n: int, dead: int): (r: Arena)
    requires Closed(a) && n in a
    ensures Closed(r) && SameLinks(a, r)
  {
    var st := a[n].(lastSeen := a[n].lastSeen - {dead});
    UpdateClosed(a, n, st);
    a[n := st]
  }

  /** handle_failure(dead) on n: the steps above, then dead's records are deleted in turn; a
      record that is missing raises KeyError, and a last-contact record deleted before the
      counter is found missing stays deleted. */
  function HandleStep(a: Arena, n: int, dead: int, now: int): (r: Run)
    requires Closed(a) && n in a && dead in a
    ensures Closed(r.state) && SameLiveness(a, r.state)
  {
    match Cleared(a, n, dead, now)
    case Raised(f, e) => Raised(f, e)
    case Done(e) =>
      if dead !in e[n].lastSeen then Raised(NotTracked, e)
      else if dead !in e[n].failureCounter then Raised(NotTracked, Unseen(e, n, dead))
      else Done(Untracked(e, n, dead))
  }

  /** What the `del` lines of handle_failure leave, once the steps before them complete: the
      call completes exactly when n holds both records of dead; either way n no longer has a
      last-contact time for dead, it has no counter for dead unless the first `del` raised,
      and nothing else in the arena has changed. */
  lemma HandleRecords(a: Arena, n: int, dead: int, now: int)
    requires Closed(a) && n in a && dead in a && Cleared(a, n, dead, now).Done?
    ensures var e := Cleared(a, n, dead, now).state; var r := HandleStep(a, n, dead, now);
      && (r.Done? <==> dead in e[n].lastSeen && dead in e[n].failureCounter)
      && dead !in r.state[n].lastSeen
      && r.state[n].lastSeen - {dead} == e[n].lastSeen - {dead}
      && (dead in e[n].lastSeen ==> dead !in r.state[n].failureCounter)
      && r.state[n].failureCounter - {dead} == e[n].failureCounter - {dead}
      && r.state[n] == e[n].(lastSeen := r.state[n].lastSeen, failureCounter := r.state[n].failureCounter)
      && forall x | x in e && x != n :: r.state[x] == e[x]
  {
  }

  /** n's records of every peer other than n itself are the same in a and b, and no counter
      has appeared. Only record_contact(n) on n, run by every find_successor call of n, writes
      n's records of n, and it deletes n's counter. */
  predicate RecordsKept(a: Arena, b: Arena, n: int)
    requires n in a && n in b
  {
    && b[n].lastSeen - {n} == a[n].lastSeen - {n}
    && b[n].failureCounter - {n} == a[n].failureCounter - {n}
    && b[n].failureCounter.Keys <= a[n].failureCounter.Keys
  }

  lemma ContactKeeps(a: Arena, n: int, now: int)
    requires Closed(a) && n in a
    ensures RecordsKept(a, Contact(a, n, n, now), n)
  {
    var r := Contact(a, n, n, now);
    assert r[n].lastSeen - {n} == a[n].lastSeen - {n};
  }

  lemma EvictKeeps(a: Arena, n: int, dead: int, now: int)
    requires Closed(a) && n in a
    ensures RecordsKept(a, Evict(a, n, dead, now), n)
  {
    if dead in a[n].successors {
      var ss := RemoveFirst(a[n].successors, dead);
      assert forall j | 0 <= j < |ss| :: ss[j] in ss;
      var b := SetSuccessors(a, n, ss);
      if |ss| < Tolerance + 1 {
        ContactKeeps(b, n, now);
      }
    }
  }

  lemma {:induction false} FixDeadKeeps(a: Arena, n: int, dead: int, now: int, i: nat)
    requires Closed(a) && n in a && i <= HashSize && FixDead(a, n, dead, now, i).Done?
    ensures RecordsKept(a, FixDead(a, n, dead, now, i).state, n)
    decreases HashSize - i
  {
    if i < HashSize {
      if a[n].finger[i] != dead {
        FixDeadKeeps(a, n, dead, now, i + 1);
      } else {
        var t := Lookup(a, n, FingerStart(n, i, IdSpace)).value;
        var b := WithSlot(Contact(a, n, n, now), n, i, t);
        ContactKeeps(a, n, now);
        FixDeadKeeps(b, n, dead, now, i + 1);
      }
    }
  }

  lemma RecoverKeeps(a: Arena, n: int, dead: int, now: int)
    requires Closed(a) && n in a && dead in a && Recover(a, n, dead, now).Done?
    ensures RecordsKept(a, Recover(a, n, dead, now).state, n)
  {
    ContactKeeps(a, n, now);
  }

  /** The finger loop from slot i on leaves the slots below i and n's successors alone. */
  lemma {:induction false} FixDeadBelow(a: Arena, n: int, dead: int, now: int, i: nat, j: nat)
    requires Closed(a) && n in a && i <= HashSize && j < i && FixDead(a, n, dead, now, i).Done?
    ensures var r := FixDead(a, n, dead, now, i).state;
      r[n].finger[j] == a[n].finger[j] && r[n].successors == a[n].successors
    decreases HashSize - i
  {
    if i < HashSize {
      if a[n].finger[i] != dead {
        FixDeadBelow(a, n, dead, now, i + 1, j);
      } else {
        var t := Lookup(a, n, FingerStart(n, i, IdSpace)).value;
        var b := WithSlot(Contact(a, n, n, now), n, i, t);
        FixDeadBelow(b, n, dead, now, i + 1, j);
      }
    }
  }

  /** handle_failure recomputes exactly the finger slots that held dead: each of them ends up
      naming n's first successor, whose arc holds the slot's start, and every other slot keeps
      its entry. */
  lemma {:induction false} FixDeadSlot(a: Arena, n: int, dead: int, now: int, i: nat, j: nat)
    requires Closed(a) && n in a && i <= j < HashSize && FixDead(a, n, dead, now, i).Done?
    ensures var r := FixDead(a, n, dead, now, i).state;
      && r[n].successors == a[n].successors
      && (a[n].finger[j] != dead ==> r[n].finger[j] == a[n].finger[j])
      && (a[n].finger[j] == dead ==>
            && |a[n].successors| > 0 && r[n].finger[j] == a[n].successors[0]
            && BetweenRightIncl(FingerStart(n, j, IdSpace), n, a[n].successors[0]))
    decreases HashSize - i
  {
    if a[n].finger[i] != dead {
      if i == j {
        FixDeadBelow(a, n, dead, now, i + 1, j);
      } else {
        FixDeadSlot(a, n, dead, now, i + 1, j);
      }
    } else {
      var t := Lookup(a, n, FingerStart(n, i, IdSpace)).value;
      var b := WithSlot(Contact(a, n, n, now), n, i, t);
      if i == j {
        FixDeadBelow(b, n, dead, now, i + 1, j);
      } else {
        FixDeadSlot(b, n, dead, now, i + 1, j);
      }
    }
  }

  lemma MinusTwo<V>(m: map<int, V>, n: int, dead: int)
    ensures m - {n, dead} == (m - {n}) - {dead}
  {
  }

  /** A completed handle_failure(dead) on n has deleted n's records of dead and left its
      records of every other peer but n as they were. It can only complete when n had a
      failure counter for dead, and, when dead is not n itself, a last-contact time for dead:
      otherwise a `del` raises KeyError. */
  lemma HandleBookkeeping(a: Arena, n: int, dead: int, now: int)
    requires Closed(a) && n in a && dead in a && HandleStep(a, n, dead, now).Done?
    ensures var r := HandleStep(a, n, dead, now).state;
      && dead !in r[n].lastSeen && dead !in r[n].failureCounter
      && r[n].lastSeen - {n, dead} == a[n].lastSeen - {n, dead}
      && r[n].failureCounter - {n, dead} == a[n].failureCounter - {n, dead}
    ensures dead in a[n].failureCounter
    ensures dead != n ==> dead in a[n].lastSeen
  {
    var b := Evict(a, n, dead, now);
    EvictKeeps(a, n, dead, now);
    var c := FixDead(b, n, dead, now, 0).state;
    FixDeadKeeps(b, n, dead, now, 0);
    RecoverKeeps(c, n, dead, now);
    var e := Cleared(a, n, dead, now).state;
    KeptAll(a, b, c, e, n, dead);
  }

  lemma KeptAll(a: Arena, b: Arena, c: Arena, e: Arena, n: int, dead: int)
    requires n in a && n in b && n in c && n in e
    requires RecordsKept(a, b, n) && RecordsKept(b, c, n) && RecordsKept(c, e, n)
    requires dead in e[n].lastSeen && dead in e[n].failureCounter
    ensures dead in a[n].failureCounter
    ensures dead != n ==> dead in a[n].lastSeen
    ensures var st := e[n].(lastSeen := e[n].lastSeen - {dead}, failureCounter := e[n].failureCounter - {dead});
      && st.lastSeen - {n, dead} == a[n].lastSeen - {n, dead}
      && st.failureCounter - {n, dead} == a[n].failureCounter - {n, dead}
  {
    assert e[n].lastSeen - {n} == a[n].lastSeen - {n};
    assert e[n].failureCounter - {n} == a[n].failureCounter - {n};
    if dead != n {
      assert dead in e[n].lastSeen - {n};
      assert dead in e[n].failureCounter - {n};
    }
    MinusTwo(e[n].lastSeen - {dead}, n, dead);
    MinusTwo(a[n].lastSeen, n, dead);
    MinusTwo(e[n].failureCounter - {dead}, n, dead);
    MinusTwo(a[n].failureCounter, n, dead);
  }

  /** What a completed handle_failure(dead) leaves in n's links: the first occurrence of dead
      is gone from the successor list, and every finger slot that held dead names the first
      entry of that shortened list; the other slots are as they were. */
  lemma HandleLinks(a: Arena, n: int, dead: int, now: int)
    requires Closed(a) && n in a && dead in a && HandleStep(a, n, dead, now).Done?
    ensures var r := HandleStep(a, n, dead, now).state;
      var ss := if dead in a[n].successors then RemoveFirst(a[n].successors, dead) else a[n].successors;
      && r[n].successors == ss
      && forall j | 0 <= j < HashSize ::
           && (a[n].finger[j] != dead ==> r[n].finger[j] == a[n].finger[j])
           && (a[n].finger[j] == dead ==> |ss| > 0 && r[n].finger[j] == ss[0])
  {
    var b := Evict(a, n, dead, now);
    var c := FixDead(b, n, dead, now, 0).state;
    var e := Cleared(a, n, dead, now).state;
    assert b[n].finger == a[n].finger;
    forall j | 0 <= j < HashSize
      ensures c[n].successors == b[n].successors
      ensures b[n].finger[j] != dead ==> c[n].finger[j] == b[n].finger[j]
      ensures b[n].finger[j] == dead ==> |b[n].successors| > 0 && c[n].finger[j] == b[n].successors[0]
    {
      FixDeadSlot(b, n, dead, now, 0, j);
    }
    assert e[n].successors == c[n].successors && e[n].finger == c[n].finger;
  }

  /** Every node but n has in b what it has in a, save perhaps its store. */
  predicate OthersKept(a: Arena, b: Arena, n: int) {
    && a.Keys == b.Keys
    && forall x | x in a && x != n :: b[x] == a[x].(data := b[x].data)
  }

  lemma {:induction false} FixDeadOthers(a: Arena, n: int, dead: int, now: int, i: nat)
    requires Closed(a) && n in a && i <= HashSize
    ensures OthersKept(a, FixDead(a, n, dead, now, i).state, n)
    decreases HashSize - i
  {
    if i < HashSize {
      if a[n].finger[i] != dead {
        FixDeadOthers(a, n, dead, now, i + 1);
      } else if Lookup(a, n, FingerStart(n, i, IdSpace)).Ok? {
        var t := Lookup(a, n, FingerStart(n, i, IdSpace)).value;
        var b := WithSlot(Contact(a, n, n, now), n, i, t);
        FixDeadOthers(b, n, dead, now, i + 1);
      }
    }
  }

  lemma PartialOthers(a: Arena, n: int, p: int, dead: int, now: int, done: set<int>)
    requires Closed(a) && n in a
    ensures OthersKept(a, Partial(a, n, p, dead, now, done), n)
    ensures OthersKept(a, Contact(Partial(a, n, p, dead, now, done), n, n, now), n)
  {
  }

  lemma RecoverOthers(a: Arena, n: int, dead: int, now: int)
    requires Closed(a) && n in a && dead in a
    ensures OthersKept(a, Recover(a, n, dead, now).state, n)
  {
    if a[n].data != map[] && a[dead].predecessor.Some? {
      var p := a[dead].predecessor.value;
      PartialOthers(a, n, p, dead, now, a[n].data.Keys);
      if Unplaceable(a, n, p, dead) != {} {
        PartialOthers(a, n, p, dead, now, KeysBelow(a, n, Least(Unplaceable(a, n, p, dead))));
      }
    }
  }

  /** handle_failure(dead) on n, whether it completes or raises, changes no other node's links
      or records: its record_contact calls are all n's own, and recover_data writes only
      stores. */
  lemma HandleKeepsOthers(a: Arena, n: int, dead: int, now: int)
    requires Closed(a) && n in a && dead in a
    ensures OthersKept(a, HandleStep(a, n, dead, now).state, n)
  {
    var b := Evict(a, n, dead, now);
    assert OthersKept(a, b, n);
    FixDeadOthers(b, n, dead, now, 0);
    var c := FixDead(b, n, dead, now, 0);
    OthersTrans(a, b, c.state, n);
    if c.Done? {
      var e := Recover(c.state, n, dead, now);
      RecoverOthers(c.state, n, dead, now);
      OthersTrans(a, c.state, e.state, n);
      if e.Done? && dead in e.state[n].lastSeen {
        if dead in e.state[n].failureCounter {
          OthersTrans(a, e.state, Untracked(e.state, n, dead), n);
        } else {
          OthersTrans(a, e.state, Unseen(e.state, n, dead), n);
        }
      }
    }
  }

  lemma OthersTrans(a: Arena, b: Arena, c: Arena, n: int)
    requires OthersKept(a, b, n) && OthersKept(b, c, n)
    ensures OthersKept(a, c, n)
  {
  }

  /** stabilize on n at time now. successors[0] of an empty list raises IndexError, and the
      except handler's handle_failure(successor) then raises on the unbound name. Otherwise
      x may be adopted, the old first successor s is notified and records contact with n, and
      replicate_data(s), which this variant does not define, raises NodeFailure; the except
      handler runs handle_failure(s), whose outcome is stabilize's. */
  function StabilizeStep(a: Arena, n: int, now: int): (r: Run)
    requires Closed(a) && n in a
    ensures Closed(r.state) && SameLiveness(a, r.state)
  {
    if |a[n].successors| == 0 then Raised(UndefinedName, a)
    else
      var s := a[n].successors[0];
      var b := Contact(NotifyStep(Adopt(a, n), s, n, now), s, n, now);
      HandleStep(b, n, s, now)
  }

  /** When s accepts n as its predecessor, its notify makes n record contact with s, which
      clears n's counter for s; the handle_failure(s) that stabilize always ends in then
      raises KeyError at `del failure_counter[s]`, if nothing before it raised. */
  lemma StabilizeRaisesAfterAdoption(a: Arena, n: int, now: int)
    requires Closed(a) && n in a && |a[n].successors| > 0
    requires var s := a[n].successors[0]; var p := Adopt(a, n)[s].predecessor;
      p.None? || Between(n, p.value, s)
    ensures StabilizeStep(a, n, now).Raised?
  {
    var s := a[n].successors[0];
    var a1 := Adopt(a, n);
    var a2 := NotifyStep(a1, s, n, now);
    var b := Contact(a2, s, n, now);
    var p := a1[s].predecessor;
    var c := Adopted(a1, s, n, now);
    assert s !in c[n].failureCounter;
    assert a2[n].failureCounter == c[n].failureCounter;
    assert s !in b[n].failureCounter;
    if HandleStep(b, n, s, now).Done? {
      HandleBookkeeping(b, n, s, now);
    }
  }

  /** Once the eviction, finger repair and recover_data in the handle_failure(s) that ends
      stabilize on n have completed, n no longer has a last-contact time for its old first
      successor s, whether the `del` lines raise or not: a later check_failures of n does not
      count misses for s. */
  lemma StabilizeForgetsSuccessor(a: Arena, n: int, now: int)
    requires Closed(a) && n in a && |a[n].successors| > 0
    requires var s := a[n].successors[0];
      Cleared(Contact(NotifyStep(Adopt(a, n), s, n, now), s, n, now), n, s, now).Done?
    ensures a[n].successors[0] !in StabilizeStep(a, n, now).state[n].lastSeen
  {
    var s := a[n].successors[0];
    HandleRecords(Contact(NotifyStep(Adopt(a, n), s, n, now), s, n, now), n, s, now);
  }

  /** What stabilize on n leaves at its first successor s, whether it raises or not: s has
      been notified by n, so it has n as predecessor exactly when it had none or n lies
      strictly between that one and s, n is merged into its list, and it has recorded contact
      with n. Every node but n and s has kept its links and records. */
  lemma StabilizeNotifies(a: Arena, n: int, now: int)
    requires Closed(a) && n in a && |a[n].successors| > 0 && a[n].successors[0] != n
    ensures var s := a[n].successors[0]; var p := a[s].predecessor; var r := StabilizeStep(a, n, now).state;
      && r[s].predecessor == (if p.None? || Between(n, p.value, s) then Some(n) else p)
      && r[s].successors == Merged(a[s].successors, n, s)
      && r[s].finger == a[s].finger && r[s].alive == a[s].alive
      && n in r[s].lastSeen && r[s].lastSeen[n] == now && n !in r[s].failureCounter
      && forall x | x in a && x != n && x != s :: r[x] == a[x].(data := r[x].data)
  {
    var s := a[n].successors[0];
    var a1 := Adopt(a, n);
    var a2 := NotifyStep(a1, s, n, now);
    var b := Contact(a2, s, n, now);
    assert a1[s] == a[s];
    assert OthersKept(a, a1, n);
    NotifyGuard(a1, s, n, now);
    ContactRecords(a2, s, n, now);
    HandleKeepsOthers(b, n, s, now);
  }

  /** stabilize as written. The class defines no is_alive, so when s = successors[0] has a
      predecessor x the test `x and x.is_alive()` reaches __getattr__, whose handler raises
      NodeFailure before anything is adopted, notified or recorded; the except handler then
      runs handle_failure(s) on the arena as it was. With no predecessor the test stops at
      `x` and the run is the one StabilizeStep describes. */
  function StabilizeAsWritten(a: Arena, n: int, now: int): (r: Run)
    requires Closed(a) && n in a
    ensures Closed(r.state) && SameLiveness(a, r.state)
  {
    if |a[n].successors| == 0 then Raised(UndefinedName, a)
    else
      var s := a[n].successors[0];
      if a[s].predecessor.Some? then HandleStep(a, n, s, now) else StabilizeStep(a, n, now)
  }

  /** Where the two readings part: when s's predecessor x is alive and strictly between n
      and s, StabilizeStep runs handle_failure(s) with x adopted at the head of n's list,
      while stabilize as written runs it on the arena it started from, whose head is still
      s. */
  lemma StabilizeAsWrittenSkipsAdoption(a: Arena, n: int, now: int)
    requires Closed(a) && n in a && |a[n].successors| > 0
    requires var s := a[n].successors[0]; var x := a[s].predecessor;
      s != n && x.Some? && a[x.value].alive && Between(x.value, n, s)
    ensures var s := a[n].successors[0]; var x := a[s].predecessor.value;
      && StabilizeAsWritten(a, n, now) == HandleStep(a, n, s, now)
      && var b := Contact(NotifyStep(Adopt(a, n), s, n, now), s, n, now);
         && StabilizeStep(a, n, now) == HandleStep(b, n, s, now)
         && b[n].successors[0] == x && x != s
  {
    var s := a[n].successors[0];
    var a1 := Adopt(a, n);
    AdoptFront(a, n);
    NotifyGuard(a1, s, n, now);
  }

  // ---------------------------------------------------------------------------------------
  // The failure detector (check_failures)
  // ---------------------------------------------------------------------------------------

  /** check_failures on n counts a miss for peer x: x is not n and its last contact lies more
      than FAILURE_TIMEOUT before now. */
  predicate Silent(st: NodeState, n: int, x: int, now: int) {
    x in st.lastSeen && x != n && now - st.lastSeen[x] > FailureTimeout
  }

  /** The silent peers among those of done. */
  function SilentAmong(st: NodeState, n: int, now: int, done: set<int>): set<int> {
    set x | x in done && Silent(st, n, x, now)
  }

  /** `failure_counter.get(x, 0)`. */
  function Misses(c: map<int, int>, x: int): int {
    if x in c then c[x] else 0
  }

  /** The counters c once every peer of silent has had its miss counted. */
  function Bumped(c: map<int, int>, silent: set<int>): map<int, int> {
    map x | x in c.Keys + silent :: if x in silent then Misses(c, x) + 1 else c[x]
  }

  /** The peers of silent whose counter reaches FailureThreshold once bumped. */
  function Declared(c: map<int, int>, silent: set<int>): set<int> {
    set x | x in silent && Misses(c, x) + 1 >= FailureThreshold
  }

  /** check_failures counts a miss only for peers other than n that have been silent longer
      than FAILURE_TIMEOUT, raises each of those counters by one and no other, and declares
      dead exactly the peers whose counter then reaches three. */
  lemma BumpedSpec(st: NodeState, n: int, now: int)
    ensures var silent := SilentAmong(st, n, now, st.lastSeen.Keys);
      var r := Bumped(st.failureCounter, silent);
      && n !in silent
      && (forall x | x in silent :: x in r && r[x] == Misses(st.failureCounter, x) + 1)
      && (forall x | x !in silent :: (x in r <==> x in st.failureCounter))
      && (forall x | x !in silent && x in st.failureCounter :: r[x] == st.failureCounter[x])
      && (forall x :: x in Declared(st.failureCounter, silent) <==>
            Silent(st, n, x, now) && r[x] >= FailureThreshold)
  {
  }

  /** The count of check_failures' first loop over n's records st, taken in an order the
      model leaves open, the order of the source's dict: the counters once bumped, and the
      peers declared dead. */
  method Tally(st: NodeState, n: int, now: int) returns (counter: map<int, int>, dead: set<int>)
    ensures var silent := SilentAmong(st, n, now, st.lastSeen.Keys);
      counter == Bumped(st.failureCounter, silent) && dead == Declared(st.failureCounter, silent)
  {
    var todo := st.lastSeen.Keys;
    ghost var silent: set<int> := {};
    var c := st.failureCounter;
    counter := c;
    dead := {};
    while todo != {}
      invariant todo <= st.lastSeen.Keys
      invariant forall y | y in st.lastSeen && y !in todo :: y in silent <==> Silent(st, n, y, now)
      invariant forall y | y in silent :: y in st.lastSeen && y !in todo
      invariant forall y :: y in counter <==> y in c || y in silent
      invariant forall y | y in counter :: counter[y] == if y in silent then Misses(c, y) + 1 else c[y]
      invariant forall y :: y in dead <==> y in silent && Misses(c, y) + 1 >= FailureThreshold
      decreases |todo|
    {
      var x := Pick(todo);
      if x != n && now - st.lastSeen[x] > FailureTimeout {
        counter := counter[x := Misses(counter, x) + 1];
        if counter[x] >= FailureThreshold {
          dead := dead + {x};
        }
        silent := silent + {x};
      }
      todo := todo - {x};
    }
    TallyDone(st, n, now, silent, counter, dead);
  }

  /** The count's loop state, stated point by point, is the count. */
  lemma TallyDone(st: NodeState, n: int, now: int, silent: set<int>, counter: map<int, int>, dead: set<int>)
    requires forall y | y in st.lastSeen :: y in silent <==> Silent(st, n, y, now)
    requires forall y | y in silent :: y in st.lastSeen
    requires forall y :: y in counter <==> y in st.failureCounter || y in silent
    requires forall y | y in counter ::
      counter[y] == if y in silent then Misses(st.failureCounter, y) + 1 else st.failureCounter[y]
    requires forall y :: y in dead <==> y in silent && Misses(st.failureCounter, y) + 1 >= FailureThreshold
    ensures silent == SilentAmong(st, n, now, st.lastSeen.Keys)
    ensures counter == Bumped(st.failureCounter, silent) && dead == Declared(st.failureCounter, silent)
  {
    var sa := SilentAmong(st, n, now, st.lastSeen.Keys);
    assert forall y :: y in silent <==> y in sa;
    var d := Declared(st.failureCounter, silent);
    assert forall y :: y in dead <==> y in d;
    var b := Bumped(st.failureCounter, silent);
    assert forall y :: y in b <==> y in counter;
    forall y | y in b
      ensures b[y] == counter[y]
    {
    }
  }

  /** Deleting a declared peer d from records that already lack the handled peers. */
  lemma MinusStep<V>(m: map<int, V>, m': map<int, V>, base: map<int, V>, n: int, d: int, handled: set<int>)
    requires m - {n} == base - {n} - handled
    requires m' - {n, d} == m - {n, d} && d !in m'
    ensures m' - {n} == base - {n} - (handled + {d})
  {
    assert m' - {n} == m' - {n, d};
    assert m - {n, d} == (m - {n}) - {d};
  }

  /** The comprehension `[n for n in successors if n.is_alive()]` with is_alive answering
      each node's liveness, as the other variants define it. */
  function AliveOnly(a: Arena, s: seq<int>): (r: seq<int>)
    requires AllIn(a, s)
    ensures |r| <= |s| && AllIn(a, r)
  {
    if s == [] then []
    else (if a[s[0]].alive then [s[0]] else []) + AliveOnly(a, s[1..])
  }

  /** The filter keeps exactly the alive entries, in their order. */
  lemma {:induction false} AliveOnlySpec(a: Arena, s: seq<int>)
    requires AllIn(a, s)
    ensures forall j | 0 <= j < |AliveOnly(a, s)| :: a[AliveOnly(a, s)[j]].alive
    ensures forall x :: x in AliveOnly(a, s) <==> x in s && a[x].alive
  {
    if s != [] {
      AliveOnlySpec(a, s[1..]);
      var t := AliveOnly(a, s[1..]);
      var r := AliveOnly(a, s);
      assert r == (if a[s[0]].alive then [s[0]] else []) + t;
      assert forall x :: x in s <==> x == s[0] || x in s[1..];
    }
  }

  /** The comprehension of check_failures as written. The class defines no is_alive, so the
      lookup reaches __getattr__, whose handler raises NodeFailure on the first entry. */
  function AliveOnlyAsWritten(a: Arena, s: seq<int>): (r: Outcome<seq<int>>)
    requires AllIn(a, s)
    ensures r.Ok? ==> r.value == [] && s == []
  {
    if s == [] then Ok([]) else Fail(NodeFailure)
  }

  /** As written, check_failures raises at its last line whenever n has a successor, alive
      or not, where the filter was evidently meant to keep the alive ones. */
  lemma AliveOnlyAsWrittenRaises(a: Arena, s: seq<int>)
    requires AllIn(a, s) && |s| > 0
    ensures AliveOnlyAsWritten(a, s) == Fail(NodeFailure)
    ensures AliveOnlyAsWritten(a, s) != Ok(AliveOnly(a, s))
  {
  }

  // ---------------------------------------------------------------------------------------
  // store
  // ---------------------------------------------------------------------------------------

  /** store's first loop from c: c, then k times the first successor of the last entry, so
      k+1 nodes, dead ones included; an empty successor list raises IndexError. */
  function Walk(a: Arena, c: int, k: nat): (r: Outcome<seq<int>>)
    requires Closed(a) && c in a
    ensures r.Ok? ==> |r.value| == k + 1 && AllIn(a, r.value) && r.value[0] == c
    decreases k
  {
    if k == 0 then Ok([c])
    else if |a[c].successors| == 0 then Fail(NoSuccessor)
    else
      match Walk(a, a[c].successors[0], k - 1)
      case Fail(f) => Fail(f)
      case Ok(rest) => Ok([c] + rest)
  }

  /** One round of store's first loop: the last entry c moves into the prefix. */
  lemma WalkStep(a: Arena, p: seq<int>, c: int, k: nat)
    requires Closed(a) && c in a && k > 0 && |a[c].successors| > 0
    ensures Prefixed(p, Walk(a, c, k)) == Prefixed(p + [c], Walk(a, a[c].successors[0], k - 1))
  {
    var rest := Walk(a, a[c].successors[0], k - 1);
    if rest.Ok? {
      assert p + ([c] + rest.value) == (p + [c]) + rest.value;
    }
  }

  /** Each entry of a store chain after the first is the first successor of the entry
      before it. */
  lemma {:induction false} WalkLinks(a: Arena, c: int, k: nat)
    requires Closed(a) && c in a && Walk(a, c, k).Ok?
    ensures var r := Walk(a, c, k).value;
      forall j | 0 <= j < k :: |a[r[j]].successors| > 0 && r[j + 1] == a[r[j]].successors[0]
    decreases k
  {
    if k > 0 {
      var rest := Walk(a, a[c].successors[0], k - 1).value;
      WalkLinks(a, a[c].successors[0], k - 1);
      assert Walk(a, c, k).value == [c] + rest;
    }
  }

  /** node.data[key] = value. */
  function Written(a: Arena, c: int, key: int, v: Value): (r: Arena)
    requires Closed(a) && c in a
    ensures Closed(r) && SameLinks(a, r)
  {
    UpdateClosed(a, c, a[c].(data := a[c].data[key := v]));
    a[c := a[c].(data := a[c].data[key := v])]
  }

  /** store's second loop on n over chain: an alive node gets data[key] = v and records
      contact with n; for a dead one n runs handle_failure, and an exception there ends the
      loop and the call. */
  function Deliver(a: Arena, n: int, chain: seq<int>, key: int, v: Value, now: int): (r: Run)
    requires Closed(a) && n in a && AllIn(a, chain)
    ensures Closed(r.state) && SameLiveness(a, r.state)
    decreases |chain|
  {
    if chain == [] then Done(a)
    else
      var c := chain[0];
      if a[c].alive then Deliver(Contact(Written(a, c, key, v), c, n, now), n, chain[1..], key, v, now)
      else
        match HandleStep(a, n, c, now)
        case Raised(f, b) => Raised(f, b)
        case Done(b) => Deliver(b, n, chain[1..], key, v, now)
  }

  /** store(key, v) on n at time now: find_successor(key), whose record_contact stays even
      when it raises, the walk of TOLERANCE more hops from its answer, then the deliveries. */
  function StoreStep(a: Arena, n: int, key: int, v: Value, now: int): (r: Run)
    requires Closed(a) && n in a
    ensures Closed(r.state) && SameLiveness(a, r.state)
  {
    var b := Contact(a, n, n, now);
    match Lookup(a, n, key)
    case Fail(f) => Raised(f, b)
    case Ok(first) =>
      match Walk(b, first, Tolerance)
      case Fail(f) => Raised(f, b)
      case Ok(chain) => Deliver(b, n, chain, key, v, now)
  }

  /** store as written. The class defines no is_alive, so `node.is_alive()` on the first node
      of the chain reaches __getattr__, whose handler raises NodeFailure before any write;
      only the lookup and the walk can raise sooner. */
  function StoreAsWritten(a: Arena, n: int, key: int, v: Value, now: int): (r: Run)
    requires Closed(a) && n in a
    ensures r.Raised? && Closed(r.state) && SameLinks(a, r.state)
  {
    var b := Contact(a, n, n, now);
    match Lookup(a, n, key)
    case Fail(f) => Raised(f, b)
    case Ok(first) =>
      match Walk(b, first, Tolerance)
      case Fail(f) => Raised(f, b)
      case Ok(chain) => Raised(NodeFailure, b)
  }

  /** As written, store raises NodeFailure once the lookup and the walk are through, and on
      every path it leaves every store as it was: the only write before the raise is
      find_successor's record_contact. */
  lemma StoreAsWrittenRaises(a: Arena, n: int, key: int, v: Value, now: int)
    requires Closed(a) && n in a
    requires Lookup(a, n, key).Ok?
    requires Walk(Contact(a, n, n, now), Lookup(a, n, key).value, Tolerance).Ok?
    ensures StoreAsWritten(a, n, key, v, now).fault == NodeFailure
    ensures forall x | x in a :: StoreAsWritten(a, n, key, v, now).state[x].data == a[x].data
  {
    ContactRecords(a, n, n, now);
  }

  /** With the same lookup and walk, StoreStep on a chain of live nodes completes and
      leaves v under key on every node of the chain. */
  lemma StoreCompletes(a: Arena, n: int, key: int, v: Value, now: int)
    requires Closed(a) && n in a
    requires Lookup(a, n, key).Ok?
    requires var chain := Walk(Contact(a, n, n, now), Lookup(a, n, key).value, Tolerance);
      chain.Ok? && forall j | 0 <= j < |chain.value| :: a[chain.value[j]].alive
    ensures var chain := Walk(Contact(a, n, n, now), Lookup(a, n, key).value, Tolerance).value;
      && StoreStep(a, n, key, v, now).Done?
      && forall j | 0 <= j < |chain| ::
           key in StoreStep(a, n, key, v, now).state[chain[j]].data
           && StoreStep(a, n, key, v, now).state[chain[j]].data[key] == v
  {
    var b := Contact(a, n, n, now);
    var chain := Walk(b, Lookup(a, n, key).value, Tolerance).value;
    assert StoreStep(a, n, key, v, now) == Deliver(b, n, chain, key, v, now);
    assert forall j | 0 <= j < |chain| :: b[chain[j]].alive by {
      forall j | 0 <= j < |chain| ensures b[chain[j]].alive {
        assert chain[j] in a;
      }
    }
    DeliverAllAlive(b, n, chain, key, v, now);
  }

  /** When every node of the chain is alive, the deliveries complete and each node of the
      chain holds v under key. */
  lemma {:induction false} DeliverAllAlive(a: Arena, n: int, chain: seq<int>, key: int, v: Value, now: int)
    requires Closed(a) && n in a && AllIn(a, chain)
    requires forall j | 0 <= j < |chain| :: a[chain[j]].alive
    ensures Deliver(a, n, chain, key, v, now).Done?
    ensures var r := Deliver(a, n, chain, key, v, now).state;
      forall j | 0 <= j < |chain| :: key in r[chain[j]].data && r[chain[j]].data[key] == v
    decreases |chain|
  {
    if chain != [] {
      var c := chain[0];
      var w := Written(a, c, key, v);
      var b := Contact(w, c, n, now);
      TailAlive(a, b, chain);
      DeliverAllAlive(b, n, chain[1..], key, v, now);
      DeliverKeepsKey(b, n, chain[1..], key, v, now, c);
      var r := Deliver(b, n, chain[1..], key, v, now).state;
      assert Deliver(a, n, chain, key, v, now).state == r;
      HeadAndTail(r, chain, key, v);
    }
  }

  lemma TailAlive(a: Arena, b: Arena, chain: seq<int>)
    requires chain != [] && AllIn(a, chain) && a.Keys == b.Keys
    requires forall id | id in a :: a[id].alive == b[id].alive
    requires forall j | 0 <= j < |chain| :: a[chain[j]].alive
    ensures AllIn(b, chain[1..]) && forall j | 0 <= j < |chain[1..]| :: b[chain[1..][j]].alive
  {
    forall j | 0 <= j < |chain[1..]| ensures chain[1..][j] in b && b[chain[1..][j]].alive {
      var x := chain[j + 1];
      assert chain[1..][j] == x;
      assert x in a && a[x].alive;
    }
  }

  lemma HeadAndTail(r: Arena, chain: seq<int>, key: int, v: Value)
    requires chain != [] && chain[0] in r && key in r[chain[0]].data && r[chain[0]].data[key] == v
    requires forall j | 0 <= j < |chain[1..]| :: chain[1..][j] in r && key in r[chain[1..][j]].data && r[chain[1..][j]].data[key] == v
    ensures forall j | 0 <= j < |chain| :: chain[j] in r && key in r[chain[j]].data && r[chain[j]].data[key] == v
  {
    forall j | 0 <= j < |chain| ensures chain[j] in r && key in r[chain[j]].data && r[chain[j]].data[key] == v {
      if j > 0 {
        assert chain[j] == chain[1..][j - 1];
      }
    }
  }

  /** With every node of the chain alive, deliveries only write v under key, so a node that
      already holds v under key still does afterwards. */
  lemma {:induction false} DeliverKeepsKey(a: Arena, n: int, chain: seq<int>, key: int, v: Value, now: int, c: int)
    requires Closed(a) && n in a && AllIn(a, chain) && c in a
    requires forall j | 0 <= j < |chain| :: a[chain[j]].alive
    requires key in a[c].data && a[c].data[key] == v
    ensures Deliver(a, n, chain, key, v, now).Done? ==>
      var r := Deliver(a, n, chain, key, v, now).state;
      key in r[c].data && r[c].data[key] == v
    decreases |chain|
  {
    if chain != [] {
      var x := chain[0];
      var b := Contact(Written(a, x, key, v), x, n, now);
      assert forall j | 0 <= j < |chain[1..]| :: b[chain[1..][j]].alive by {
        forall j | 0 <= j < |chain[1..]| ensures b[chain[1..][j]].alive {
          assert chain[1..][j] == chain[j + 1];
        }
      }
      DeliverKeepsKey(b, n, chain[1..], key, v, now, c);
    }
  }

  // ---------------------------------------------------------------------------------------
  // The nodes and their operations
  // ---------------------------------------------------------------------------------------

  /** All nodes of the ring, each updated in place by the operations below. */
  class Network {
    var nodes: Arena

    predicate Valid()
      reads this
    {
      Closed(nodes)
    }

    constructor ()
      ensures Valid() && nodes == map[]
    {
      nodes := map[];
    }

    /** Node(id): alive, no predecessor and no successors, an empty store and empty records,
        and a finger table `[self] * m` of HASH_SIZE slots. */
    method AddNode(id: int)
      requires Valid() && 0 <= id < IdSpace && id !in nodes
      modifies this
      ensures Valid()
      ensures nodes == old(nodes)[id := NodeState(true, None, [], seq(HashSize, j => id), map[], map[], map[])]
    {
      nodes := nodes[id := NodeState(true, None, [], seq(HashSize, j => id), map[], map[], map[])];
    }

    /** record_contact(peer) on x at time now. */
    method RecordContact(x: int, peer: int, now: int)
      requires Valid() && x in nodes && peer in nodes
      modifies this
      ensures Valid() && nodes == Contact(old(nodes), x, peer, now)
    {
      nodes := nodes[x := nodes[x].(lastSeen := nodes[x].lastSeen[peer := now],
                                    failureCounter := nodes[x].failureCounter - {peer})];
    }

    /** find_successor(key) on n: the first round of its loop, with current = n, which either
        returns or raises; visited and attempts never matter. */
    method FindSuccessor(n: int, key: int, now: int) returns (r: Outcome<int>)
      requires Valid() && n in nodes
      modifies this
      ensures Valid() && nodes == Contact(old(nodes), n, n, now)
      ensures r == Lookup(old(nodes), n, key)
    {
      RecordContact(n, n, now);
      var ss := nodes[n].successors;
      if |ss| == 0 {
        return Fail(NoSuccessor);
      }
      if BetweenRightIncl(key, n, ss[0]) {
        return Ok(ss[0]);
      }
      return Fail(NodeFailure);
    }

    /** notify(c) received by m at time now. */
    method Notify(m: int, c: int, now: int)
      requires Valid() && m in nodes && c in nodes
      modifies this
      ensures Valid() && nodes == NotifyStep(old(nodes), m, c, now)
    {
      var p := nodes[m].predecessor;
      if p.None? || Between(c, p.value, m) {
        Accept(m, c, now);
      }
      MergeSuccessor(m, c);
    }

    /** notify's first block: c becomes m's predecessor and records contact with m. */
    method Accept(m: int, c: int, now: int)
      requires Valid() && m in nodes && c in nodes
      modifies this
      ensures Valid() && nodes == Adopted(old(nodes), m, c, now)
    {
      nodes := nodes[m := nodes[m].(predecessor := Some(c))];
      RecordContact(c, m, now);
    }

    /** notify's second block: c merged into m's successor list. */
    method MergeSuccessor(m: int, c: int)
      requires Valid() && m in nodes && c in nodes
      modifies this
      ensures Valid() && nodes == Merge(old(nodes), m, c)
    {
      var ss := nodes[m].successors;
      MergedSpec(ss, c, m);
      assert forall j | 0 <= j < |ss| :: ss[j] in ss;
      if c !in ss {
        var t := Take(SortByDist(ss + [c], m), Tolerance + 1);
        assert forall j | 0 <= j < |t| :: t[j] in t;
        nodes := nodes[m := nodes[m].(successors := t)];
      } else {
        assert nodes[m := nodes[m].(successors := ss)] == nodes;
      }
    }

    /** stabilize on n at time now; is_alive is read as the node's liveness. */
    method Stabilize(n: int, now: int) returns (ok: bool)
      requires Valid() && n in nodes
      modifies this
      ensures Valid() && SameLiveness(old(nodes), nodes)
      ensures ok == StabilizeStep(old(nodes), n, now).Done?
      ensures nodes == StabilizeStep(old(nodes), n, now).state
    {
      if |nodes[n].successors| == 0 {
        return false;
      }
      ghost var a := nodes;
      var successor := nodes[n].successors[0];
      var x := nodes[successor].predecessor;
      if x.Some? && nodes[x.value].alive && Between(x.value, n, successor) {
        var t := Take([x.value] + nodes[n].successors, Tolerance + 1);
        assert forall j | 0 <= j < |t| :: t[j] in nodes;
        nodes := nodes[n := nodes[n].(successors := t)];
      }
      assert nodes == Adopt(a, n);
      Notify(successor, n, now);
      RecordContact(successor, n, now);
      ok := HandleFailure(n, successor, now);
    }

    /** update_successors on n at time now. */
    method UpdateSuccessors(n: int, now: int)
      requires Valid() && n in nodes
      modifies this
      ensures Valid() && nodes == Refreshed(old(nodes), n, now)
    {
      if |nodes[n].successors| < Tolerance + 1 {
        var found := FindSuccessor(n, n, now);
      }
    }

    /** handle_failure's first block on n. */
    method EvictDead(n: int, dead: int, now: int)
      requires Valid() && n in nodes
      modifies this
      ensures Valid() && nodes == Evict(old(nodes), n, dead, now)
    {
      if dead in nodes[n].successors {
        var ss := RemoveFirst(nodes[n].successors, dead);
        assert forall j | 0 <= j < |ss| :: ss[j] in ss;
        nodes := nodes[n := nodes[n].(successors := ss)];
        UpdateSuccessors(n, now);
      }
    }

    /** handle_failure's finger loop on n. */
    method FixDeadFingers(n: int, dead: int, now: int) returns (ok: bool)
      requires Valid() && n in nodes
      modifies this
      ensures Valid() && SameLiveness(old(nodes), nodes)
      ensures ok == FixDead(old(nodes), n, dead, now, 0).Done?
      ensures nodes == FixDead(old(nodes), n, dead, now, 0).state
    {
      ghost var a := nodes;
      for i := 0 to HashSize
        invariant Valid() && n in nodes && SameLiveness(a, nodes)
        invariant FixDead(nodes, n, dead, now, i) == FixDead(a, n, dead, now, 0)
      {
        if nodes[n].finger[i] == dead {
          ghost var b := nodes;
          var t := FindSuccessor(n, FingerStart(n, i, IdSpace), now);
          if t.Fail? {
            return false;
          }
          nodes := nodes[n := nodes[n].(finger := nodes[n].finger[i := t.value])];
          assert nodes == WithSlot(Contact(b, n, n, now), n, i, t.value);
        }
      }
      return true;
    }

    /** handle_failure(dead) on n at time now. */
    method HandleFailure(n: int, dead: int, now: int) returns (ok: bool)
      requires Valid() && n in nodes && dead in nodes
      modifies this
      ensures Valid() && SameLiveness(old(nodes), nodes)
      ensures ok == HandleStep(old(nodes), n, dead, now).Done?
      ensures nodes == HandleStep(old(nodes), n, dead, now).state
    {
      ok := Clear(n, dead, now);
      if !ok {
        return;
      }
      if dead !in nodes[n].lastSeen {
        return false;
      }
      var st := nodes[n].(lastSeen := nodes[n].lastSeen - {dead});
      UpdateClosed(nodes, n, st);
      nodes := nodes[n := st];
      if dead !in nodes[n].failureCounter {
        return false;
      }
      st := nodes[n].(failureCounter := nodes[n].failureCounter - {dead});
      UpdateClosed(nodes, n, st);
      nodes := nodes[n := st];
    }

    /** handle_failure(dead) on n up to its `del` lines. */
    method Clear(n: int, dead: int, now: int) returns (ok: bool)
      requires Valid() && n in nodes && dead in nodes
      modifies this
      ensures Valid() && SameLiveness(old(nodes), nodes)
      ensures ok == Cleared(old(nodes), n, dead, now).Done?
      ensures nodes == Cleared(old(nodes), n, dead, now).state
    {
      EvictDead(n, dead, now);
      ok := FixDeadFingers(n, dead, now);
      if !ok {
        return;
      }
      ok := RecoverData(n, dead, now);
    }

    /** recover_data(dead) on n at time now. The keys of n's store are taken in an order the
        model leaves open, the order of the source's dict. Every round reads dead's
        predecessor, so one that is None raises as soon as there is a key. */
    method RecoverData(n: int, dead: int, now: int) returns (ok: bool)
      requires Valid() && n in nodes && dead in nodes
      modifies this
      ensures Valid() && SameLinks(old(nodes), nodes)
      ensures ok == Recover(old(nodes), n, dead, now).Done?
      ensures nodes == Recover(old(nodes), n, dead, now).state
    {
      var todo := nodes[n].data.Keys;
      if todo != {} && nodes[dead].predecessor.None? {
        return false;
      }
      if todo == {} {
        return true;
      }
      ok := CopyArc(n, nodes[dead].predecessor.value, dead, now);
    }

    /** recover_data's loop on n over all keys of its store, dead's predecessor being p. */
    method CopyArc(n: int, p: int, dead: int, now: int) returns (ok: bool)
      requires Valid() && n in nodes && dead in nodes && nodes[n].data != map[]
      requires nodes[dead].predecessor == Some(p)
      modifies this
      ensures Valid() && SameLinks(old(nodes), nodes)
      ensures ok == Recover(old(nodes), n, dead, now).Done?
      ensures nodes == Recover(old(nodes), n, dead, now).state
    {
      var todo := nodes[n].data.Keys;
      ghost var a := nodes;
      ghost var keys := todo;
      assert keys - todo == {} && Partial(a, n, p, dead, now, {}) == a;
      while todo != {}
        invariant todo <= keys && Valid()
        invariant forall k | k in keys - todo && k in InRange(a, n, p, dead) :: Lookup(a, n, k).Ok?
        invariant forall k, j | k in keys - todo && j in todo :: k < j
        invariant nodes == Partial(a, n, p, dead, now, keys - todo)
        decreases |todo|
      {
        var key := Least(todo);
        ghost var done := keys - todo;
        ok := CopyKey(n, p, dead, key, now, a, done);
        if !ok {
          HandledBelow(keys, todo);
          assert done == KeysBelow(a, n, key);
          RecoverRaisesAt(a, n, dead, now, key);
          return;
        }
        todo := todo - {key};
        assert keys - todo == done + {key};
      }
      RecoverDone(a, n, dead, now);
      assert keys - todo == keys;
      return true;
    }

    /** One round of recover_data's loop: key, when it lies on dead's arc (p, dead], is
        looked up from n and written, with n's value, to the answer. */
    method CopyKey(n: int, p: int, dead: int, key: int, now: int, ghost a: Arena, ghost done: set<int>)
        returns (ok: bool)
      requires Valid() && Closed(a) && n in a && key in a[n].data
      requires nodes == Partial(a, n, p, dead, now, done)
      modifies this
      ensures Valid() && SameLinks(a, nodes)
      ensures ok == (key in InRange(a, n, p, dead) ==> Lookup(a, n, key).Ok?)
      ensures ok ==> nodes == Partial(a, n, p, dead, now, done + {key})
      ensures !ok ==> nodes == Contact(Partial(a, n, p, dead, now, done), n, n, now)
    {
      PartialStore(a, n, p, dead, now, done, key);
      if BetweenRightIncl(key, p, dead) {
        assert key in InRange(a, n, p, dead);
        LookupIgnoresRecords(a, nodes, n, key);
        var r := FindSuccessor(n, key, now);
        if r.Fail? {
          return false;
        }
        LookupAnswers(a, n, key);
        PartialStep(a, n, p, dead, now, done, key);
        nodes := nodes[r.value := nodes[r.value].(data := nodes[r.value].data[key := nodes[n].data[key]])];
      } else {
        PartialStep(a, n, p, dead, now, done, key);
      }
      return true;
    }

    /** check_failures' first loop on n at time now: a miss is counted for every peer other
        than n silent for longer than FAILURE_TIMEOUT, in the order of n's records, and the
        peers whose counter reaches three are declared dead. The counters are kept in a local
        map and written back once; nothing else reads them meanwhile. */
    method CountMisses(n: int, now: int) returns (dead: set<int>)
      requires Valid() && n in nodes
      modifies this
      ensures Valid()
      ensures var st := old(nodes)[n]; var silent := SilentAmong(st, n, now, st.lastSeen.Keys);
        && nodes == old(nodes)[n := st.(failureCounter := Bumped(st.failureCounter, silent))]
        && dead == Declared(st.failureCounter, silent)
    {
      var counter;
      counter, dead := Tally(nodes[n], n, now);
      var next := nodes[n].(failureCounter := counter);
      UpdateClosed(nodes, n, next);
      nodes := nodes[n := next];
    }

    /** check_failures on n at time now: the count, handle_failure for every peer declared
        dead, in an order the model leaves open, then the successor list filtered down to the
        alive nodes, is_alive answering each node's liveness. An exception from a
        handle_failure ends the call. On completion n's records of every peer but n itself are
        the counted ones minus the declared peers, and every successor is alive. */
    method CheckFailures(n: int, now: int) returns (ok: bool)
      requires Valid() && n in nodes
      modifies this
      ensures Valid() && SameLiveness(old(nodes), nodes)
      ensures ok ==> forall x | x in nodes[n].successors :: nodes[x].alive
      ensures ok ==> var st := old(nodes)[n]; var silent := SilentAmong(st, n, now, st.lastSeen.Keys);
        var declared := Declared(st.failureCounter, silent);
        && nodes[n].lastSeen - {n} == st.lastSeen - {n} - declared
        && nodes[n].failureCounter - {n} == Bumped(st.failureCounter, silent) - {n} - declared
    {
      var dead := CountMisses(n, now);
      ok := HandleAll(n, dead, now);
      if !ok {
        return;
      }
      var ss := AliveOnly(nodes, nodes[n].successors);
      AliveOnlySpec(nodes, nodes[n].successors);
      var next := nodes[n].(successors := ss);
      UpdateClosed(nodes, n, next);
      nodes := nodes[n := next];
    }

    /** check_failures' second loop: handle_failure(d) on n for each d of dead. */
    method HandleAll(n: int, dead: set<int>, now: int) returns (ok: bool)
      requires Valid() && n in nodes && dead <= nodes.Keys && n !in dead
      modifies this
      ensures Valid() && SameLiveness(old(nodes), nodes)
      ensures ok ==> nodes[n].lastSeen - {n} == old(nodes)[n].lastSeen - {n} - dead
      ensures ok ==> nodes[n].failureCounter - {n} == old(nodes)[n].failureCounter - {n} - dead
    {
      ghost var b := nodes;
      var todo := dead;
      ghost var handled: set<int> := {};
      assert b[n].lastSeen - {n} - {} == b[n].lastSeen - {n};
      assert b[n].failureCounter - {n} - {} == b[n].failureCounter - {n};
      while todo != {}
        invariant todo <= dead && handled <= dead
        invariant forall y | y in dead :: y in handled <==> y !in todo
        invariant Valid() && n in nodes && SameLiveness(b, nodes)
        invariant nodes[n].lastSeen - {n} == b[n].lastSeen - {n} - handled
        invariant nodes[n].failureCounter - {n} == b[n].failureCounter - {n} - handled
        decreases |todo|
      {
        var d := Pick(todo);
        ghost var m := nodes;
        ok := HandleFailure(n, d, now);
        if !ok {
          return;
        }
        HandleBookkeeping(m, n, d, now);
        MinusStep(m[n].lastSeen, nodes[n].lastSeen, b[n].lastSeen, n, d, handled);
        MinusStep(m[n].failureCounter, nodes[n].failureCounter, b[n].failureCounter, n, d, handled);
        todo := todo - {d};
        handled := handled + {d};
      }
      assert forall y :: y in handled <==> y in dead;
      assert handled == dead;
      return true;
    }

    /** store(key, v) on n at time now. */
    method Store(n: int, key: int, v: Value, now: int) returns (ok: bool)
      requires Valid() && n in nodes
      modifies this
      ensures Valid() && SameLiveness(old(nodes), nodes)
      ensures ok == StoreStep(old(nodes), n, key, v, now).Done?
      ensures nodes == StoreStep(old(nodes), n, key, v, now).state
    {
      var first := FindSuccessor(n, key, now);
      if first.Fail? {
        return false;
      }
      var chain := StoreChain(first.value);
      if chain.Fail? {
        return false;
      }
      ok := DeliverAll(n, chain.value, key, v, now);
    }

    /** store's first loop: the answer, then TOLERANCE times the first successor of the last
        entry. */
    method StoreChain(first: int) returns (r: Outcome<seq<int>>)
      requires Valid() && first in nodes
      ensures r == Walk(nodes, first, Tolerance)
    {
      var a := nodes;
      var chain := [first];
      ghost var prefix: seq<int> := [];
      PrefixedEmpty(Walk(a, first, Tolerance));
      for i := 0 to Tolerance
        invariant |chain| == i + 1 && AllIn(a, chain) && chain == prefix + [chain[i]]
        invariant Walk(a, first, Tolerance) == Prefixed(prefix, Walk(a, chain[i], Tolerance - i))
      {
        var last := chain[i];
        if |a[last].successors| == 0 {
          assert Walk(a, last, Tolerance - i) == Fail(NoSuccessor);
          return Fail(NoSuccessor);
        }
        WalkStep(a, prefix, last, Tolerance - i);
        prefix := prefix + [last];
        chain := chain + [a[last].successors[0]];
      }
      assert Walk(a, chain[Tolerance], 0) == Ok([chain[Tolerance]]);
      return Ok(chain);
    }

    /** store's second loop on n over chain. */
    method DeliverAll(n: int, chain: seq<int>, key: int, v: Value, now: int) returns (ok: bool)
      requires Valid() && n in nodes && AllIn(nodes, chain)
      modifies this
      ensures Valid() && SameLiveness(old(nodes), nodes)
      ensures ok == Deliver(old(nodes), n, chain, key, v, now).Done?
      ensures nodes == Deliver(old(nodes), n, chain, key, v, now).state
    {
      ghost var a := nodes;
      for i := 0 to |chain|
        invariant Valid() && SameLiveness(a, nodes) && n in nodes && AllIn(nodes, chain)
        invariant Deliver(a, n, chain, key, v, now) == Deliver(nodes, n, chain[i..], key, v, now)
      {
        var c := chain[i];
        assert chain[i..][1..] == chain[i + 1..];
        if nodes[c].alive {
          var next := nodes[c].(data := nodes[c].data[key := v]);
          UpdateClosed(nodes, c, next);
          nodes := nodes[c := next];
          RecordContact(c, n, now);
        } else {
          ok := HandleFailure(n, c, now);
          if !ok {
            return;
          }
        }
      }
      assert chain[|chain|..] == [];
      return true;
    }

  }
}
