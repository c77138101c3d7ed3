/**
 * The mejordefirst.py variant: nodes keep a list of up to Tolerance + 1 successors and look
 * keys up recursively through the first live successor and the finger table.
 *
 * A killed node answers every attribute read except alive, is_alive and reset with None, so
 * calling any other method on it raises TypeError (Fault BadType), and reading an attribute
 * that is not called yields None. Assignments still reach the object. The model writes that
 * dispatch out as an explicit liveness test at the head of each step. Nodes live in an arena
 * keyed by identifier, and a lookup's recursion depth is bounded by Python's default limit.
 */
module MejorDeFirst {
  import opened Wrappers
  import opened Ring
  import opened Lists

  const HashSize: nat := 3
  const IdSpace: nat := 8
  const Tolerance: nat := 2
  /** Python's default recursion limit: a lookup that nests this deep raises RecursionError. */
  const MaxDepth: nat := 1000

  /** The source stores arbitrary Python values; strings stand for them. */
  type Value = string

  /** One ring member. The predecessor starts as the node itself; join sets it to None. */
  datatype NodeState = NodeState(
    alive: bool,
    predecessor: Option<int>,
    successor: seq<int>,
    finger: seq<int>,
    data: map<int, Value>)

  type Arena = map<int, NodeState>

  predicate AllIn(a: Arena, s: seq<int>) {
    forall j | 0 <= j < |s| :: s[j] in a
  }

  lemma AllInMembers(a: Arena, s: seq<int>, t: seq<int>)
    requires AllIn(a, s) && forall y | y in t :: y in s
    ensures AllIn(a, t)
  {
    forall j | 0 <= j < |t| ensures t[j] in a {
      assert t[j] in t;
      assert s[FirstIndex(s, t[j])] == t[j];
    }
  }

  /** Every entry of s is a live node. */
  predicate AllAlive(a: Arena, s: seq<int>)
    requires AllIn(a, s)
  {
    forall j | 0 <= j < |s| :: a[s[j]].alive
  }

  /** Every reference st holds names a node of a, and its finger table has HashSize slots. */
  predicate Fits(a: Arena, st: NodeState) {
    && (st.predecessor.Some? ==> st.predecessor.value in a)
    && AllIn(a, st.successor)
    && |st.finger| == HashSize && AllIn(a, st.finger)
  }

  /** Identifiers lie in the ring and every node fits the arena. */
  predicate Closed(a: Arena) {
    forall id | id in a :: 0 <= id < IdSpace && Fits(a, a[id])
  }

  lemma UpdateClosed(a: Arena, n: int, st: NodeState)
    requires Closed(a) && n in a && Fits(a, st)
    ensures Closed(a[n := st]) && a[n := st].Keys == a.Keys
  {
  }

  /** b differs from a at most in the stores. */
  predicate SameLinks(a: Arena, b: Arena) {
    && a.Keys == b.Keys
    && forall id {:trigger a[id]} {:trigger b[id]} | id in a ::
         && a[id].alive == b[id].alive && a[id].predecessor == b[id].predecessor
         && a[id].successor == b[id].successor && a[id].finger == b[id].finger
  }

  function SetSuccessor(a: Arena, n: int, s: seq<int>): (r: Arena)
    requires Closed(a) && n in a && AllIn(a, s)
    ensures Closed(r) && r.Keys == a.Keys && r[n].successor == s
  {
    UpdateClosed(a, n, a[n].(successor := s));
    a[n := a[n].(successor := s)]
  }

  function SetPredecessor(a: Arena, n: int, p: Option<int>): (r: Arena)
    requires Closed(a) && n in a && (p.Some? ==> p.value in a)
    ensures Closed(r) && r.Keys == a.Keys && r[n].predecessor == p
  {
    UpdateClosed(a, n, a[n].(predecessor := p));
    a[n := a[n].(predecessor := p)]
  }

  // ---------------------------------------------------------------------------------------
  // Reading the links (find_best_successor, closest_preceding_finger)
  // ---------------------------------------------------------------------------------------

  /** The position of the first live entry of s, or |s| when every entry is dead. */
  function FirstAlive(a: Arena, s: seq<int>): (i: nat)
    requires AllIn(a, s)
    ensures i <= |s|
    ensures forall j | 0 <= j < i :: !a[s[j]].alive
    ensures i < |s| ==> a[s[i]].alive
  {
    if s == [] then 0
    else if a[s[0]].alive then 0
    else 1 + FirstAlive(a, s[1..])
  }

  /** find_best_successor: the first live entry of the successor list, or None. */
  function BestSuccessor(a: Arena, s: seq<int>): (r: Option<int>)
    requires AllIn(a, s)
    ensures r.Some? ==> r.value in a && a[r.value].alive
  {
    var i := FirstAlive(a, s);
    if i < |s| then Some(s[i]) else None
  }

  /** The best successor is None exactly when every entry is dead, and otherwise the live
      entry before which every entry is dead. */
  lemma BestSuccessorSpec(a: Arena, s: seq<int>)
    requires AllIn(a, s)
    ensures BestSuccessor(a, s).None? <==> forall j | 0 <= j < |s| :: !a[s[j]].alive
    ensures BestSuccessor(a, s).Some? ==>
      exists i | 0 <= i < |s| :: s[i] == BestSuccessor(a, s).value && a[s[i]].alive
        && forall j | 0 <= j < i :: !a[s[j]].alive
  {
    var i := FirstAlive(a, s);
    if i < |s| {
      assert s[i] == BestSuccessor(a, s).value;
    }
  }

  /** A finger slot that closest_preceding_finger accepts: live and strictly inside (n, id). */
  predicate Precedes(a: Arena, x: int, n: int, id: int)
    requires x in a
  {
    a[x].alive && Between(x, n, id)
  }

  /** The highest slot below i whose finger precedes id, scanning down from i - 1. */
  function PrecedingSlot(a: Arena, f: seq<int>, n: int, id: int, i: nat): (r: Option<nat>)
    requires AllIn(a, f) && i <= |f|
    ensures r.Some? ==> r.value < i && Precedes(a, f[r.value], n, id)
    ensures r.Some? ==> forall k | r.value < k < i :: !Precedes(a, f[k], n, id)
    ensures r.None? ==> forall k | 0 <= k < i :: !Precedes(a, f[k], n, id)
    decreases i
  {
    if i == 0 then None
    else if Precedes(a, f[i - 1], n, id) then Some(i - 1)
    else PrecedingSlot(a, f, n, id, i - 1)
  }

  /** closest_preceding_finger: the preceding finger in the highest slot; failing that the
      first live successor; and as a last resort the node itself. */
  function Cpf(a: Arena, n: int, id: int): (r: int)
    requires Closed(a) && n in a
    ensures r in a
  {
    var f := a[n].finger;
    match PrecedingSlot(a, f, n, id, |f|)
    case Some(i) => f[i]
    case None =>
      match BestSuccessor(a, a[n].successor)
      case Some(s) => s
      case None => n
  }

  /** The three cases of closest_preceding_finger. */
  lemma CpfSpec(a: Arena, n: int, id: int)
    requires Closed(a) && n in a
    ensures var f := a[n].finger; var r := Cpf(a, n, id);
      || (exists i | 0 <= i < |f| :: r == f[i] && Precedes(a, r, n, id)
            && forall k | i < k < |f| :: !Precedes(a, f[k], n, id))
      || ((forall k | 0 <= k < |f| :: !Precedes(a, f[k], n, id))
            && r == (match BestSuccessor(a, a[n].successor) case Some(s) => s case None => n))
  {
    var f := a[n].finger;
    var p := PrecedingSlot(a, f, n, id, |f|);
    if p.Some? {
      assert Cpf(a, n, id) == f[p.value];
    }
  }

  /** In a lookup the node has a live successor, so the finger it forwards to is live. */
  lemma CpfAlive(a: Arena, n: int, id: int)
    requires Closed(a) && n in a && BestSuccessor(a, a[n].successor).Some?
    ensures a[Cpf(a, n, id)].alive
  {
  }

  // ---------------------------------------------------------------------------------------
  // find
  // ---------------------------------------------------------------------------------------

  /** find(id) started at n with depth frames left. */
  function Find(a: Arena, n: int, id: int, depth: nat): (r: Outcome<int>)
    requires Closed(a) && n in a
    ensures r.Ok? ==> r.value in a && a[r.value].alive
    decreases depth
  {
    if depth == 0 then Fail(RecursionLimit)
    else if !a[n].alive then Fail(BadType)
    else match BestSuccessor(a, a[n].successor)
      case None => Fail(NoLiveSuccessors)
      case Some(b) =>
        if BetweenRightIncl(id, n, b) then Ok(b)
        else Find(a, Cpf(a, n, id), id, depth - 1)
  }

  /** The first round of find: it raises when n has no live successor, and answers the first
      live successor when id lies in (n, successor]. */
  lemma FindFirstRound(a: Arena, n: int, id: int, depth: nat)
    requires Closed(a) && n in a && a[n].alive && depth > 0
    ensures BestSuccessor(a, a[n].successor).None? ==> Find(a, n, id, depth) == Fail(NoLiveSuccessors)
    ensures var b := BestSuccessor(a, a[n].successor);
      b.Some? && BetweenRightIncl(id, n, b.value) ==> Find(a, n, id, depth) == Ok(b.value)
  {
  }

  /** A find that answers r answers the first live successor of some live node c with id
      in (c, r]: the node the recursion stopped at. */
  lemma {:induction false} FindAnswers(a: Arena, n: int, id: int, depth: nat)
    requires Closed(a) && n in a && Find(a, n, id, depth).Ok?
    ensures exists c | c in a ::
      && a[c].alive
      && BestSuccessor(a, a[c].successor) == Some(Find(a, n, id, depth).value)
      && BetweenRightIncl(id, c, Find(a, n, id, depth).value)
    decreases depth
  {
    var b := BestSuccessor(a, a[n].successor).value;
    if !BetweenRightIncl(id, n, b) {
      FindAnswers(a, Cpf(a, n, id), id, depth - 1);
    }
  }

  /** Writes to the stores do not change where a lookup ends. */
  lemma {:induction false} FindIgnoresData(a: Arena, b: Arena, n: int, id: int, depth: nat)
    requires Closed(a) && Closed(b) && n in a && SameLinks(a, b)
    ensures Find(a, n, id, depth) == Find(b, n, id, depth)
    decreases depth
  {
    assert a[n].successor == b[n].successor && a[n].finger == b[n].finger;
    BestSuccessorSame(a, b, a[n].successor);
    if depth > 0 && a[n].alive && BestSuccessor(a, a[n].successor).Some? {
      PrecedingSlotSame(a, b, a[n].finger, n, id, |a[n].finger|);
      assert Cpf(a, n, id) == Cpf(b, n, id);
      FindIgnoresData(a, b, Cpf(a, n, id), id, depth - 1);
    }
  }

  lemma {:induction false} BestSuccessorSame(a: Arena, b: Arena, s: seq<int>)
    requires AllIn(a, s) && SameLinks(a, b)
    ensures AllIn(b, s) && BestSuccessor(a, s) == BestSuccessor(b, s)
    ensures FirstAlive(a, s) == FirstAlive(b, s)
  {
    if s != [] {
      var x := s[0];
      assert x in a;
      assert a[x].alive == b[x].alive;
      BestSuccessorSame(a, b, s[1..]);
    }
  }

  lemma {:induction false} PrecedingSlotSame(a: Arena, b: Arena, f: seq<int>, n: int, id: int, i: nat)
    requires AllIn(a, f) && i <= |f| && SameLinks(a, b)
    ensures AllIn(b, f) && PrecedingSlot(a, f, n, id, i) == PrecedingSlot(b, f, n, id, i)
    decreases i
  {
    if i > 0 {
      var x := f[i - 1];
      assert x in a;
      assert a[x].alive == b[x].alive;
      PrecedingSlotSame(a, b, f, n, id, i - 1);
    }
  }

  // ---------------------------------------------------------------------------------------
  // notify
  // ---------------------------------------------------------------------------------------

  /** notify(c) received by m. A predecessor of None is always replaced. Otherwise the test
      reads c's liveness first and, for a live c, the predecessor's id: a killed predecessor
      answers None, and comparing None with an int raises TypeError. */
  function NotifyStep(a: Arena, m: int, c: int): (r: Outcome<Arena>)
    requires Closed(a) && m in a && c in a
    ensures r.Ok? ==> Closed(r.value) && r.value.Keys == a.Keys
  {
    if !a[m].alive then Fail(BadType)
    else match a[m].predecessor
      case None => Ok(SetPredecessor(a, m, Some(c)))
      case Some(p) =>
        if !a[c].alive then Ok(a)
        else if !a[p].alive then Fail(BadType)
        else if Between(c, p, m) then Ok(SetPredecessor(a, m, Some(c)))
        else Ok(a)
  }

  /** notify changes only m's predecessor, and sets it to c exactly when m had none or c is
      live and strictly between the predecessor and m; it raises exactly when m is dead or
      the predecessor is dead while c is live. */
  lemma NotifyGuard(a: Arena, m: int, c: int)
    requires Closed(a) && m in a && c in a
    ensures NotifyStep(a, m, c).Fail? <==>
      !a[m].alive || (a[m].predecessor.Some? && a[c].alive && !a[a[m].predecessor.value].alive)
    ensures var r := NotifyStep(a, m, c); r.Ok? ==>
      && r.value == a[m := a[m].(predecessor := r.value[m].predecessor)]
      && (r.value[m].predecessor == a[m].predecessor || r.value[m].predecessor == Some(c))
      && (r.value[m].predecessor == Some(c) <==>
            a[m].predecessor.None? || (a[c].alive && Between(c, a[m].predecessor.value, m))
            || a[m].predecessor == Some(c))
  {
  }

  // ---------------------------------------------------------------------------------------
  // stabilize
  // ---------------------------------------------------------------------------------------

  /** The comprehension `[s for s in successor if s.is_alive()]`. */
  function AliveOnly(a: Arena, s: seq<int>): (r: seq<int>)
    requires AllIn(a, s)
    ensures |r| <= |s| && AllIn(a, r)
  {
    if s == [] then []
    else (if a[s[0]].alive then [s[0]] else []) + AliveOnly(a, s[1..])
  }

  /** The filter keeps exactly the live entries, in their order. */
  lemma {:induction false} AliveOnlySpec(a: Arena, s: seq<int>)
    requires AllIn(a, s)
    ensures AllAlive(a, AliveOnly(a, s))
    ensures forall x :: x in AliveOnly(a, s) <==> x in s && a[x].alive
  {
    if s != [] {
      AliveOnlySpec(a, s[1..]);
      var t := AliveOnly(a, s[1..]);
      var r := AliveOnly(a, s);
      assert r == (if a[s[0]].alive then [s[0]] else []) + t;
      assert forall x :: x in s <==> x == s[0] || x in s[1..];
    }
  }

  /** The first step of stabilize: when cs's predecessor x is live and strictly between n and
      cs, x goes to the front of n's list and the last entry drops out. */
  function Adopted(a: Arena, n: int, cs: int): (r: Arena)
    requires Closed(a) && n in a && cs in a && cs in a[n].successor
    ensures Closed(r) && r.Keys == a.Keys
  {
    match a[cs].predecessor
    case Some(x) =>
      var s := a[n].successor;
      if a[x].alive && Between(x, n, cs) then SetSuccessor(a, n, [x] + s[..|s| - 1]) else a
    case None => a
  }

  /** Adoption keeps the list's length, puts the live x first, drops the old last entry and
      changes nothing else; without a live x strictly between n and cs nothing changes. */
  lemma AdoptShape(a: Arena, n: int, cs: int)
    requires Closed(a) && n in a && cs in a && cs in a[n].successor
    ensures var r := Adopted(a, n, cs); var s := a[n].successor; var p := a[cs].predecessor;
      if p.Some? && a[p.value].alive && Between(p.value, n, cs) then
        && |r[n].successor| == |s| && r[n].successor[0] == p.value
        && r[n].successor[1..] == s[..|s| - 1]
        && r == a[n := a[n].(successor := r[n].successor)]
      else r == a
  {
  }

  /** The except branch after a failed notify: cs leaves n's list (ValueError when adoption
      already dropped it), then the answer of n's own lookup of n is appended. */
  function Recovered(a: Arena, n: int, cs: int): (r: Outcome<Arena>)
    requires Closed(a) && n in a
    ensures r.Ok? ==> Closed(r.value) && r.value.Keys == a.Keys
  {
    if cs !in a[n].successor then Fail(NotInList)
    else
      AllInMembers(a, a[n].successor, RemoveFirst(a[n].successor, cs));
      var b := SetSuccessor(a, n, RemoveFirst(a[n].successor, cs));
      match Find(b, n, n, MaxDepth)
      case Fail(f) => Fail(f)
      case Ok(t) => Ok(SetSuccessor(b, n, b[n].successor + [t]))
  }

  /** The while loop of stabilize: while fewer than Tolerance + 1 candidates are known, look up
      the successor of the last one (of n itself when there is none) and append it, stopping
      at the first answer already present. */
  function Refill(a: Arena, n: int, s: seq<int>): (r: Outcome<seq<int>>)
    requires Closed(a) && n in a && AllIn(a, s)
    ensures r.Ok? ==> AllIn(a, r.value)
    decreases Tolerance + 1 - |s|
  {
    if |s| >= Tolerance + 1 then Ok(s)
    else
      var last := if s == [] then n else s[|s| - 1];
      match Find(a, last, last, MaxDepth)
      case Fail(f) => Fail(f)
      case Ok(t) => if t in s then Ok(s) else Refill(a, n, s + [t])
  }

  /** The loop extends its start with fresh lookup answers: it keeps s as a prefix, each
      appended entry is live and new, it stops at Tolerance + 1 entries and never empty. */
  lemma {:induction false} RefillSpec(a: Arena, n: int, s: seq<int>)
    requires Closed(a) && n in a && AllIn(a, s) && Refill(a, n, s).Ok?
    ensures var r := Refill(a, n, s).value;
      && |s| <= |r| && r[..|s|] == s && |r| > 0
      && (|s| < Tolerance + 1 ==> |r| <= Tolerance + 1)
      && (forall j | |s| <= j < |r| :: a[r[j]].alive && r[j] !in r[..j])
      && (NoDuplicates(s) ==> NoDuplicates(r))
    decreases Tolerance + 1 - |s|
  {
    if |s| < Tolerance + 1 {
      var last := if s == [] then n else s[|s| - 1];
      var t := Find(a, last, last, MaxDepth).value;
      if t !in s {
        var s' := s + [t];
        RefillSpec(a, n, s');
        var r := Refill(a, n, s').value;
        ExtendedPrefix(s, t, r);
        if NoDuplicates(s) {
          AppendFresh(s, t);
        }
      }
    }
  }

  /** The try block around `cs.notify(self)` with its except branch. */
  function Notified(b: Arena, n: int, cs: int): (r: Outcome<Arena>)
    requires Closed(b) && n in b && cs in b
    ensures r.Ok? ==> Closed(r.value) && r.value.Keys == b.Keys
  {
    match NotifyStep(b, cs, n)
    case Ok(c) => Ok(c)
    case Fail(_) => Recovered(b, n, cs)
  }

  /** The end of stabilize: the live entries, refilled by the loop, cut to Tolerance + 1. */
  function Settled(c: Arena, n: int): (r: Outcome<Arena>)
    requires Closed(c) && n in c
    ensures r.Ok? ==> Closed(r.value) && r.value.Keys == c.Keys
  {
    match Refill(c, n, AliveOnly(c, c[n].successor))
    case Fail(f) => Fail(f)
    case Ok(s) => Ok(SetSuccessor(c, n, Take(s, Tolerance + 1)))
  }

  /** stabilize run by n. A dead n cannot look up find_best_successor; a node without a live
      successor returns at once. */
  function StabilizeStep(a: Arena, n: int): (r: Outcome<Arena>)
    requires Closed(a) && n in a
    ensures r.Ok? ==> Closed(r.value) && r.value.Keys == a.Keys
  {
    if !a[n].alive then Fail(BadType)
    else match BestSuccessor(a, a[n].successor)
      case None => Ok(a)
      case Some(cs) =>
        BestSuccessorSpec(a, a[n].successor);
        match Notified(Adopted(a, n, cs), n, cs)
        case Fail(f) => Fail(f)
        case Ok(c) => Settled(c, n)
  }

  /** The end of stabilize leaves n a non-empty list of at most Tolerance + 1 live entries
      and changes nothing else. */
  lemma SettledLive(c: Arena, n: int)
    requires Closed(c) && n in c && Settled(c, n).Ok?
    ensures var r := Settled(c, n).value; var s := r[n].successor;
      && 1 <= |s| <= Tolerance + 1 && AllAlive(r, s)
      && r == c[n := c[n].(successor := s)]
  {
    var f := AliveOnly(c, c[n].successor);
    AliveOnlySpec(c, c[n].successor);
    RefillSpec(c, n, f);
    var t := Refill(c, n, f).value;
    assert AllAlive(c, t) by {
      forall j | 0 <= j < |t| ensures c[t[j]].alive {
        if j < |f| {
          assert t[j] == t[..|f|][j] == f[j];
        }
      }
    }
  }

  /** After a stabilize that found a live successor, n's list is non-empty, holds at most
      Tolerance + 1 entries, and every entry is live. A dead n raises; a node without a live
      successor is left as it was. */
  lemma StabilizeLive(a: Arena, n: int)
    requires Closed(a) && n in a
    ensures !a[n].alive ==> StabilizeStep(a, n) == Fail(BadType)
    ensures a[n].alive && BestSuccessor(a, a[n].successor).None? ==> StabilizeStep(a, n) == Ok(a)
    ensures a[n].alive && BestSuccessor(a, a[n].successor).Some? && StabilizeStep(a, n).Ok? ==>
      var s := StabilizeStep(a, n).value[n].successor;
      1 <= |s| <= Tolerance + 1 && AllAlive(StabilizeStep(a, n).value, s)
  {
    if a[n].alive && BestSuccessor(a, a[n].successor).Some? && StabilizeStep(a, n).Ok? {
      var cs := BestSuccessor(a, a[n].successor).value;
      BestSuccessorSpec(a, a[n].successor);
      var c := Notified(Adopted(a, n, cs), n, cs).value;
      SettledLive(c, n);
      var r := Settled(c, n).value;
      assert StabilizeStep(a, n) == Ok(r);
      assert forall x | x in c :: r[x].alive == c[x].alive;
    }
  }

  // ---------------------------------------------------------------------------------------
  // fix_finger_table
  // ---------------------------------------------------------------------------------------

  function WithFinger(a: Arena, n: int, i: nat, t: int): (r: Arena)
    requires Closed(a) && n in a && i < HashSize && t in a
    ensures Closed(r) && r.Keys == a.Keys
  {
    UpdateClosed(a, n, a[n].(finger := a[n].finger[i := t]));
    a[n := a[n].(finger := a[n].finger[i := t])]
  }

  /** Slot i of n's table once the lookup of the loop's pass answered w: an answer is
      stored; when the lookup raised, a live entry stays and a dead one becomes the first
      live successor, or n itself. */
  function Mended(a: Arena, n: int, i: nat, w: Outcome<int>): (r: Arena)
    requires Closed(a) && n in a && i < HashSize && (w.Ok? ==> w.value in a)
    ensures Closed(r) && r.Keys == a.Keys
  {
    match w
    case Ok(t) => WithFinger(a, n, i, t)
    case Fail(_) =>
      if a[a[n].finger[i]].alive then a
      else WithFinger(a, n, i, match BestSuccessor(a, a[n].successor) case Some(s) => s case None => n)
  }

  /** One pass of the loop: slot i is mended with the answer of find((n + 2^i) mod 2^m). */
  function FixSlot(a: Arena, n: int, i: nat): (r: Arena)
    requires Closed(a) && n in a && i < HashSize
    ensures Closed(r) && r.Keys == a.Keys
  {
    Mended(a, n, i, Find(a, n, FingerStart(n, i, IdSpace), MaxDepth))
  }

  /** The table after the loop's first i passes. */
  function FixUpTo(a: Arena, n: int, i: nat): (r: Arena)
    requires Closed(a) && n in a && i <= HashSize
    ensures Closed(r) && r.Keys == a.Keys
    decreases i
  {
    if i == 0 then a else FixSlot(FixUpTo(a, n, i - 1), n, i - 1)
  }

  /** fix_finger_table run by n. On a dead n the lookup of `fix_finger_table` already answers
      None, and calling it raises TypeError before any slot is read. */
  function FixStep(a: Arena, n: int): (r: Outcome<Arena>)
    requires Closed(a) && n in a
    ensures r.Ok? ==> Closed(r.value) && r.value.Keys == a.Keys
  {
    if !a[n].alive then Fail(BadType) else Ok(FixUpTo(a, n, HashSize))
  }

  /** Mending changes slot i of n's table and nothing else: it stores an answer, keeps a
      live entry when the lookup raised, and leaves a live node there when n is live. */
  lemma MendedSpec(a: Arena, n: int, i: nat, w: Outcome<int>)
    requires Closed(a) && n in a && i < HashSize && (w.Ok? ==> w.value in a && a[w.value].alive)
    ensures var r := Mended(a, n, i, w);
      && r == a[n := a[n].(finger := a[n].finger[i := r[n].finger[i]])]
      && (w.Ok? ==> r[n].finger[i] == w.value)
      && (w.Fail? && a[a[n].finger[i]].alive ==> r == a)
      && (a[n].alive ==> r[r[n].finger[i]].alive)
  {
    if w.Fail? && a[a[n].finger[i]].alive {
      assert a[n].finger[i := a[n].finger[i]] == a[n].finger;
      assert a[n := a[n].(finger := a[n].finger)] == a;
    }
  }

  /** One pass changes slot i of n's table and nothing else, and leaves a live node there
      when n is live. */
  lemma FixSlotSpec(a: Arena, n: int, i: nat)
    requires Closed(a) && n in a && i < HashSize
    ensures var r := FixSlot(a, n, i);
      && r == a[n := a[n].(finger := a[n].finger[i := r[n].finger[i]])]
      && (Find(a, n, FingerStart(n, i, IdSpace), MaxDepth).Ok? ==>
            r[n].finger[i] == Find(a, n, FingerStart(n, i, IdSpace), MaxDepth).value)
      && (Find(a, n, FingerStart(n, i, IdSpace), MaxDepth).Fail? && a[a[n].finger[i]].alive ==> r == a)
      && (a[n].alive ==> r[r[n].finger[i]].alive)
  {
    MendedSpec(a, n, i, Find(a, n, FingerStart(n, i, IdSpace), MaxDepth));
  }

  /** r differs from a only in n's finger table, and slots below i of it hold live nodes. */
  predicate FixedBelow(a: Arena, r: Arena, n: int, i: nat)
    requires n in a && n in r
  {
    && r == a[n := a[n].(finger := r[n].finger)]
    && forall j | 0 <= j < i :: j < |r[n].finger| && r[n].finger[j] in r && r[r[n].finger[j]].alive
  }

  /** After the first i passes on a live n, slots below i hold live nodes, and only n's
      finger table has changed. */
  lemma {:induction false} FixUpToSpec(a: Arena, n: int, i: nat)
    requires Closed(a) && n in a && i <= HashSize && a[n].alive
    ensures FixedBelow(a, FixUpTo(a, n, i), n, i)
    decreases i
  {
    if i == 0 {
      assert a == a[n := a[n].(finger := a[n].finger)];
    } else {
      FixUpToSpec(a, n, i - 1);
      FixUpToNext(a, n, i);
    }
  }

  /** The step of the induction: pass i - 1 on a table whose earlier passes did their work. */
  lemma FixUpToNext(a: Arena, n: int, i: nat)
    requires Closed(a) && n in a && 0 < i <= HashSize && a[n].alive
    requires FixedBelow(a, FixUpTo(a, n, i - 1), n, i - 1)
    ensures FixedBelow(a, FixUpTo(a, n, i), n, i)
  {
    var b := FixUpTo(a, n, i - 1);
    FixSlotSpec(b, n, i - 1);
    var r := FixSlot(b, n, i - 1);
    SlotKeepsEarlier(b, r, n, i - 1);
    FingersCompose(a, b, r, n);
  }

  lemma SlotKeepsEarlier(a: Arena, b: Arena, n: int, i: nat)
    requires Closed(a) && n in a && i < HashSize && Closed(b) && b.Keys == a.Keys
    requires b == a[n := a[n].(finger := a[n].finger[i := b[n].finger[i]])]
    requires forall j | 0 <= j < i :: a[a[n].finger[j]].alive
    requires b[b[n].finger[i]].alive
    ensures forall j | 0 <= j < i + 1 :: b[b[n].finger[j]].alive
  {
    forall j | 0 <= j < i + 1 ensures b[b[n].finger[j]].alive {
      if j < i {
        assert b[n].finger[j] == a[n].finger[j];
        assert b[a[n].finger[j]].alive == a[a[n].finger[j]].alive;
      }
    }
  }

  lemma FingersCompose(a: Arena, b: Arena, r: Arena, n: int)
    requires n in a && n in b && n in r
    requires b == a[n := a[n].(finger := b[n].finger)]
    requires r == b[n := b[n].(finger := r[n].finger)]
    ensures r == a[n := a[n].(finger := r[n].finger)]
  {
    assert b[n].(finger := r[n].finger) == a[n].(finger := r[n].finger);
  }

  /** fix_finger_table on a live node leaves every slot holding a live node. */
  lemma FixFingersAlive(a: Arena, n: int)
    requires Closed(a) && n in a && a[n].alive
    ensures FixStep(a, n).Ok?
    ensures var r := FixStep(a, n).value;
      r == a[n := a[n].(finger := r[n].finger)] && AllAlive(r, r[n].finger)
  {
    FixUpToSpec(a, n, HashSize);
    var r := FixStep(a, n).value;
    assert FixedBelow(a, r, n, HashSize);
  }

  // ---------------------------------------------------------------------------------------
  // join
  // ---------------------------------------------------------------------------------------

  /** The links join gives n once the lookup answered succ: no predecessor, and succ followed
      by the first Tolerance entries of succ's own list. */
  function Linked(a: Arena, n: int, succ: int): (r: Arena)
    requires Closed(a) && n in a && succ in a
    ensures Closed(r) && r.Keys == a.Keys
  {
    var b := SetPredecessor(a, n, None);
    SetSuccessor(b, n, [succ] + Take(b[succ].successor, Tolerance))
  }

  /** join(boot) run by n: a dead n answers None for join itself, so the call raises
      TypeError; otherwise the predecessor is cleared, boot looks n up (a dead boot cannot),
      the answer and its first successors become n's list, then stabilize and
      fix_finger_table run. */
  function JoinStep(a: Arena, n: int, boot: int): (r: Outcome<Arena>)
    requires Closed(a) && n in a && boot in a
    ensures r.Ok? ==> Closed(r.value) && r.value.Keys == a.Keys
    ensures !a[n].alive ==> r == Fail(BadType)
  {
    if !a[n].alive then Fail(BadType)
    else
    var b := SetPredecessor(a, n, None);
    match Find(b, boot, n, MaxDepth)
    case Fail(f) => Fail(f)
    case Ok(succ) =>
      match StabilizeStep(Linked(a, n, succ), n)
      case Fail(f) => Fail(f)
      case Ok(c) => FixStep(c, n)
  }

  /** The links of join before stabilize: no predecessor, succ first, at most Tolerance + 1
      entries, the rest a prefix of succ's list. */
  lemma LinkedShape(a: Arena, n: int, succ: int)
    requires Closed(a) && n in a && succ in a
    ensures var r := Linked(a, n, succ); var t := r[n].successor;
      && r[n].predecessor.None? && 1 <= |t| <= Tolerance + 1 && t[0] == succ
      && t[1..] == a[succ].successor[..|t| - 1]
      && r == a[n := a[n].(predecessor := None, successor := t)]
  {
    var b := SetPredecessor(a, n, None);
    assert b[succ].successor == a[succ].successor;
    var t := [succ] + Take(b[succ].successor, Tolerance);
    assert t[1..] == Take(a[succ].successor, Tolerance);
  }

  lemma JoinListIn(a: Arena, succ: int, t: seq<int>)
    requires Closed(a) && succ in a && t == [succ] + Take(a[succ].successor, Tolerance)
    ensures AllIn(a, t)
  {
    var s := a[succ].successor;
    assert AllIn(a, s);
    forall j | 1 <= j < |t| ensures t[j] in a {
      assert t[j] == s[j - 1];
    }
  }

  /** A join that completes leaves a live n with a non-empty list of at most Tolerance + 1
      live successors and a table of live fingers. */
  lemma JoinSettles(a: Arena, n: int, boot: int)
    requires Closed(a) && n in a && boot in a && JoinStep(a, n, boot).Ok?
    ensures var r := JoinStep(a, n, boot).value;
      && r[n].alive && 1 <= |r[n].successor| <= Tolerance + 1
      && AllAlive(r, r[n].successor) && AllAlive(r, r[n].finger)
  {
    var b := SetPredecessor(a, n, None);
    var succ := Find(b, boot, n, MaxDepth).value;
    var l := Linked(a, n, succ);
    LinkedShape(a, n, succ);
    assert l[succ].alive == b[succ].alive;
    assert BestSuccessor(l, l[n].successor) == Some(succ);
    StabilizeLive(l, n);
    var c := StabilizeStep(l, n).value;
    FixKeepsSuccessors(c, n);
    assert JoinStep(a, n, boot) == FixStep(c, n);
  }

  /** fix_finger_table on a live n keeps a list of live successors live, and its table ends
      up live too. */
  lemma FixKeepsSuccessors(c: Arena, n: int)
    requires Closed(c) && n in c && c[n].alive && 1 <= |c[n].successor| <= Tolerance + 1
    requires AllAlive(c, c[n].successor)
    ensures FixStep(c, n).Ok?
    ensures var r := FixStep(c, n).value;
      && r[n].alive && 1 <= |r[n].successor| <= Tolerance + 1
      && AllAlive(r, r[n].successor) && AllAlive(r, r[n].finger)
  {
    FixFingersAlive(c, n);
    var r := FixStep(c, n).value;
    assert r[n].successor == c[n].successor;
    assert forall x | x in c :: r[x].alive == c[x].alive;
  }

  // ---------------------------------------------------------------------------------------
  // check_predecessor
  // ---------------------------------------------------------------------------------------

  /** check_predecessor: a dead predecessor is cleared. A dead n answers None for
      check_predecessor itself, so the call raises TypeError. */
  function PredecessorChecked(a: Arena, n: int): (r: Outcome<Arena>)
    requires Closed(a) && n in a
    ensures r.Ok? ==> Closed(r.value) && r.value.Keys == a.Keys
  {
    if !a[n].alive then Fail(BadType)
    else match a[n].predecessor
      case Some(p) => if !a[p].alive then Ok(SetPredecessor(a, n, None)) else Ok(a)
      case None => Ok(a)
  }

  /** check_predecessor raises exactly on a dead n; otherwise it only clears n's
      predecessor, leaves no predecessor or a live one, and a second run changes nothing. */
  lemma CheckPredecessorSpec(a: Arena, n: int)
    requires Closed(a) && n in a
    ensures PredecessorChecked(a, n).Ok? <==> a[n].alive
    ensures PredecessorChecked(a, n).Fail? ==> PredecessorChecked(a, n).fault == BadType
    ensures PredecessorChecked(a, n).Ok? ==> var r := PredecessorChecked(a, n).value;
      && r == a[n := a[n].(predecessor := r[n].predecessor)]
      && (r[n].predecessor != a[n].predecessor ==> r[n].predecessor.None?)
      && (r[n].predecessor.Some? ==> r[r[n].predecessor.value].alive)
      && PredecessorChecked(r, n) == Ok(r)
  {
  }

  // ---------------------------------------------------------------------------------------
  // store, retrieve, delete, kill
  // ---------------------------------------------------------------------------------------

  /** store with the key given: the node the lookup answers keeps the value under key. Its
      liveness test always passes, since a lookup answers only live nodes. */
  function StoreStep(a: Arena, n: int, key: int, v: Value): (r: Outcome<Arena>)
    requires Closed(a) && n in a
    ensures r.Ok? ==> Closed(r.value) && SameLinks(a, r.value)
  {
    if !a[n].alive then Fail(BadType)
    else match Find(a, n, key, MaxDepth)
      case Fail(f) => Fail(f)
      case Ok(t) =>
        UpdateClosed(a, t, a[t].(data := a[t].data[key := v]));
        Ok(a[t := a[t].(data := a[t].data[key := v])])
  }

  /** retrieve with the key given: the value the answering node holds under key, if any. */
  function Retrieve(a: Arena, n: int, key: int): (r: Outcome<Option<Value>>)
    requires Closed(a) && n in a
    ensures !a[n].alive ==> r == Fail(BadType)
    ensures r.Ok? ==> Find(a, n, key, MaxDepth).Ok?
    ensures r.Ok? ==> var t := Find(a, n, key, MaxDepth).value;
      (r.value.Some? <==> key in a[t].data) && (r.value.Some? ==> r.value.value == a[t].data[key])
  {
    if !a[n].alive then Fail(BadType)
    else match Find(a, n, key, MaxDepth)
      case Fail(f) => Fail(f)
      case Ok(t) => Ok(if key in a[t].data then Some(a[t].data[key]) else None)
  }

  /** delete with the key given: the answering node drops key. The popped value is what
      Retrieve answers on the same arena. */
  function DeleteStep(a: Arena, n: int, key: int): (r: Outcome<Arena>)
    requires Closed(a) && n in a
    ensures r.Ok? ==> Closed(r.value) && SameLinks(a, r.value)
  {
    if !a[n].alive then Fail(BadType)
    else match Find(a, n, key, MaxDepth)
      case Fail(f) => Fail(f)
      case Ok(t) =>
        UpdateClosed(a, t, a[t].(data := a[t].data - {key}));
        Ok(a[t := a[t].(data := a[t].data - {key})])
  }

  /** A value stored through n is retrieved through n; deleting it then pops that value, and
      after the delete nothing is retrieved under the key. */
  lemma StoreRetrieve(a: Arena, n: int, key: int, v: Value)
    requires Closed(a) && n in a && StoreStep(a, n, key, v).Ok?
    ensures var b := StoreStep(a, n, key, v).value;
      && Retrieve(b, n, key) == Ok(Some(v))
      && DeleteStep(b, n, key).Ok?
      && Retrieve(DeleteStep(b, n, key).value, n, key) == Ok(None)
  {
    var b := StoreStep(a, n, key, v).value;
    FindIgnoresData(a, b, n, key, MaxDepth);
    var c := DeleteStep(b, n, key).value;
    FindIgnoresData(b, c, n, key, MaxDepth);
  }

  /** A lookup that fails makes store, retrieve and delete raise the same way, and a dead n
      raises TypeError in all three. */
  lemma StoreFails(a: Arena, n: int, key: int, v: Value)
    requires Closed(a) && n in a
    requires !a[n].alive || Find(a, n, key, MaxDepth).Fail?
    ensures var f := if !a[n].alive then BadType else Find(a, n, key, MaxDepth).fault;
      && StoreStep(a, n, key, v) == Fail(f) && Retrieve(a, n, key) == Fail(f)
      && DeleteStep(a, n, key) == Fail(f)
  {
  }

  /** kill; a second kill of the same node raises TypeError, since a killed node answers
      None for its own kill method. */
  function KillStep(a: Arena, n: int): (r: Outcome<Arena>)
    requires Closed(a) && n in a
    ensures r.Ok? ==> Closed(r.value) && r.value.Keys == a.Keys
  {
    if !a[n].alive then Fail(BadType)
    else
      UpdateClosed(a, n, a[n].(alive := false));
      Ok(a[n := a[n].(alive := false)])
  }

  /** A killed node answers none of the protocol's calls: lookups, join, stabilize, notify,
      fix_finger_table, check_predecessor, the store operations and kill itself raise
      TypeError. */
  lemma KilledRefuses(a: Arena, n: int, id: int, v: Value, depth: nat)
    requires Closed(a) && n in a && KillStep(a, n).Ok? && depth > 0
    ensures var b := KillStep(a, n).value;
      && Find(b, n, id, depth) == Fail(BadType)
      && StabilizeStep(b, n) == Fail(BadType)
      && (forall c | c in b :: NotifyStep(b, n, c) == Fail(BadType))
      && FixStep(b, n) == Fail(BadType)
      && StoreStep(b, n, id, v) == Fail(BadType) && Retrieve(b, n, id) == Fail(BadType)
      && DeleteStep(b, n, id) == Fail(BadType)
      && KillStep(b, n) == Fail(BadType)
      && PredecessorChecked(b, n) == Fail(BadType)
      && (forall boot | boot in b :: JoinStep(b, n, boot) == Fail(BadType))
  {
  }

  // ---------------------------------------------------------------------------------------
  // The nodes as the program holds them
  // ---------------------------------------------------------------------------------------

  /** The Node objects of one run, keyed by identifier. Each method is one call on a node,
      and a false `ok` stands for the exception that call raises. */
  class Network {
    var nodes: Arena

    predicate Valid()
      reads this
    {
      Closed(nodes)
    }

    constructor ()
      ensures Valid() && nodes == map[]
    {
      nodes := map[];
    }

    /** Node(id): alive, its own predecessor and only successor, `[self] * m` as its finger
        table, and an empty store. */
    method AddNode(id: int)
      requires Valid() && 0 <= id < IdSpace && id !in nodes
      modifies this
      ensures Valid()
      ensures nodes == old(nodes)[id := NodeState(true, Some(id), [id], seq(HashSize, j => id), map[])]
    {
      nodes := nodes[id := NodeState(true, Some(id), [id], seq(HashSize, j => id), map[])];
    }

    /** notify(c) on m. */
    method Notify(m: int, c: int) returns (ok: bool)
      requires Valid() && m in nodes && c in nodes
      modifies this
      ensures Valid()
      ensures ok == NotifyStep(old(nodes), m, c).Ok?
      ensures ok ==> nodes == NotifyStep(old(nodes), m, c).value
      ensures !ok ==> nodes == old(nodes)
    {
      if !nodes[m].alive {
        return false;
      }
      var p := nodes[m].predecessor;
      if p.None? || (nodes[c].alive && nodes[p.value].alive && Between(c, p.value, m)) {
        nodes := SetPredecessor(nodes, m, Some(c));
        return true;
      }
      ok := !nodes[c].alive || nodes[p.value].alive;
    }

    /** stabilize on n. */
    method Stabilize(n: int) returns (ok: bool)
      requires Valid() && n in nodes
      modifies this
      ensures Valid()
      ensures ok == StabilizeStep(old(nodes), n).Ok?
      ensures ok ==> nodes == StabilizeStep(old(nodes), n).value
    {
      if !nodes[n].alive {
        return false;
      }
      var best := BestSuccessor(nodes, nodes[n].successor);
      if best.None? {
        return true;
      }
      var cs := best.value;
      BestSuccessorSpec(nodes, nodes[n].successor);
      var x := nodes[cs].predecessor;
      if x.Some? && nodes[x.value].alive && Between(x.value, n, cs) {
        var s := nodes[n].successor;
        nodes := SetSuccessor(nodes, n, [x.value] + s[..|s| - 1]);
      }
      ghost var b := nodes;
      ok := Notify(cs, n);
      if !ok {
        ok := RecoverFromNotify(n, cs);
        if !ok {
          return false;
        }
      }
      assert Notified(b, n, cs) == Ok(nodes);
      ok := Settle(n);
    }

    /** The except branch of stabilize: remove cs, then append n's lookup of itself. */
    method RecoverFromNotify(n: int, cs: int) returns (ok: bool)
      requires Valid() && n in nodes
      modifies this
      ensures Valid()
      ensures ok == Recovered(old(nodes), n, cs).Ok?
      ensures ok ==> nodes == Recovered(old(nodes), n, cs).value
    {
      if cs !in nodes[n].successor {
        return false;
      }
      AllInMembers(nodes, nodes[n].successor, RemoveFirst(nodes[n].successor, cs));
      nodes := SetSuccessor(nodes, n, RemoveFirst(nodes[n].successor, cs));
      var t := Find(nodes, n, n, MaxDepth);
      if t.Fail? {
        return false;
      }
      nodes := SetSuccessor(nodes, n, nodes[n].successor + [t.value]);
      ok := true;
    }

    /** The end of stabilize: filter the live successors, refill them with lookups, cut the
        list to Tolerance + 1. */
    method Settle(n: int) returns (ok: bool)
      requires Valid() && n in nodes
      modifies this
      ensures Valid()
      ensures ok == Settled(old(nodes), n).Ok?
      ensures ok ==> nodes == Settled(old(nodes), n).value
      ensures !ok ==> nodes == old(nodes)
    {
      var s := AliveOnly(nodes, nodes[n].successor);
      ghost var start := s;
      while |s| < Tolerance + 1
        invariant AllIn(nodes, s)
        invariant Refill(nodes, n, start) == Refill(nodes, n, s)
        decreases Tolerance + 1 - |s|
      {
        var last := if s == [] then n else s[|s| - 1];
        var t := Find(nodes, last, last, MaxDepth);
        if t.Fail? {
          return false;
        }
        if t.value in s {
          break;
        }
        s := s + [t.value];
      }
      nodes := SetSuccessor(nodes, n, Take(s, Tolerance + 1));
      ok := true;
    }

    /** fix_finger_table on n. */
    method FixFingerTable(n: int) returns (ok: bool)
      requires Valid() && n in nodes
      modifies this
      ensures Valid()
      ensures ok == FixStep(old(nodes), n).Ok?
      ensures ok ==> nodes == FixStep(old(nodes), n).value
      ensures !ok ==> nodes == old(nodes)
    {
      if !nodes[n].alive {
        return false;
      }
      ghost var a := nodes;
      for i := 0 to HashSize
        invariant Closed(nodes) && n in nodes
        invariant nodes == FixUpTo(a, n, i)
      {
        FixOne(n, i);
      }
      ok := true;
    }

    /** One pass of fix_finger_table's loop: the try block and its except branch. */
    method FixOne(n: int, i: nat)
      requires Valid() && n in nodes && i < HashSize
      modifies this
      ensures Valid() && nodes == FixSlot(old(nodes), n, i)
    {
      var t := Find(nodes, n, FingerStart(n, i, IdSpace), MaxDepth);
      if t.Ok? {
        nodes := WithFinger(nodes, n, i, t.value);
      } else if !nodes[nodes[n].finger[i]].alive {
        var b := BestSuccessor(nodes, nodes[n].successor);
        nodes := WithFinger(nodes, n, i, if b.Some? then b.value else n);
      }
    }

    /** join(boot) on n. */
    method Join(n: int, boot: int) returns (ok: bool)
      requires Valid() && n in nodes && boot in nodes
      modifies this
      ensures Valid()
      ensures ok == JoinStep(old(nodes), n, boot).Ok?
      ensures ok ==> nodes == JoinStep(old(nodes), n, boot).value
    {
      if !nodes[n].alive {
        return false;
      }
      var succ := Link(n, boot);
      if succ.Fail? {
        return false;
      }
      ghost var l := nodes;
      ok := Stabilize(n);
      if !ok {
        assert StabilizeStep(l, n).Fail?;
        return false;
      }
      assert nodes == StabilizeStep(l, n).value;
      ok := FixFingerTable(n);
    }

    /** The first lines of join: clear the predecessor, let boot look n up, take the answer
        and its first Tolerance successors as n's list. */
    method Link(n: int, boot: int) returns (succ: Outcome<int>)
      requires Valid() && n in nodes && boot in nodes
      modifies this
      ensures Valid()
      ensures succ == Find(SetPredecessor(old(nodes), n, None), boot, n, MaxDepth)
      ensures succ.Ok? ==> nodes == Linked(old(nodes), n, succ.value)
    {
      var b := SetPredecessor(nodes, n, None);
      nodes := b;
      succ := Find(b, boot, n, MaxDepth);
      if succ.Ok? {
        var t := [succ.value] + Take(b[succ.value].successor, Tolerance);
        JoinListIn(b, succ.value, t);
        nodes := SetSuccessor(b, n, t);
      }
    }

    /** check_predecessor on n. */
    method CheckPredecessor(n: int) returns (ok: bool)
      requires Valid() && n in nodes
      modifies this
      ensures Valid()
      ensures ok == PredecessorChecked(old(nodes), n).Ok?
      ensures ok ==> nodes == PredecessorChecked(old(nodes), n).value
      ensures !ok ==> nodes == old(nodes)
    {
      if !nodes[n].alive {
        return false;
      }
      var p := nodes[n].predecessor;
      if p.Some? && !nodes[p.value].alive {
        nodes := SetPredecessor(nodes, n, None);
      }
      ok := true;
    }

    /** store(value) on n with its key. */
    method Store(n: int, key: int, v: Value) returns (ok: bool)
      requires Valid() && n in nodes
      modifies this
      ensures Valid()
      ensures ok == StoreStep(old(nodes), n, key, v).Ok?
      ensures ok ==> nodes == StoreStep(old(nodes), n, key, v).value
      ensures !ok ==> nodes == old(nodes)
    {
      if !nodes[n].alive {
        return false;
      }
      var t := Find(nodes, n, key, MaxDepth);
      if t.Fail? {
        return false;
      }
      var owner := t.value;
      UpdateClosed(nodes, owner, nodes[owner].(data := nodes[owner].data[key := v]));
      nodes := nodes[owner := nodes[owner].(data := nodes[owner].data[key := v])];
      ok := true;
    }

    /** delete(value) on n with its key: the popped value, or None. */
    method Delete(n: int, key: int) returns (r: Outcome<Option<Value>>)
      requires Valid() && n in nodes
      modifies this
      ensures Valid()
      ensures r == Retrieve(old(nodes), n, key)
      ensures r.Ok? == DeleteStep(old(nodes), n, key).Ok?
      ensures r.Ok? ==> nodes == DeleteStep(old(nodes), n, key).value
      ensures r.Fail? ==> nodes == old(nodes)
    {
      if !nodes[n].alive {
        return Fail(BadType);
      }
      var t := Find(nodes, n, key, MaxDepth);
      if t.Fail? {
        return Fail(t.fault);
      }
      var owner := t.value;
      r := Ok(if key in nodes[owner].data then Some(nodes[owner].data[key]) else None);
      UpdateClosed(nodes, owner, nodes[owner].(data := nodes[owner].data - {key}));
      nodes := nodes[owner := nodes[owner].(data := nodes[owner].data - {key})];
    }

    /** kill on n. */
    method Kill(n: int) returns (ok: bool)
      requires Valid() && n in nodes
      modifies this
      ensures Valid()
      ensures ok == KillStep(old(nodes), n).Ok?
      ensures ok ==> nodes == KillStep(old(nodes), n).value
      ensures !ok ==> nodes == old(nodes)
    {
      if !nodes[n].alive {
        return false;
      }
      UpdateClosed(nodes, n, nodes[n].(alive := false));
      nodes := nodes[n := nodes[n].(alive := false)];
      ok := true;
    }
  }
}
