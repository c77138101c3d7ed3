/** Identifier-space arithmetic shared by the four ring variants. */
module Ring {

  /** 2^i. */
  function Pow2(i: nat): (r: nat)
    ensures r >= 1
  {
    if i == 0 then 1 else 2 * Pow2(i - 1)
  }

  /** x lies strictly inside the circular arc from a to b. When a >= b the arc wraps. Neither
      end point is inside. */
  predicate Between(x: int, a: int, b: int)
    ensures Between(x, a, b) ==> x != a && x != b
  {
    if a < b then a < x < b else a < x || x < b
  }

  /** x lies on the circular arc (a, b]: the arc above, with b included. Its start a is
      outside unless the arc is the whole ring. */
  predicate BetweenRightIncl(x: int, a: int, b: int)
    ensures x == b ==> BetweenRightIncl(x, a, b)
    ensures BetweenRightIncl(x, a, b) && a != b ==> x != a
  {
    if a < b then a < x <= b else a < x || x <= b
  }

  /** The inclusive arc is the strict one with its end point added. */
  lemma RightInclIsBetweenOrEnd(x: int, a: int, b: int)
    ensures BetweenRightIncl(x, a, b) <==> Between(x, a, b) || x == b
  {
  }

  /** For distinct a and b the arcs (a, b] and (b, a] split the ring: every x lies on exactly
      one of them. */
  lemma ArcsPartition(x: int, a: int, b: int)
    requires a != b
    ensures BetweenRightIncl(x, a, b) != BetweenRightIncl(x, b, a)
  {
  }

  /** The identifier that finger i of node id aims at: (id + 2^i) mod space. */
  function FingerStart(id: int, i: nat, space: nat): (r: int)
    requires space > 0
    ensures 0 <= r < space
  {
    (id + Pow2(i)) % space
  }

  /** The degenerate arc (a, a] is the whole ring, and the strict arc (a, a) all of it but a. */
  lemma DegenerateArcs(x: int, a: int)
    ensures BetweenRightIncl(x, a, a)
    ensures Between(x, a, a) <==> x != a
  {
  }

  /** At most n distinct identifiers fit in [0, n). */
  lemma {:induction false} IdsBounded(s: set<int>, n: nat)
    requires forall x | x in s :: 0 <= x < n
    ensures |s| <= n
  {
    if n > 0 {
      var t := s - {n - 1};
      IdsBounded(t, n - 1);
      assert s <= t + {n - 1};
      assert |t + {n - 1}| <= |t| + 1;
      SubsetCard(s, t + {n - 1});
    } else {
      assert forall x :: x !in s;
      assert s == {};
    }
  }

  /** A subset is no larger than its superset. */
  lemma {:induction false} SubsetCard(a: set<int>, b: set<int>)
    requires a <= b
    ensures |a| <= |b|
  {
    assert b == a + (b - a);
  }
}
