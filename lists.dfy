/** List operations of Python's built-in list that the ring variants use on successor lists,
    and the set helpers their loops over dict keys need. */
module Lists {
  import opened Wrappers

  /** The position of the first occurrence of x in s. */
  function FirstIndex(s: seq<int>, x: int): (i: nat)
    requires x in s
    ensures i < |s| && s[i] == x && x !in s[..i]
  {
    if s[0] == x then 0
    else
      var j := FirstIndex(s[1..], x);
      assert s[..j + 1] == [s[0]] + s[1..][..j];
      j + 1
  }

  /** Python's list.remove(x) on a list that holds x, and the list itself otherwise: the
      first occurrence goes. */
  function RemoveFirst(s: seq<int>, x: int): (r: seq<int>)
    ensures forall y | y in r :: y in s
  {
    if s == [] then []
    else if s[0] == x then s[1..]
    else [s[0]] + RemoveFirst(s[1..], x)
  }

  /** RemoveFirst leaves a list without x alone, and otherwise cuts out exactly the first x. */
  lemma {:induction false} RemoveFirstSpec(s: seq<int>, x: int)
    ensures x !in s ==> RemoveFirst(s, x) == s
    ensures x in s ==> RemoveFirst(s, x) == s[..FirstIndex(s, x)] + s[FirstIndex(s, x) + 1..]
  {
    if s != [] && s[0] != x {
      RemoveFirstSpec(s[1..], x);
      if x in s {
        var i := FirstIndex(s[1..], x);
        assert FirstIndex(s, x) == i + 1;
        assert s[..i + 1] == [s[0]] + s[1..][..i];
        assert s[i + 2..] == s[1..][i + 1..];
      } else {
        assert s == [s[0]] + s[1..];
      }
    }
  }

  /** The slice s[:k]: the first k entries, or all of s when it is shorter. */
  function Take(s: seq<int>, k: nat): (r: seq<int>)
    ensures |r| <= k && |r| <= |s|
    ensures |s| <= k ==> r == s
    ensures |s| > k ==> |r| == k
    ensures forall j | 0 <= j < |r| :: r[j] == s[j]
  {
    if |s| <= k then s else s[..k]
  }

  /** No entry occurs twice. */
  predicate NoDuplicates(s: seq<int>) {
    forall i, j | 0 <= i < j < |s| :: s[i] != s[j]
  }

  /** `list({x: x for x in s}.values())`: a dict keeps the position of the first occurrence
      of each key, so this is s with every repeated entry after its first dropped. */
  function Distinct(s: seq<int>): (r: seq<int>)
    ensures |r| <= |s|
    ensures s != [] ==> |r| > 0 && r[0] == s[0]
    decreases |s|
  {
    if s == [] then []
    else
      var r := Distinct(s[..|s| - 1]);
      if s[|s| - 1] in r then r else r + [s[|s| - 1]]
  }

  /** Distinct keeps every entry once and adds none. */
  lemma {:induction false} DistinctSpec(s: seq<int>)
    ensures NoDuplicates(Distinct(s))
    ensures forall x :: x in Distinct(s) <==> x in s
    ensures |Distinct(s)| <= |s|
    ensures NoDuplicates(s) ==> Distinct(s) == s
    decreases |s|
  {
    if s != [] {
      var p := s[..|s| - 1];
      DistinctSpec(p);
      assert s == p + [s[|s| - 1]];
      if NoDuplicates(s) {
        assert NoDuplicates(p);
      }
    }
  }

  /** A slice of a list without repeats has none either. */
  lemma TakeNoDuplicates(s: seq<int>, k: nat)
    requires NoDuplicates(s)
    ensures NoDuplicates(Take(s, k))
  {
  }

  /** Appending an entry not yet present keeps a list free of duplicates. */
  lemma AppendFresh(s: seq<int>, t: int)
    requires NoDuplicates(s) && t !in s
    ensures NoDuplicates(s + [t])
  {
    forall i, j | 0 <= i < j < |s| + 1 ensures (s + [t])[i] != (s + [t])[j] {
      if j == |s| {
        assert (s + [t])[i] == s[i];
      }
    }
  }

  /** A list that starts with s + [t] starts with s, followed by t. */
  lemma ExtendedPrefix(s: seq<int>, t: int, r: seq<int>)
    requires |s| + 1 <= |r| && r[..|s| + 1] == s + [t]
    ensures r[..|s|] == s && r[|s|] == t
  {
    assert r[..|s|] == r[..|s| + 1][..|s|];
    assert r[|s|] == r[..|s| + 1][|s|];
  }

  /** The outcome o with p put in front of its list. */
  function Prefixed(p: seq<int>, o: Outcome<seq<int>>): (r: Outcome<seq<int>>)
    ensures r.Ok? <==> o.Ok?
  {
    match o
    case Fail(f) => Fail(f)
    case Ok(s) => Ok(p + s)
  }

  /** Glue for loops that start from an empty prefix: putting nothing in front changes
      nothing. */
  lemma PrefixedEmpty(o: Outcome<seq<int>>)
    ensures Prefixed([], o) == o
  {
    if o.Ok? {
      assert [] + o.value == o.value;
    }
  }

  /** Some element of a non-empty set, for loops that take the elements of a dict in an
      order left open. */
  method Pick(s: set<int>) returns (x: int)
    requires s != {}
    ensures x in s
  {
    EmptyOrMember(s);
    x :| x in s;
  }

  /** Glue for `:|` on a set known to be non-empty: it is empty or has a member. */
  lemma EmptyOrMember(s: set<int>)
    ensures s == {} || exists x :: x in s
  {
    if forall x :: x !in s {
      assert s == {};
    }
  }

  /** x is the smallest member of s. */
  predicate IsLeast(x: int, s: set<int>) {
    x in s && forall j | j in s :: x <= j
  }

  /** Every finite non-empty set of integers has a smallest member. */
  lemma {:induction false} HasLeast(s: set<int>)
    requires s != {}
    ensures exists x :: IsLeast(x, s)
    decreases |s|
  {
    EmptyOrMember(s);
    var y :| y in s;
    var t := s - {y};
    if t == {} {
      assert s == {y};
      assert IsLeast(y, s);
    } else {
      HasLeast(t);
      var z :| IsLeast(z, t);
      assert forall j | j in s :: j == y || j in t;
      if y < z {
        assert IsLeast(y, s);
      } else {
        assert IsLeast(z, s);
      }
    }
  }

  /** The smallest member of a non-empty set, for loops that take a dict's keys in ascending
      order. */
  function Least(s: set<int>): (m: int)
    requires s != {}
    ensures m in s && forall j | j in s :: m <= j
  {
    HasLeast(s);
    var x :| IsLeast(x, s);
    x
  }
}
