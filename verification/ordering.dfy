/**
 * The stable sort the layout applies to the regular nodes: by location y
 * descending, then x ascending, equal keys keeping their input order.
 * Positions are sorted rather than nodes; since the input position breaks
 * every tie, the order is strict and total and the sorted result unique.
 */
module Ordering {

  /** A node's location as the sort reads it. */
  datatype Point = Point(x: real, y: real)

  /** Position `i` comes before position `j`: higher first, then further
      left, then earlier in the input. */
  predicate Before(ps: seq<Point>, i: nat, j: nat)
    requires i < |ps| && j < |ps|
  {
    || ps[i].y > ps[j].y
    || (ps[i].y == ps[j].y && ps[i].x < ps[j].x)
    || (ps[i].y == ps[j].y && ps[i].x == ps[j].x && i < j)
  }

  predicate InRange(ps: seq<Point>, s: seq<nat>) {
    forall k :: 0 <= k < |s| ==> s[k] < |ps|
  }

  predicate Sorted(ps: seq<Point>, s: seq<nat>)
    requires InRange(ps, s)
  {
    forall a, b :: 0 <= a < b < |s| ==> Before(ps, s[a], s[b])
  }

  /** The positions `0 .. n-1` in order. */
  function Positions(n: nat): (r: seq<nat>)
    ensures |r| == n && forall k :: 0 <= k < n ==> r[k] == k
  {
    if n == 0 then [] else Positions(n - 1) + [n - 1]
  }

  lemma BeforeTotal(ps: seq<Point>, i: nat, j: nat)
    requires i < |ps| && j < |ps| && i != j
    ensures Before(ps, i, j) != Before(ps, j, i)
  {
  }

  lemma BeforeTransitive(ps: seq<Point>, i: nat, j: nat, k: nat)
    requires i < |ps| && j < |ps| && k < |ps|
    requires Before(ps, i, j) && Before(ps, j, k)
    ensures Before(ps, i, k)
  {
  }

  /** Insertion of position `i` into a sorted sequence. */
  function Insert(ps: seq<Point>, i: nat, s: seq<nat>): (r: seq<nat>)
    requires i < |ps| && InRange(ps, s)
    ensures InRange(ps, r)
    ensures multiset(r) == multiset(s) + multiset{i}
    ensures |r| == |s| + 1
  {
    if s == [] then [i]
    else if Before(ps, i, s[0]) then [i] + s
    else
      var rest := Insert(ps, i, s[1..]);
      assert s == [s[0]] + s[1..];
      [s[0]] + rest
  }

  lemma {:induction false} InsertSorted(ps: seq<Point>, i: nat, s: seq<nat>)
    requires i < |ps| && InRange(ps, s) && Sorted(ps, s) && i !in s
    ensures Sorted(ps, Insert(ps, i, s))
  {
    if s != [] && !Before(ps, i, s[0]) {
      assert s[0] != i;
      BeforeTotal(ps, i, s[0]);
      InsertSorted(ps, i, s[1..]);
      var rest := Insert(ps, i, s[1..]);
      var r := [s[0]] + rest;
      forall b | 0 < b < |r| ensures Before(ps, r[0], r[b]) {
        assert r[b] in multiset(rest);
        assert r[b] in multiset(s[1..]) + multiset{i};
        if r[b] != i {
          assert r[b] in s[1..];
          var k :| 0 <= k < |s[1..]| && s[1..][k] == r[b];
          assert s[k + 1] == r[b];
        }
      }
    } else if s != [] {
      var r := [i] + s;
      forall a, b | 0 <= a < b < |r| ensures Before(ps, r[a], r[b]) {
        if a == 0 && b > 1 {
          BeforeTransitive(ps, i, s[0], s[b - 1]);
        }
      }
    }
  }

  /** Insertion sort of the positions `s`. */
  function Sort(ps: seq<Point>, s: seq<nat>): (r: seq<nat>)
    requires InRange(ps, s)
    ensures InRange(ps, r)
    ensures multiset(r) == multiset(s)
  {
    if s == [] then []
    else
      assert s == [s[0]] + s[1..];
      Insert(ps, s[0], Sort(ps, s[1..]))
  }

  lemma {:induction false} SortSorted(ps: seq<Point>, s: seq<nat>)
    requires InRange(ps, s)
    requires forall a, b :: 0 <= a < b < |s| ==> s[a] != s[b]
    ensures Sorted(ps, Sort(ps, s))
  {
    if s != [] {
      SortSorted(ps, s[1..]);
      assert s[0] !in s[1..];
      assert s[0] !in Sort(ps, s[1..]) by {
        assert s[0] !in multiset(s[1..]);
        assert multiset(Sort(ps, s[1..])) == multiset(s[1..]);
        assert s[0] !in multiset(Sort(ps, s[1..]));
      }
      InsertSorted(ps, s[0], Sort(ps, s[1..]));
    }
  }

  /** The order in which the layout visits the points `ps`. */
  function SortedPositions(ps: seq<Point>): (r: seq<nat>)
    ensures InRange(ps, r)
  {
    Sort(ps, Positions(|ps|))
  }

  /** The sorted positions are a permutation of `0 .. |ps|-1` in strictly
      increasing `Before` order: the stable sort by (y descending, x ascending). */
  lemma SortedPositionsSpec(ps: seq<Point>)
    ensures multiset(SortedPositions(ps)) == multiset(Positions(|ps|))
    ensures |SortedPositions(ps)| == |ps|
    ensures Sorted(ps, SortedPositions(ps))
    ensures forall k: nat :: k in SortedPositions(ps) <==> k < |ps|
  {
    var r := SortedPositions(ps);
    var pos := Positions(|ps|);
    SortSorted(ps, pos);
    assert |r| == |multiset(r)| == |multiset(pos)| == |ps|;
    forall k: nat ensures k in r <==> k < |ps| {
      assert k in r <==> k in multiset(r);
      assert k in pos <==> k in multiset(pos);
      if k < |ps| {
        assert pos[k] == k;
      } else {
        assert forall j :: 0 <= j < |pos| ==> pos[j] < |ps|;
      }
    }
  }
}
