/**
 * The cursor trail: a newest-first buffer of recent pointer positions, at most
 * `trailLength` long, that each frame is drawn from oldest to newest with a
 * head dot on the newest point.
 */
module Trail {
  import opened Wrappers

  /** A pointer position in client coordinates. */
  datatype Point = Point(x: real, y: real)

  /** `s` back to front. */
  function Reversed<T>(s: seq<T>): (r: seq<T>)
    ensures |r| == |s|
    ensures forall k :: 0 <= k < |s| ==> r[k] == s[|s| - 1 - k]
  {
    if s == [] then [] else Reversed(s[1..]) + [s[0]]
  }

  /** The last `n` elements of `s`, or all of `s` when it is shorter. */
  function Latest<T>(s: seq<T>, n: nat): (r: seq<T>)
    ensures |r| == if |s| <= n then |s| else n
    ensures forall k :: 0 <= k < |r| ==> r[k] == s[|s| - |r| + k]
  {
    if |s| <= n then s else s[|s| - n..]
  }

  /**
   * `onMove`: the new point goes in front (`unshift`); then, if the buffer is
   * longer than `cap`, its last element is dropped once (`pop`).
   */
  function AfterMove(points: seq<Point>, p: Point, cap: int): (r: seq<Point>)
    ensures |r| == if |points| < cap then |points| + 1 else |points|
    ensures |r| > 0 ==> r[0] == p
    ensures forall k :: 0 < k < |r| ==> r[k] == points[k - 1]
  {
    var grown := [p] + points;
    if |grown| > cap then grown[..|grown| - 1] else grown
  }

  /**
   * The three cases of `onMove`: below capacity the point is simply added in
   * front; at or over capacity the oldest point is dropped and the length
   * kept; a buffer within capacity stays within it.
   */
  lemma AfterMoveCases(points: seq<Point>, p: Point, cap: int)
    ensures cap >= 1 ==> AfterMove(points, p, cap)[0] == p
    ensures |points| + 1 <= cap ==> AfterMove(points, p, cap) == [p] + points
    ensures |points| + 1 > cap && |points| > 0 ==>
      AfterMove(points, p, cap) == [p] + points[..|points| - 1]
    ensures 0 <= cap && |points| <= cap ==> |AfterMove(points, p, cap)| <= cap
  {
    var r := AfterMove(points, p, cap);
    if |points| + 1 <= cap {
      assert r == [p] + points;
    } else if |points| > 0 {
      assert r == [p] + points[..|points| - 1];
    }
  }

  /** The buffer after a series of moves, oldest move first. */
  function Feed(points: seq<Point>, moves: seq<Point>, cap: int): seq<Point>
    decreases |moves|
  {
    if moves == [] then points
    else AfterMove(Feed(points, moves[..|moves| - 1], cap), moves[|moves| - 1], cap)
  }

  /** A buffer within capacity stays within capacity, however many moves follow. */
  lemma {:induction false} FeedStaysBounded(points: seq<Point>, moves: seq<Point>, cap: int)
    requires 0 <= cap && |points| <= cap
    ensures |Feed(points, moves, cap)| <= cap
  {
    if moves != [] {
      FeedStaysBounded(points, moves[..|moves| - 1], cap);
    }
  }

  /**
   * From the empty buffer, position k of the trail holds the k-th most recent
   * move, and the trail is as long as the number of moves, up to `cap`.
   */
  lemma {:induction false} FeedFromEmptyAt(moves: seq<Point>, cap: int)
    requires cap >= 0
    ensures |Feed([], moves, cap)| == if |moves| <= cap then |moves| else cap
    ensures forall k :: 0 <= k < |Feed([], moves, cap)| ==>
      Feed([], moves, cap)[k] == moves[|moves| - 1 - k]
  {
    if moves != [] {
      var n := |moves|;
      var earlier, p := moves[..n - 1], moves[n - 1];
      FeedFromEmptyAt(earlier, cap);
      var before := Feed([], earlier, cap);
      var after := AfterMove(before, p, cap);
      assert Feed([], moves, cap) == after;
      forall k | 0 < k < |after|
        ensures after[k] == moves[n - 1 - k]
      {
        assert after[k] == before[k - 1] == earlier[n - 1 - k];
      }
    }
  }

  /** Position k of the last `cap` moves, newest first, is the k-th most recent move. */
  lemma NewestFirstAt(moves: seq<Point>, cap: nat, k: nat)
    requires k < |Reversed(Latest(moves, cap))|
    ensures Reversed(Latest(moves, cap))[k] == moves[|moves| - 1 - k]
  {
    var recent := Latest(moves, cap);
    assert Reversed(recent)[k] == recent[|recent| - 1 - k];
  }

  /**
   * From the empty buffer, the trail holds exactly the last `cap` moves,
   * newest first.
   */
  lemma FeedFromEmpty(moves: seq<Point>, cap: int)
    requires cap >= 0
    ensures Feed([], moves, cap) == Reversed(Latest(moves, cap))
  {
    FeedFromEmptyAt(moves, cap);
    var got, want := Feed([], moves, cap), Reversed(Latest(moves, cap));
    forall k | 0 <= k < |want|
      ensures got[k] == want[k]
    {
      NewestFirstAt(moves, cap, k);
    }
  }

  /** Twelve remembered points and twenty moves: the twelve most recent, newest first. */
  lemma TwelveOfTwenty(moves: seq<Point>)
    requires |moves| == 20
    ensures Feed([], moves, 12) == Reversed(moves[8..])
    ensures Feed([], moves, 12)[0] == moves[19]
  {
    FeedFromEmpty(moves, 12);
  }

  /** `n-1, n-2, ..., 0`: the indices the draw loop visits, in order. */
  function Countdown(n: nat): (r: seq<nat>)
    ensures |r| == n
    ensures forall k :: 0 <= k < n ==> r[k] == n - 1 - k
  {
    if n == 0 then [] else [n - 1] + Countdown(n - 1)
  }

  /** The draw loop visits every index of the buffer exactly once, and nothing else. */
  lemma {:induction false} CountdownVisitsEachOnce(n: nat, j: int)
    ensures multiset(Countdown(n))[j] == if 0 <= j < n then 1 else 0
  {
    if n > 0 {
      CountdownVisitsEachOnce(n - 1, j);
      assert Countdown(n) == [n - 1] + Countdown(n - 1);
    }
  }

  /** The trail of one cursor: the buffer held in `points.current`. */
  class TrailBuffer {
    const trailLength: int
    var points: seq<Point>

    /** A negative `trailLength` keeps the buffer empty, like a zero one. */
    function Capacity(): (c: nat)
      reads this
      ensures trailLength >= 0 ==> c == trailLength
      ensures trailLength < 0 ==> c == 0
    {
      if trailLength < 0 then 0 else trailLength
    }

    ghost predicate Valid()
      reads this
    {
      |points| <= Capacity()
    }

    /** Mounting: no point is remembered yet. */
    constructor (trailLength: int)
      ensures Valid()
      ensures this.trailLength == trailLength && points == []
    {
      this.trailLength := trailLength;
      points := [];
    }

    /** A pointer move (`onMove`): `unshift`, then at most one `pop`. */
    method OnMove(p: Point)
      requires Valid()
      modifies this`points
      ensures Valid()
      ensures points == AfterMove(old(points), p, trailLength)
      ensures trailLength >= 1 ==> points[0] == p
    {
      points := [p] + points;
      if |points| > trailLength {
        points := points[..|points| - 1];
      }
    }

    /**
     * One frame of `draw`: the indices the trail loop visits, the points it
     * draws in that order, and the head dot, if there is one.
     */
    method Draw() returns (visits: seq<nat>, trail: seq<Point>, head: Option<Point>)
      ensures visits == Countdown(|points|)
      ensures trail == Reversed(points)
      ensures head.Some? <==> |points| > 0
      ensures head.Some? ==> head.value == points[0]
    {
      var n := |points|;
      visits, trail := [], [];
      var i := n - 1;
      while i >= 0
        invariant -1 <= i < n
        invariant |visits| == |trail| == n - 1 - i
        invariant forall k :: 0 <= k < |visits| ==> visits[k] == n - 1 - k
        invariant forall k :: 0 <= k < |trail| ==> trail[k] == points[n - 1 - k]
      {
        visits := visits + [i];
        trail := trail + [points[i]];
        i := i - 1;
      }
      head := if n > 0 then Some(points[0]) else None;
    }
  }
}
