/**
 * The certificate carousel: a current index over a fixed list of certificates,
 * moved by prev/next/dot buttons and by a periodic tick that only advances
 * while the pointer is not hovering the carousel.
 */
module Carousel {
  import opened Wrappers

  /** One certificate; every field but the title is optional. */
  datatype Cert = Cert(
    title: string,
    issuer: Option<string>,
    date: Option<string>,
    image: Option<string>,
    link: Option<string>)

  lemma MulAtLeast(d: int, n: int)
    requires d >= 1 && n > 0
    ensures d * n >= n
  {
    assert d * n == (d - 1) * n + n;
  }

  /** Euclidean division is determined by its quotient and remainder. */
  lemma DivModUnique(a: int, n: int, q: int, r: int)
    requires n > 0 && 0 <= r < n && a == q * n + r
    ensures a % n == r && a / n == q
  {
    var q0, r0 := a / n, a % n;
    var d := q - q0;
    assert d * n == r0 - r by {
      assert q * n - q0 * n == d * n;
    }
    if d > 0 {
      MulAtLeast(d, n);
    } else if d < 0 {
      MulAtLeast(-d, n);
    }
  }

  /**
   * JavaScript's `%` for a positive divisor: it truncates toward zero, so the
   * remainder takes the sign of the dividend (Dafny's own `%` is Euclidean).
   */
  function JsRem(a: int, n: int): (r: int)
    requires n > 0
    ensures a >= 0 ==> 0 <= r < n && r == a % n
    ensures a < 0 ==> -n < r <= 0
    ensures (a - r) % n == 0
  {
    if a >= 0 then
      DivModUnique(a - a % n, n, a / n, 0);
      a % n
    else
      DivModUnique(a + (-a) % n, n, -((-a) / n), 0);
      -((-a) % n)
  }

  /** `next`: `(i + 1) % items.length`. */
  function NextIndex(i: int, len: int): (r: int)
    requires len > 0
    ensures 0 <= i < len ==> 0 <= r < len
    ensures 0 <= i < len ==> (r == i + 1 || (i == len - 1 && r == 0))
  {
    JsRem(i + 1, len)
  }

  /** `prev`: `(i - 1 + items.length) % items.length`. */
  function PrevIndex(i: int, len: int): (r: int)
    requires len > 0
    ensures 0 <= i < len ==> 0 <= r < len
    ensures 0 <= i < len ==> (r == i - 1 || (i == 0 && r == len - 1))
  {
    JsRem(i - 1 + len, len)
  }

  /** `go(i)`: `i % items.length`, the truncating remainder. */
  function GoIndex(i: int, len: int): (r: int)
    requires len > 0
    ensures 0 <= i < len ==> r == i
    ensures -len < r < len
  {
    if 0 <= i < len then DivModUnique(i, len, 0, i); JsRem(i, len)
    else JsRem(i, len)
  }

  /** `prev` undoes `next` and `next` undoes `prev` on every valid index. */
  lemma PrevNextInverse(i: int, len: int)
    requires len > 0 && 0 <= i < len
    ensures PrevIndex(NextIndex(i, len), len) == i
    ensures NextIndex(PrevIndex(i, len), len) == i
  {
  }

  /**
   * `go` is the truncating remainder, not a wrap-around: a negative target
   * would leave the index negative. The dot buttons only pass 0..len-1.
   */
  lemma GoNegativeStaysNegative(i: int, len: int)
    requires len > 0 && i < 0 && i % len != 0
    ensures GoIndex(i, len) < 0
    ensures GoIndex(i, len) != i % len
  {
  }

  /** `next` applied k times. */
  function NextIter(i: int, len: int, k: nat): (r: int)
    requires len > 0
    ensures 0 <= i < len ==> 0 <= r < len
  {
    if k == 0 then i else NextIndex(NextIter(i, len, k - 1), len)
  }

  lemma {:induction false} ModSucc(a: nat, len: int)
    requires len > 0
    ensures (a % len + 1) % len == (a + 1) % len
  {
    var q, r := a / len, a % len;
    if r + 1 < len {
      DivModUnique(a + 1, len, q, r + 1);
      DivModUnique(r + 1, len, 0, r + 1);
    } else {
      DivModUnique(a + 1, len, q + 1, 0);
      DivModUnique(r + 1, len, 1, 0);
    }
  }

  /** k steps of `next` from a valid index land k places further, modulo the length. */
  lemma {:induction false} NextIterIsShift(i: int, len: int, k: nat)
    requires len > 0 && 0 <= i < len
    ensures NextIter(i, len, k) == (i + k) % len
  {
    if k > 0 {
      NextIterIsShift(i, len, k - 1);
      ModSucc(i + k - 1, len);
    }
  }

  /** The cyclic law: `next` applied len times returns to the start. */
  lemma NextFullCycle(i: int, len: int)
    requires len > 0 && 0 <= i < len
    ensures NextIter(i, len, len) == i
  {
    NextIterIsShift(i, len, len);
    DivModUnique(i + len, len, 1, i);
  }

  /** The rotation state: the current index and the auto-advance flag. */
  datatype Rotation = Rotation(index: int, running: bool)

  /** The events the carousel reacts to; `Tick` is one firing of the interval. */
  datatype Event = Tick | HoverEnter | HoverLeave | Prev | Next | Go(target: int)

  /** The rotation state a freshly mounted carousel starts in. */
  function Initial(): (s: Rotation)
    ensures s.index == 0 && s.running
  {
    Rotation(0, true)
  }

  /**
   * One event. A tick advances only while running; hovering changes only the
   * flag; manual navigation changes only the index.
   */
  function Step(len: int, s: Rotation, e: Event): (t: Rotation)
    requires len > 0
    ensures e.HoverEnter? ==> t == s.(running := false)
    ensures e.HoverLeave? ==> t == s.(running := true)
    ensures e.Tick? && !s.running ==> t == s
    ensures e.Tick? && s.running ==> t == s.(index := NextIndex(s.index, len))
    ensures e.Prev? ==> t == s.(index := PrevIndex(s.index, len))
    ensures e.Next? ==> t == s.(index := NextIndex(s.index, len))
    ensures e.Go? ==> t == s.(index := GoIndex(e.target, len))
    ensures e.Prev? || e.Next? || e.Go? ==> t.running == s.running
  {
    match e
    case Tick => if s.running then s.(index := NextIndex(s.index, len)) else s
    case HoverEnter => s.(running := false)
    case HoverLeave => s.(running := true)
    case Prev => s.(index := PrevIndex(s.index, len))
    case Next => s.(index := NextIndex(s.index, len))
    case Go(i) => s.(index := GoIndex(i, len))
  }

  /** A sequence of events, applied in order. */
  function Run(len: int, s: Rotation, events: seq<Event>): Rotation
    requires len > 0
    decreases |events|
  {
    if events == [] then s
    else Step(len, Run(len, s, events[..|events| - 1]), events[|events| - 1])
  }

  /** The events the page can produce: dot buttons only target existing items. */
  predicate Reachable(len: int, e: Event)
  {
    e.Go? ==> 0 <= e.target < len
  }

  /** Every sequence of reachable events keeps the index within the list. */
  lemma {:induction false} RunKeepsIndexInRange(len: int, s: Rotation, events: seq<Event>)
    requires len > 0 && 0 <= s.index < len
    requires forall k :: 0 <= k < |events| ==> Reachable(len, events[k])
    ensures 0 <= Run(len, s, events).index < len
  {
    if events != [] {
      RunKeepsIndexInRange(len, s, events[..|events| - 1]);
    }
  }

  /** k consecutive ticks, and nothing else. */
  function Ticks(k: nat): (events: seq<Event>)
    ensures |events| == k && forall j :: 0 <= j < k ==> events[j] == Tick
  {
    seq(k, _ => Tick)
  }

  /** While paused, any number of ticks changes nothing. */
  lemma {:induction false} PausedTicksAreIgnored(len: int, s: Rotation, k: nat)
    requires len > 0 && !s.running
    ensures Run(len, s, Ticks(k)) == s
  {
    if k > 0 {
      assert Ticks(k)[..k - 1] == Ticks(k - 1);
      PausedTicksAreIgnored(len, s, k - 1);
    }
  }

  /** While running, k ticks act as k presses of `next`. */
  lemma {:induction false} RunningTicksAdvance(len: int, s: Rotation, k: nat)
    requires len > 0 && s.running
    ensures Run(len, s, Ticks(k)) == s.(index := NextIter(s.index, len, k))
  {
    if k > 0 {
      assert Ticks(k)[..k - 1] == Ticks(k - 1);
      RunningTicksAdvance(len, s, k - 1);
    }
  }

  /**
   * A running carousel left alone for `len` ticks shows the item it started
   * on again.
   */
  lemma RunningTicksCycle(len: int, s: Rotation)
    requires len > 0 && s.running && 0 <= s.index < len
    ensures Run(len, s, Ticks(len)) == s
  {
    RunningTicksAdvance(len, s, len);
    NextFullCycle(s.index, len);
  }

  /**
   * Three items, the default 5000 ms interval, 12000 ms without hovering: the
   * interval fires 12000 / 5000 == 2 times and the third item is shown.
   */
  lemma ThreeItemsAfterTwelveSeconds()
    ensures Run(3, Initial(), Ticks(12000 / 5000)).index == 2
  {
    RunningTicksAdvance(3, Initial(), 2);
  }

  /** Hover-enter followed by a tick leaves the index where it was. */
  lemma HoverEnterThenTick(len: int, s: Rotation)
    requires len > 0
    ensures Run(len, s, [HoverEnter, Tick]) == Rotation(s.index, false)
  {
    assert [HoverEnter, Tick][..1] == [HoverEnter];
    assert [HoverEnter][..0] == [];
  }

  /** Hover-leave followed by a tick advances the index exactly once. */
  lemma HoverLeaveThenTick(len: int, s: Rotation)
    requires len > 0
    ensures Run(len, s, [HoverLeave, Tick]) == Rotation(NextIndex(s.index, len), true)
  {
    assert [HoverLeave, Tick][..1] == [HoverLeave];
    assert [HoverLeave][..0] == [];
  }

  /**
   * The mounted carousel. `timerArmed` stands for the interval held in
   * `timerRef`; it exists only when there are at least two items.
   */
  class Rotator {
    const items: seq<Cert>
    var index: int
    var running: bool
    var timerArmed: bool

    ghost predicate Valid()
      reads this
    {
      (|items| == 0 ==> index == 0) &&
      (|items| > 0 ==> 0 <= index < |items|) &&
      (timerArmed <==> |items| > 1)
    }

    ghost function State(): Rotation
      reads this
    {
      Rotation(index, running)
    }

    /** Mounting: index 0, auto-advance on, and a timer only for two or more items. */
    constructor (items: seq<Cert>)
      ensures Valid() && this.items == items
      ensures State() == Initial()
      ensures timerArmed <==> |items| > 1
    {
      this.items := items;
      index := 0;
      running := true;
      timerArmed := |items| > 1;
    }

    /** One firing of the interval callback. */
    method Tick()
      requires Valid() && timerArmed
      modifies this`index
      ensures Valid()
      ensures State() == Step(|items|, old(State()), Event.Tick)
      ensures index == if running then NextIndex(old(index), |items|) else old(index)
    {
      if running {
        index := NextIndex(index, |items|);
      }
    }

    /** `onMouseEnter`: pause auto-advance. */
    method HoverEnter()
      requires Valid() && |items| > 0
      modifies this`running
      ensures Valid()
      ensures State() == Step(|items|, old(State()), Event.HoverEnter)
      ensures !running && index == old(index)
    {
      running := false;
    }

    /** `onMouseLeave`: resume auto-advance. */
    method HoverLeave()
      requires Valid() && |items| > 0
      modifies this`running
      ensures Valid()
      ensures State() == Step(|items|, old(State()), Event.HoverLeave)
      ensures running && index == old(index)
    {
      running := true;
    }

    /** The previous-item button. */
    method Prev()
      requires Valid() && |items| > 0
      modifies this`index
      ensures Valid()
      ensures State() == Step(|items|, old(State()), Event.Prev)
      ensures index == PrevIndex(old(index), |items|)
    {
      index := PrevIndex(index, |items|);
    }

    /** The next-item button. */
    method Next()
      requires Valid() && |items| > 0
      modifies this`index
      ensures Valid()
      ensures State() == Step(|items|, old(State()), Event.Next)
      ensures index == NextIndex(old(index), |items|)
    {
      index := NextIndex(index, |items|);
    }

    /** The dot button for item `i`; the dots are drawn one per item. */
    method Go(i: int)
      requires Valid() && 0 <= i < |items|
      modifies this`index
      ensures Valid()
      ensures State() == Step(|items|, old(State()), Event.Go(i))
      ensures index == i
    {
      index := GoIndex(i, |items|);
    }
  }

  /** What the carousel shows: the controls flag and one active flag per dot. */
  datatype View = View(offsetPercent: int, controls: bool, dots: seq<bool>)

  /** The number of `true` flags. */
  function CountActive(dots: seq<bool>): nat
  {
    if dots == [] then 0 else (if dots[0] then 1 else 0) + CountActive(dots[1..])
  }

  /** A sequence that is `true` only at position `at` has one `true` if `at` is in range. */
  lemma {:induction false} CountSingleActive(dots: seq<bool>, at: int)
    requires forall j :: 0 <= j < |dots| ==> (dots[j] <==> j == at)
    ensures CountActive(dots) == if 0 <= at < |dots| then 1 else 0
  {
    if dots != [] {
      CountSingleActive(dots[1..], at - 1);
    }
  }

  /**
   * Rendering: nothing for an empty list; otherwise the track shifted to
   * `index`, and the controls with one dot per item when there are two or more.
   */
  function Render(items: seq<Cert>, index: int): (v: Option<View>)
    ensures v.None? <==> |items| == 0
    ensures v.Some? ==> v.value.offsetPercent == index * 100
    ensures v.Some? ==> (v.value.controls <==> |items| > 1)
    ensures v.Some? && |items| > 1 ==> |v.value.dots| == |items|
    ensures v.Some? ==> forall j :: 0 <= j < |v.value.dots| ==> (v.value.dots[j] <==> j == index)
    ensures v.Some? && |items| <= 1 ==> v.value.dots == []
  {
    if |items| == 0 then None
    else
      var controls := |items| > 1;
      Some(View(index * 100, controls, if controls then seq(|items|, j => j == index) else []))
  }

  /** With a valid index and two or more items, exactly one dot is active: the one at `index`. */
  lemma RenderOneActiveDot(items: seq<Cert>, index: int)
    requires |items| > 1 && 0 <= index < |items|
    ensures Render(items, index).Some?
    ensures CountActive(Render(items, index).value.dots) == 1
    ensures Render(items, index).value.dots[index]
  {
    CountSingleActive(Render(items, index).value.dots, index);
  }
}
