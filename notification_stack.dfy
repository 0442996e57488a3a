/** The notification stack: a newest-first list of balloons, a soft capacity
    that never drops unfinished progress balloons, a single expanded
    screenshot balloon, and an idle timer that hides the stack unless work is
    still in progress. */
module Notifications {
  import opened ItemList
  import IdleClock

  /** `MaxItems`: the soft capacity of the stack. */
  const MaxItems: nat := 5

  /** The concrete balloon types the stack tells apart. */
  datatype Kind = Plain | Progress | ScreenShot

  /** A notification balloon. Its identity is the object reference. */
  class Balloon {
    const kind: Kind
    /** Whether the balloon raises `RemoveRequested` (`IRemoveRequester`). */
    const requester: bool
    /** `ViewModel.Finished` of a progress balloon; updated by its producer. */
    var finished: bool
    /** `Expander.IsExpanded` of a screenshot balloon. */
    var expanded: bool

    constructor (kind: Kind, requester: bool, finished: bool, expanded: bool)
      ensures this.kind == kind && this.requester == requester
      ensures this.finished == finished && this.expanded == expanded
    {
      this.kind := kind;
      this.requester := requester;
      this.finished := finished;
      this.expanded := expanded;
    }
  }

  /** A progress balloon whose work is not finished: protected from eviction
      and from idle hiding. */
  predicate Unfinished(b: Balloon)
    reads b
  {
    b.kind == Progress && !b.finished
  }

  /** Whether some balloon of `items` is unfinished. */
  predicate AnyUnfinished(items: seq<Balloon>)
    reads items
  {
    exists i :: 0 <= i < |items| && Unfinished(items[i])
  }

  /** A screenshot balloon shown expanded. */
  predicate ExpandedScreenShot(b: Balloon)
    reads b
  {
    b.kind == ScreenShot && b.expanded
  }

  /** Exclusive expand: no two positions of `items` hold expanded screenshots. */
  predicate AtMostOneExpanded(items: seq<Balloon>)
    reads items
  {
    forall i, j ::
      (0 <= i < |items| && 0 <= j < |items| && ExpandedScreenShot(items[i]) && ExpandedScreenShot(items[j]))
      ==> i == j
  }

  /** Putting any balloon in front of a list whose screenshots are all
      collapsed leaves at most one expanded screenshot, and only the new
      balloon can be it. */
  lemma ExclusiveAfterInsert(e: Balloon, rest: seq<Balloon>)
    requires forall b :: b in rest && b.kind == ScreenShot ==> !b.expanded
    ensures AtMostOneExpanded([e] + rest)
    ensures forall i :: 0 < i < |[e] + rest| ==> !ExpandedScreenShot(([e] + rest)[i])
  {
    forall i | 0 < i < |[e] + rest| ensures !ExpandedScreenShot(([e] + rest)[i]) {
      assert ([e] + rest)[i] == rest[i - 1];
    }
  }

  /** The balloons of `tail` that the eviction pass removes, in order. */
  function Evictable(tail: seq<Balloon>): seq<Balloon>
    reads tail
  {
    if tail == [] then []
    else (if Unfinished(tail[0]) then [] else [tail[0]]) + Evictable(tail[1..])
  }

  /** The balloons of `tail` that the eviction pass skips, in order. */
  function Protected(tail: seq<Balloon>): seq<Balloon>
    reads tail
  {
    if tail == [] then []
    else (if Unfinished(tail[0]) then [tail[0]] else []) + Protected(tail[1..])
  }

  /** A balloon of the tail is evicted exactly when it is not an unfinished
      progress balloon, and nothing outside the tail is evicted. */
  lemma {:induction false} EvictableMembers(tail: seq<Balloon>)
    ensures |Evictable(tail)| <= |tail|
    ensures forall b :: b in Evictable(tail) <==> b in tail && !Unfinished(b)
  {
    if tail != [] {
      EvictableMembers(tail[1..]);
      assert tail == [tail[0]] + tail[1..];
    }
  }

  /** A balloon of the tail is protected exactly when it is an unfinished
      progress balloon. */
  lemma {:induction false} ProtectedMembers(tail: seq<Balloon>)
    ensures |Protected(tail)| <= |tail|
    ensures forall b :: b in Protected(tail) <==> b in tail && Unfinished(b)
  {
    if tail != [] {
      ProtectedMembers(tail[1..]);
      assert tail == [tail[0]] + tail[1..];
    }
  }

  /** The removals an `Add` requests once its balloon is at the front:
      nothing up to `MaxItems` balloons, else the evictable ones past the
      first `MaxItems`. */
  function Evictions(items: seq<Balloon>): seq<Balloon>
    reads items
  {
    if |items| > MaxItems then Evictable(items[MaxItems..]) else []
  }

  /** Whether each balloon of `s` is unfinished, read once. */
  ghost function UnfinishedFlags(s: seq<Balloon>): (r: seq<bool>)
    reads s
    ensures |r| == |s|
    ensures forall i :: 0 <= i < |s| ==> r[i] == Unfinished(s[i])
  {
    if s == [] then [] else [Unfinished(s[0])] + UnfinishedFlags(s[1..])
  }

  /** The balloons of `s` whose flag in `skip` is false, in order. Proof
      scaffolding for the eviction loop's invariant: unlike `Evictable` it
      reads no heap, so it survives the `Remove` calls inside the loop. */
  ghost function Pick(s: seq<Balloon>, skip: seq<bool>): seq<Balloon>
    requires |skip| == |s|
  {
    if s == [] then [] else (if skip[0] then [] else [s[0]]) + Pick(s[1..], skip[1..])
  }

  lemma {:induction false} PickSnoc(s: seq<Balloon>, skip: seq<bool>, b: Balloon, f: bool)
    requires |skip| == |s|
    ensures Pick(s + [b], skip + [f]) == Pick(s, skip) + if f then [] else [b]
  {
    if s == [] {
      assert s + [b] == [b] && skip + [f] == [f];
    } else {
      assert (s + [b])[1..] == s[1..] + [b];
      assert (skip + [f])[1..] == skip[1..] + [f];
      PickSnoc(s[1..], skip[1..], b, f);
    }
  }

  /** Deciding from flags read beforehand selects what `Evictable` selects,
      as long as the flags still agree with the balloons. */
  lemma {:induction false} PickIsEvictable(s: seq<Balloon>, skip: seq<bool>)
    requires |skip| == |s|
    requires forall i :: 0 <= i < |s| ==> skip[i] == Unfinished(s[i])
    ensures Pick(s, skip) == Evictable(s)
  {
    if s != [] {
      PickIsEvictable(s[1..], skip[1..]);
    }
  }

  /** Every balloon of `tail` is either evicted or protected, never both:
      the two passes split the tail. */
  lemma {:induction false} EvictableProtectedSplit(tail: seq<Balloon>)
    ensures |Evictable(tail)| + |Protected(tail)| == |tail|
    ensures Without(tail, Evictable(tail)) == Protected(tail)
  {
    if tail != [] {
      EvictableProtectedSplit(tail[1..]);
      KeptOutsideGone(tail[1..], tail[0], Evictable(tail));
      EvictableMembers(tail);
      assert tail[0] in Evictable(tail) <==> !Unfinished(tail[0]);
    }
  }

  /** `Without` only looks at whether each balloon is in the removed list;
      the unfinished balloons of `t` are never in the evictions of a longer
      list that contains `t`, so filtering `t` by one or the other agrees. */
  lemma {:induction false} KeptOutsideGone(t: seq<Balloon>, head: Balloon, gone: seq<Balloon>)
    requires gone == Evictable([head] + t)
    ensures Without(t, gone) == Without(t, Evictable(t))
  {
    EvictableMembers(t);
    EvictableMembers([head] + t);
    forall y | y in t ensures (y in gone <==> y in Evictable(t)) {
      assert ([head] + t)[1..] == t;
      var k :| 0 <= k < |t| && t[k] == y;
      assert ([head] + t)[k + 1] == y;
    }
    WithoutSameOn(t, gone, Evictable(t));
  }

  /** The eviction pass never touches the `MaxItems` newest balloons, and of
      the older ones it takes exactly those that are not unfinished. */
  lemma NewestNeverEvicted(items: seq<Balloon>)
    requires Distinct(items)
    ensures forall i :: 0 <= i < |items| && i < MaxItems ==> items[i] !in Evictions(items)
    ensures forall i :: MaxItems <= i < |items| ==> (items[i] in Evictions(items) <==> !Unfinished(items[i]))
  {
    if |items| > MaxItems {
      var tail := items[MaxItems..];
      EvictableMembers(tail);
      forall i | 0 <= i < MaxItems ensures items[i] !in Evictions(items) {
        forall k | 0 <= k < |tail| ensures tail[k] != items[i] {
          assert tail[k] == items[MaxItems + k];
        }
      }
      forall i | MaxItems <= i < |items|
        ensures items[i] in Evictions(items) <==> !Unfinished(items[i])
      {
        assert tail[i - MaxItems] == items[i];
      }
    }
  }

  /** Capacity: once every removal an `Add` requested has completed, in any
      order (`done` holds the same balloons as the requests), the list holds
      its `MaxItems` newest balloons followed by the unfinished older ones,
      so it exceeds `MaxItems` only by protected balloons. */
  lemma CapacityAfterEviction(items: seq<Balloon>, done: seq<Balloon>)
    requires Distinct(items)
    requires forall b :: b in done <==> b in Evictions(items)
    ensures |items| <= MaxItems ==> RemoveEach(items, done) == items
    ensures |items| > MaxItems ==>
      RemoveEach(items, done) == items[..MaxItems] + Protected(items[MaxItems..])
    ensures |items| > MaxItems ==>
      |RemoveEach(items, done)| == MaxItems + |Protected(items[MaxItems..])|
    ensures !AnyUnfinished(items) ==> |RemoveEach(items, done)| <= MaxItems
  {
    var gone := Evictions(items);
    RemoveEachIsWithout(items, done);
    WithoutSameOn(items, done, gone);
    if |items| <= MaxItems {
      WithoutNothingGone(items, gone);
    } else {
      var head, tail := items[..MaxItems], items[MaxItems..];
      assert items == head + tail;
      WithoutAppend(head, tail, gone);
      HeadKept(items);
      EvictableProtectedSplit(tail);
      if !AnyUnfinished(items) {
        assert forall i :: 0 <= i < |tail| ==> tail[i] == items[MaxItems + i];
        NoneProtected(tail);
      }
    }
  }

  /** The eviction pass leaves the `MaxItems` newest balloons in place. */
  lemma HeadKept(items: seq<Balloon>)
    requires Distinct(items) && |items| > MaxItems
    ensures Without(items[..MaxItems], Evictions(items)) == items[..MaxItems]
  {
    var head := items[..MaxItems];
    NewestNeverEvicted(items);
    forall y | y in head ensures y !in Evictions(items) {
      var k :| 0 <= k < |head| && head[k] == y;
      assert items[k] == y;
    }
    WithoutNothingGone(head, Evictions(items));
  }

  lemma {:induction false} NoneProtected(tail: seq<Balloon>)
    requires forall i :: 0 <= i < |tail| ==> !Unfinished(tail[i])
    ensures Protected(tail) == []
  {
    if tail != [] {
      assert forall i :: 0 <= i < |tail[1..]| ==> tail[1..][i] == tail[i + 1];
      NoneProtected(tail[1..]);
    }
  }

  /** Close: once the removals `OnClose` requests for a snapshot of the list
      have all completed, in any order, the list is empty. */
  lemma CloseEmptiesList(items: seq<Balloon>, completions: seq<Balloon>)
    requires Distinct(items)
    requires forall b :: b in items ==> b in completions
    ensures RemoveEach(items, completions) == []
  {
    RemoveEachIsWithout(items, completions);
    WithoutAllGone(items, completions);
  }

  /** The stack controller. `items` is the displayed list, newest first;
      `pending` holds the balloons whose height animation started by `Remove`
      has not completed yet; `handlers` counts, per balloon, the
      `RemoveRequested` subscriptions made by `Add`. */
  class NotificationStack {
    var items: seq<Balloon>
    var pending: seq<Balloon>
    var handlers: multiset<Balloon>
    var lastMouseMove: int
    var timerEnabled: bool
    var visible: bool

    /** The list never holds a balloon twice: WPF refuses to insert an element
        that already has a parent. */
    ghost predicate Valid()
      reads this
    {
      Distinct(items)
    }

    /** The idle-tracking part of the state. */
    function Clock(): IdleClock.State
      reads this`lastMouseMove, this`timerEnabled, this`visible
    {
      IdleClock.State(lastMouseMove, timerEnabled, visible)
    }

    /** An empty, hidden stack whose idle clock is `default(DateTime)` and
        whose timer has been started. */
    constructor ()
      ensures Valid()
      ensures items == [] && pending == [] && handlers == multiset{}
      ensures lastMouseMove == 0 && timerEnabled && !visible
    {
      items, pending, handlers := [], [], multiset{};
      lastMouseMove := 0;
      visible := false;
      timerEnabled := true;
    }

    method Hide()
      modifies this`visible, this`timerEnabled
      ensures Clock() == IdleClock.Hide(old(Clock()))
      ensures !visible && !timerEnabled
    {
      visible := false;
      if timerEnabled {
        timerEnabled := false;
      }
    }

    method Show(now: int)
      modifies this`lastMouseMove, this`visible, this`timerEnabled
      ensures Clock() == IdleClock.Show(old(Clock()), now)
      ensures visible && timerEnabled && lastMouseMove == now
    {
      lastMouseMove := now;
      visible := true;
      if !timerEnabled {
        timerEnabled := true;
      }
    }

    /** `TimerOnTick` at time `now`: hide after `TimeoutToHide` of inactivity
        unless a progress balloon is unfinished, in which case the idle clock
        is pushed forward instead. The list is never touched. */
    method TimerOnTick(now: int)
      modifies this`lastMouseMove, this`visible, this`timerEnabled
      ensures Clock() == IdleClock.Tick(old(Clock()), now, AnyUnfinished(items))
      ensures now - old(lastMouseMove) < IdleClock.TimeoutToHide ==> Clock() == old(Clock())
      ensures now - old(lastMouseMove) >= IdleClock.TimeoutToHide && !AnyUnfinished(items)
        ==> !visible && !timerEnabled && lastMouseMove == old(lastMouseMove)
      ensures now - old(lastMouseMove) >= IdleClock.TimeoutToHide && AnyUnfinished(items)
        ==> visible == old(visible) && timerEnabled == old(timerEnabled) && lastMouseMove == now
    {
      var elapsed := now - lastMouseMove;
      if elapsed >= IdleClock.TimeoutToHide {
        var unfinished := AnyUnfinished(items);
        if !unfinished {
          Hide();
        } else {
          lastMouseMove := now;
        }
      }
    }

    /** `NotificationStack_OnMouseMove` at time `now`. */
    method OnMouseMove(now: int)
      modifies this`lastMouseMove, this`visible, this`timerEnabled
      ensures Clock() == IdleClock.MouseMove(old(Clock()), now, items == [])
      ensures items == [] ==> Clock() == old(Clock())
      ensures items != [] ==> visible && timerEnabled && lastMouseMove == now
    {
      if |items| == 0 {
        return;
      }
      lastMouseMove := now;
      Show(now);
    }

    /** `Remove`: starts the height animation of `e`; the list changes only
        when the animation completes (`RemoveCompleted`). */
    method Remove(e: Balloon)
      modifies this`pending
      ensures pending == old(pending) + [e]
    {
      pending := pending + [e];
    }

    /** The `Completed` handler of the animation `Remove(e)` started: takes
        `e` out of the list if it is still there and hides the stack when the
        list has become empty. */
    method RemoveCompleted(e: Balloon)
      requires Valid()
      requires e in pending
      modifies this`items, this`pending, this`visible, this`timerEnabled
      ensures Valid()
      ensures items == RemoveFirst(old(items), e)
      ensures e !in items
      ensures forall b :: b != e ==> (b in items <==> b in old(items))
      ensures e !in old(items) ==> items == old(items)
      ensures e in old(items) ==> |items| == |old(items)| - 1
      ensures forall i :: 0 <= i < |old(items)| && old(items)[i] == e ==> items == old(items)[..i] + old(items)[i + 1..]
      ensures pending == RemoveFirst(old(pending), e)
      ensures items == [] ==> Clock() == IdleClock.Hide(old(Clock()))
      ensures items != [] ==> Clock() == old(Clock())
    {
      pending := RemoveFirst(pending, e);
      RemoveFirstDistinct(items, e);
      forall i | 0 <= i < |items| && items[i] == e
        ensures RemoveFirst(items, e) == items[..i] + items[i + 1..]
      {
        RemoveFirstAt(items, e, i);
      }
      forall b | b != e ensures b in RemoveFirst(items, e) <==> b in items {
        RemoveFirstMembers(items, e, b);
      }
      items := RemoveFirst(items, e);
      if |items| == 0 {
        Hide();
      }
    }

    /** A balloon raises `RemoveRequested`: every subscription `Add` made for
        it calls `Remove` once. */
    method RaiseRemoveRequested(e: Balloon)
      modifies this`pending
      ensures pending == old(pending) + seq(handlers[e], _ => e)
    {
      var k := 0;
      while k < handlers[e]
        invariant 0 <= k <= handlers[e]
        invariant pending == old(pending) + seq(k, _ => e)
      {
        Remove(e);
        k := k + 1;
      }
    }

    /** `OnClose`: hide, then request the removal of every balloon of a
        snapshot of the list, unfinished ones included. */
    method OnClose()
      modifies this`pending, this`visible, this`timerEnabled
      ensures Clock() == IdleClock.Hide(old(Clock()))
      ensures pending == old(pending) + items
    {
      Hide();
      var copy := items;
      var k := 0;
      while k < |copy|
        invariant 0 <= k <= |copy|
        invariant pending == old(pending) + copy[..k]
        invariant Clock() == IdleClock.Hide(old(Clock()))
      {
        Remove(copy[k]);
        k := k + 1;
      }
      assert copy[..k] == copy;
    }

    /** `Add`: subscribe to the balloon's removal requests, expand it if it
        is a screenshot and collapse every screenshot already shown, put it
        at the front, and when the list is over `MaxItems` request the
        removal of every balloon past the first `MaxItems` except the
        unfinished progress ones. Visibility and the idle clock are left
        alone. */
    method Add(e: Balloon)
      requires Valid()
      requires e !in items
      modifies this`items, this`pending, this`handlers, e`expanded, items
      ensures Valid()
      ensures items == [e] + old(items)
      ensures handlers == if e.requester then old(handlers) + multiset{e} else old(handlers)
      ensures e.kind == ScreenShot ==> e.expanded
      ensures e.kind != ScreenShot ==> e.expanded == old(e.expanded)
      ensures forall b :: b in old(items) && b.kind == ScreenShot ==> !b.expanded
      ensures AtMostOneExpanded(items)
      ensures forall b :: b in old(items) && b.kind != ScreenShot ==> b.expanded == old(b.expanded)
      ensures forall b :: b in items ==> b.finished == old(b.finished)
      ensures pending == old(pending) + Evictions(items)
      ensures unchanged(this`lastMouseMove, this`timerEnabled, this`visible)
    {
      if e.requester {
        handlers := handlers + multiset{e};
      }
      ExpandNewest(e);
      ExclusiveAfterInsert(e, items);
      DistinctCons(e, items);
      items := [e] + items;
      RequestEvictions();
    }

    /** The part of `Add` before the insertion: expand `e` if it is a
        screenshot, then collapse every screenshot already in the list. */
    method ExpandNewest(e: Balloon)
      requires e !in items
      modifies e`expanded, items
      ensures e.kind == ScreenShot ==> e.expanded
      ensures e.kind != ScreenShot ==> e.expanded == old(e.expanded)
      ensures forall b :: b in items && b.kind == ScreenShot ==> !b.expanded
      ensures forall b :: b in items && b.kind != ScreenShot ==> b.expanded == old(b.expanded)
      ensures forall b :: b in items ==> b.finished == old(b.finished)
    {
      if e.kind == ScreenShot {
        e.expanded := true;
      }
      CollapseScreenShots();
    }

    /** The loop of `Add` that collapses every screenshot balloon of the list. */
    method CollapseScreenShots()
      modifies items
      ensures forall b :: b in items && b.kind == ScreenShot ==> !b.expanded
      ensures forall b :: b in items && b.kind != ScreenShot ==> b.expanded == old(b.expanded)
      ensures forall b :: b in items ==> b.finished == old(b.finished)
    {
      var i := 0;
      while i < |items|
        invariant 0 <= i <= |items|
        invariant forall j :: 0 <= j < i && items[j].kind == ScreenShot ==> !items[j].expanded
        invariant forall b :: b in items && b.kind != ScreenShot ==> b.expanded == old(b.expanded)
        invariant forall b :: b in items ==> b.finished == old(b.finished)
      {
        if items[i].kind == ScreenShot {
          items[i].expanded := false;
        }
        i := i + 1;
      }
    }

    /** The eviction pass of `Add`: over a snapshot of the balloons past the
        first `MaxItems`, request the removal of each one that is not an
        unfinished progress balloon. */
    method RequestEvictions()
      modifies this`pending
      ensures pending == old(pending) + Evictions(items)
    {
      if |items| > MaxItems {
        var toRemove := items[MaxItems..];
        ghost var skip := UnfinishedFlags(toRemove);
        var k := 0;
        while k < |toRemove|
          modifies this`pending
          invariant 0 <= k <= |toRemove|
          invariant forall i :: 0 <= i < |toRemove| ==> skip[i] == Unfinished(toRemove[i])
          invariant pending == old(pending) + Pick(toRemove[..k], skip[..k])
        {
          var b := toRemove[k];
          assert toRemove[..k + 1] == toRemove[..k] + [b];
          assert skip[..k + 1] == skip[..k] + [skip[k]];
          PickSnoc(toRemove[..k], skip[..k], b, skip[k]);
          if !Unfinished(b) {
            Remove(b);
          }
          k := k + 1;
        }
        assert toRemove[..k] == toRemove && skip[..k] == skip;
        PickIsEvictable(toRemove, skip);
      }
    }
  }
}
