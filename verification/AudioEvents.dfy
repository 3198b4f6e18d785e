// The audio timeline: windows cut out of it (`clip_audio_events`,
// `clip_beat_ticks`) and beat markers merged into it (`merge_audio_beats`).
// An event list is a step function of time; the results below are stated on
// that function, not on the lists.
module AudioEvents {
  import opened Bam2Format
  import opened Packer
  import opened PackValidator

  /** `value & ~AUDIO_BEAT_FLAG`, for any Python integer. */
  function MaskBeat(value: int): (hz: int)
    ensures !HasBeat(hz)
  {
    if HasBeat(value) then value - AUDIO_BEAT_FLAG else value
  }

  /** `hz | AUDIO_BEAT_FLAG` or `hz`, for a frequency without the flag. */
  function Tag(hz: int, beat: bool): (value: int)
    requires !HasBeat(hz)
    ensures HasBeat(value) == beat && MaskBeat(value) == hz
  {
    assert (hz + AUDIO_BEAT_FLAG) / AUDIO_BEAT_FLAG == hz / AUDIO_BEAT_FLAG + 1;
    if beat then hz + AUDIO_BEAT_FLAG else hz
  }

  /** The value in force at time `t` among the first `n` events: the last one not after `t`, 0 before the first. */
  function RawUpTo(events: seq<Pair>, n: nat, t: int): int
    requires n <= |events|
  {
    if n == 0 then 0
    else if events[n - 1].key <= t then events[n - 1].value
    else RawUpTo(events, n - 1, t)
  }

  /** The value in force at time `t`. */
  function RawAt(events: seq<Pair>, t: int): int {
    RawUpTo(events, |events|, t)
  }

  /** The frequency in force at time `t`. */
  function HzAt(events: seq<Pair>, t: int): int {
    MaskBeat(RawAt(events, t))
  }

  /** Some event at exactly `t` carries the beat flag. */
  predicate BeatAt(events: seq<Pair>, t: int) {
    exists i :: 0 <= i < |events| && events[i].key == t && HasBeat(events[i].value)
  }

  /** All ticks lie in `lo .. hi`. */
  predicate TicksWithin(events: seq<Pair>, lo: int, hi: int) {
    forall i :: 0 <= i < |events| ==> lo <= events[i].key < hi
  }

  // ----- the step function of a strictly increasing list -----

  lemma {:induction false} StrictOrder(events: seq<Pair>, i: nat, j: nat)
    requires StrictTicks(events) && i < j < |events|
    ensures events[i].key < events[j].key
  {
    if i + 1 < j {
      StrictOrder(events, i, j - 1);
    }
  }

  /** The first `n` events are those not after `t`. */
  predicate SplitAt(events: seq<Pair>, n: nat, t: int) {
    && n <= |events|
    && (forall i :: 0 <= i < n ==> events[i].key <= t)
    && (n < |events| ==> t < events[n].key)
  }

  /** Later events do not matter at `t`. */
  lemma {:induction false} RawUpToSplit(events: seq<Pair>, n: nat, m: nat, t: int)
    requires StrictTicks(events) && n <= m <= |events|
    requires n < |events| ==> t < events[n].key
    ensures RawUpTo(events, m, t) == RawUpTo(events, n, t)
  {
    if n < m {
      if n < m - 1 {
        StrictOrder(events, n, m - 1);
      }
      RawUpToSplit(events, n, m - 1, t);
    }
  }

  lemma RawAtSplit(events: seq<Pair>, n: nat, t: int)
    requires StrictTicks(events) && SplitAt(events, n, t)
    ensures RawAt(events, t) == if n == 0 then 0 else events[n - 1].value
  {
    RawUpToSplit(events, n, |events|, t);
  }

  /** `i` is the last event not after `t`. */
  predicate LastNotAfter(events: seq<Pair>, i: nat, t: int) {
    i < |events| && events[i].key <= t && (i + 1 < |events| ==> t < events[i + 1].key)
  }

  lemma RawAtLast(events: seq<Pair>, i: nat, t: int)
    requires StrictTicks(events) && LastNotAfter(events, i, t)
    ensures RawAt(events, t) == events[i].value
  {
    RawUpToSplit(events, i + 1, |events|, t);
  }

  /** Nothing happens up to `t`. */
  lemma {:induction false} RawBefore(events: seq<Pair>, n: nat, t: int)
    requires n <= |events| && forall i :: 0 <= i < n ==> t < events[i].key
    ensures RawUpTo(events, n, t) == 0
  {
    if n > 0 {
      RawBefore(events, n - 1, t);
    }
  }

  /** Nothing happens between `t` and `later`, so the value does not change. */
  lemma {:induction false} RawGap(events: seq<Pair>, n: nat, t: int, later: int)
    requires n <= |events| && t <= later
    requires forall i :: 0 <= i < n ==> events[i].key <= t || later < events[i].key
    ensures RawUpTo(events, n, later) == RawUpTo(events, n, t)
  {
    if n > 0 {
      RawGap(events, n - 1, t, later);
    }
  }

  lemma {:induction false} RawOfPrefix(events: seq<Pair>, more: seq<Pair>, n: nat, t: int)
    requires n <= |events| && events <= more
    ensures RawUpTo(more, n, t) == RawUpTo(events, n, t)
  {
    if n > 0 {
      RawOfPrefix(events, more, n - 1, t);
    }
  }

  lemma RawAtOneMore(events: seq<Pair>, e: Pair, t: int)
    ensures RawAt(events + [e], t) == if e.key <= t then e.value else RawAt(events, t)
  {
    RawOfPrefix(events, events + [e], |events|, t);
  }

  // ----- cutting a window -----

  /** The list after the second loop's body has seen event `e`. */
  function CutOne(e: Pair, startTick: int, endTick: int, clipped: seq<Pair>): seq<Pair> {
    if startTick < e.key < endTick && (clipped == [] || clipped[|clipped| - 1].value != e.value)
    then clipped + [Pair(e.key - startTick, e.value)] else clipped
  }

  /** What is cut of the first `i` events has their values, at every time of the window. */
  ghost predicate SameValues(events: seq<Pair>, i: nat, startTick: int, endTick: int, clipped: seq<Pair>)
    requires i <= |events|
  {
    forall t :: 0 <= t && startTick + t < endTick ==> RawAt(clipped, t) == RawUpTo(events, i, startTick + t)
  }

  /**
   * The shape of what is cut of the first `i` events: increasing, before event
   * `i`, opening at 0 exactly when a tone is active, and else inside the window.
   */
  ghost predicate ClipShape(events: seq<Pair>, i: nat, startTick: int, endTick: int, active: int, clipped: seq<Pair>)
    requires i <= |events|
  {
    && StrictTicks(clipped)
    && (clipped != [] && i < |events| ==> clipped[|clipped| - 1].key < events[i].key - startTick)
    && (active != 0 ==> clipped != [] && clipped[0] == Pair(0, active))
    && (forall k :: 0 <= k < |clipped| ==> 0 < clipped[k].key < endTick - startTick || (active != 0 && k == 0))
  }

  lemma ClipStart(events: seq<Pair>, n: nat, startTick: int, endTick: int)
    requires StrictTicks(events) && SplitAt(events, n, startTick)
    ensures var active := if n == 0 then 0 else events[n - 1].value;
      var first := if active != 0 then [Pair(0, active)] else [];
      ClipShape(events, n, startTick, endTick, active, first) && SameValues(events, n, startTick, endTick, first)
  {
    var active := if n == 0 then 0 else events[n - 1].value;
    forall t | 0 <= t
      ensures RawUpTo(events, n, startTick + t) == active
      ensures RawAt([Pair(0, active)], t) == active && RawAt([], t) == 0
    {
    }
  }

  lemma ClipStepShape(events: seq<Pair>, i: nat, startTick: int, endTick: int, active: int, clipped: seq<Pair>)
    requires StrictTicks(events) && i < |events| && startTick < events[i].key
    requires ClipShape(events, i, startTick, endTick, active, clipped)
    ensures ClipShape(events, i + 1, startTick, endTick, active, CutOne(events[i], startTick, endTick, clipped))
  {
  }

  /** One more event after the start of the window: appended, repeated or beyond the end. */
  lemma ClipStepValues(events: seq<Pair>, i: nat, startTick: int, endTick: int, active: int, clipped: seq<Pair>)
    requires i < |events| && startTick < events[i].key
    requires ClipShape(events, i, startTick, endTick, active, clipped)
    requires SameValues(events, i, startTick, endTick, clipped)
    ensures SameValues(events, i + 1, startTick, endTick, CutOne(events[i], startTick, endTick, clipped))
  {
    var e, cut := events[i], CutOne(events[i], startTick, endTick, clipped);
    forall t | 0 <= t && startTick + t < endTick
      ensures RawAt(cut, t) == RawUpTo(events, i + 1, startTick + t)
    {
      assert RawAt(clipped, t) == RawUpTo(events, i, startTick + t);
      if cut != clipped {
        RawAtOneMore(clipped, Pair(e.key - startTick, e.value), t);
      }
    }
  }

  /** The first loop: the frequency active at the window's start. */
  method ActiveAtStart(events: seq<Pair>, startTick: int) returns (activeHz: int, ghost n: nat)
    requires StrictTicks(events)
    ensures SplitAt(events, n, startTick) && activeHz == if n == 0 then 0 else events[n - 1].value
  {
    activeHz := 0;
    var i := 0;
    while i < |events|
      invariant i <= |events| && activeHz == if i == 0 then 0 else events[i - 1].value
      invariant forall k :: 0 <= k < i ==> events[k].key <= startTick
    {
      if events[i].key > startTick {
        break;
      }
      activeHz := events[i].value;
      i := i + 1;
    }
    n := i;
  }

  /** The second loop after `i` events. */
  function CutAll(events: seq<Pair>, i: nat, startTick: int, endTick: int, first: seq<Pair>): seq<Pair>
    requires i <= |events|
  {
    if i == 0 then first
    else CutOne(events[i - 1], startTick, endTick, CutAll(events, i - 1, startTick, endTick, first))
  }

  lemma {:induction false} CutAllOk(events: seq<Pair>, n: nat, i: nat, startTick: int, endTick: int, active: int, first: seq<Pair>)
    requires StrictTicks(events) && SplitAt(events, n, startTick) && i <= |events|
    requires ClipShape(events, n, startTick, endTick, active, first) && SameValues(events, n, startTick, endTick, first)
    ensures i <= n ==> CutAll(events, i, startTick, endTick, first) == first
    ensures i >= n ==>
      var clipped := CutAll(events, i, startTick, endTick, first);
      ClipShape(events, i, startTick, endTick, active, clipped) && SameValues(events, i, startTick, endTick, clipped)
  {
    if i > 0 {
      CutAllOk(events, n, i - 1, startTick, endTick, active, first);
      if i > n {
        if n < i - 1 {
          StrictOrder(events, n, i - 1);
        }
        var before := CutAll(events, i - 1, startTick, endTick, first);
        ClipStepShape(events, i - 1, startTick, endTick, active, before);
        ClipStepValues(events, i - 1, startTick, endTick, active, before);
      }
    }
  }

  /** No value is listed again right after itself. */
  predicate NoRepeats(events: seq<Pair>) {
    forall i :: 1 <= i < |events| ==> events[i - 1].value != events[i].value
  }

  lemma {:induction false} CutRepeatsNothing(events: seq<Pair>, i: nat, startTick: int, endTick: int, first: seq<Pair>)
    requires i <= |events| && NoRepeats(first)
    ensures NoRepeats(CutAll(events, i, startTick, endTick, first))
  {
    if i > 0 {
      CutRepeatsNothing(events, i - 1, startTick, endTick, first);
    }
  }

  /** The second loop: the events strictly inside the window, without repetitions. */
  method CutInside(events: seq<Pair>, startTick: int, endTick: int, first: seq<Pair>) returns (clipped: seq<Pair>)
    ensures clipped == CutAll(events, |events|, startTick, endTick, first)
  {
    clipped := first;
    for i := 0 to |events|
      invariant clipped == CutAll(events, i, startTick, endTick, first)
    {
      var tick, hz := events[i].key, events[i].value;
      if startTick < tick < endTick {
        var relative := Pair(tick - startTick, hz);
        if |clipped| == 0 || clipped[|clipped| - 1].value != hz {
          clipped := clipped + [relative];
        }
      }
    }
  }

  /** The list before the second loop: the tone sounding at the window's start, if any. */
  function Opening(events: seq<Pair>, startTick: int): seq<Pair> {
    if RawAt(events, startTick) != 0 then [Pair(0, RawAt(events, startTick))] else []
  }

  function Clipped(events: seq<Pair>, startTick: int, endTick: int): seq<Pair> {
    CutAll(events, |events|, startTick, endTick, Opening(events, startTick))
  }

  /**
   * `clip_audio_events`: at every time of the window the clipped list has the
   * value of the original, and its ticks stay in the window unless the window is
   * empty and a tone sounds at its start.
   */
  method ClipAudioEvents(events: seq<Pair>, startTick: int, endTick: int) returns (clipped: seq<Pair>)
    requires StrictTicks(events)
    ensures clipped == Clipped(events, startTick, endTick)
    ensures StrictTicks(clipped) && NoRepeats(clipped) && (clipped != [] && clipped[0].key == 0 ==> clipped[0].value != 0)
    ensures forall t :: 0 <= t && startTick + t < endTick ==> RawAt(clipped, t) == RawAt(events, startTick + t)
    ensures TicksWithin(clipped, 0, endTick - startTick) <==> startTick < endTick || RawAt(events, startTick) == 0
  {
    ghost var n;
    var activeHz;
    activeHz, n := ActiveAtStart(events, startTick);
    RawAtSplit(events, n, startTick);
    clipped := if activeHz != 0 then [Pair(0, activeHz)] else [];
    ClipStart(events, n, startTick, endTick);
    CutAllOk(events, n, |events|, startTick, endTick, activeHz, clipped);
    CutRepeatsNothing(events, |events|, startTick, endTick, clipped);
    clipped := CutInside(events, startTick, endTick, clipped);
    if activeHz != 0 {
      assert clipped[0].key == 0;
    }
  }

  /** A window of no length that opens on a sounding tone: the tone stays, at a tick the window does not have. */
  lemma EmptyWindowKeepsTone()
    ensures var events := [Pair(0, 440)];
      StrictTicks(events) && Clipped(events, 5, 5) == events && !TicksWithin(Clipped(events, 5, 5), 0, 5 - 5)
  {
    var events := [Pair(0, 440)];
    assert RawAt(events, 5) == 440;
    assert CutAll(events, 0, 5, 5, events) == events;
    assert CutAll(events, 1, 5, 5, events) == events;
    assert events[0].key == 0;
  }

  /** `[tick - start for tick in beats if start <= tick < end]`. */
  function ClipBeatTicks(beats: seq<int>, startTick: int, endTick: int): (clipped: seq<int>)
    ensures forall t :: t in clipped <==> 0 <= t < endTick - startTick && startTick + t in beats
  {
    if beats == [] then []
    else
      var rest := ClipBeatTicks(beats[1..], startTick, endTick);
      if startTick <= beats[0] < endTick then [beats[0] - startTick] + rest else rest
  }

  /** What one beat is clipped to. */
  function ClipBeat(beat: int, startTick: int, endTick: int): seq<int> {
    if startTick <= beat < endTick then [beat - startTick] else []
  }

  lemma ClipFirst(beats: seq<int>, startTick: int, endTick: int)
    requires beats != []
    ensures ClipBeatTicks(beats, startTick, endTick)
         == ClipBeat(beats[0], startTick, endTick) + ClipBeatTicks(beats[1..], startTick, endTick)
  {
  }

  /** Beats keep their order and their number: a list is clipped part by part. */
  lemma {:induction false} ClipBeatsInOrder(beats: seq<int>, more: seq<int>, startTick: int, endTick: int)
    ensures ClipBeatTicks(beats + more, startTick, endTick)
         == ClipBeatTicks(beats, startTick, endTick) + ClipBeatTicks(more, startTick, endTick)
  {
    if beats == [] {
      assert beats + more == more;
    } else {
      ClipBeatsInOrder(beats[1..], more, startTick, endTick);
      ClipFirst(beats, startTick, endTick);
      ClipFirst(beats + more, startTick, endTick);
      assert (beats + more)[1..] == beats[1..] + more;
      Regroup(ClipBeat(beats[0], startTick, endTick), ClipBeatTicks(beats[1..], startTick, endTick),
              ClipBeatTicks(more, startTick, endTick));
    }
  }

  lemma Regroup(a: seq<int>, b: seq<int>, c: seq<int>)
    ensures a + (b + c) == a + b + c
  {
  }

  // ----- merging beats -----

  predicate Increasing(ticks: seq<int>) {
    forall i, j :: 0 <= i < j < |ticks| ==> ticks[i] < ticks[j]
  }

  /** `ticks` with `x` at its place, unless it is there already. */
  function Insert(ticks: seq<int>, x: int): (more: seq<int>)
    requires Increasing(ticks)
    ensures Increasing(more)
    ensures forall y :: y in more <==> y == x || y in ticks
  {
    if ticks == [] then [x]
    else
      var init, last := ticks[..|ticks| - 1], ticks[|ticks| - 1];
      assert ticks == init + [last];
      if last < x then ticks + [x]
      else if last == x then ticks
      else
        var before := Insert(init, x);
        assert forall i :: 0 <= i < |before| ==> before[i] in before;
        before + [last]
  }

  /** `sorted(set(xs))`. */
  function SortedSet(xs: seq<int>): (ticks: seq<int>)
    ensures Increasing(ticks)
    ensures forall x :: x in ticks <==> x in xs
  {
    if xs == [] then [] else Insert(SortedSet(xs[1..]), xs[0])
  }

  predicate HasTick(events: seq<Pair>, t: int) {
    exists i :: 0 <= i < |events| && events[i].key == t
  }

  function Keys(events: seq<Pair>): (keys: seq<int>)
    ensures forall t :: t in keys <==> HasTick(events, t)
  {
    if events == [] then []
    else
      var init, last := events[..|events| - 1], events[|events| - 1];
      assert forall t :: HasTick(events, t) <==> HasTick(init, t) || t == last.key by {
        assert events == init + [last];
        assert forall i :: 0 <= i < |init| ==> events[i] == init[i];
      }
      Keys(init) + [last.key]
  }

  /** The ticks at which something happens: `sorted(set(event_map) | set(beats))`. */
  function AllTicks(events: seq<Pair>, beats: seq<int>): (ticks: seq<int>)
    ensures Increasing(ticks)
    ensures forall t :: t in ticks <==> t in beats || HasTick(events, t)
  {
    SortedSet(Keys(events) + beats)
  }

  /** Python's `dict(events)`: a later pair with the same tick replaces an earlier one. */
  function EventMap(events: seq<Pair>): (m: map<int, int>) {
    if events == [] then map[]
    else EventMap(events[..|events| - 1])[events[|events| - 1].key := events[|events| - 1].value]
  }

  lemma {:induction false} EventMapKeys(events: seq<Pair>, t: int)
    ensures t in EventMap(events) <==> HasTick(events, t)
  {
    if events != [] {
      var init, last := events[..|events| - 1], events[|events| - 1];
      EventMapKeys(init, t);
      assert forall i :: 0 <= i < |init| ==> events[i] == init[i];
      if HasTick(events, t) && t != last.key {
        var i :| 0 <= i < |events| && events[i].key == t;
        assert init[i].key == t;
      }
    }
  }

  /** Of several events at one tick the last counts. */
  lemma {:induction false} EventMapLast(events: seq<Pair>, i: nat)
    requires i < |events| && forall k :: i < k < |events| ==> events[k].key != events[i].key
    ensures events[i].key in EventMap(events) && EventMap(events)[events[i].key] == events[i].value
  {
    var last := |events| - 1;
    if i < last {
      assert events[..last][i] == events[i];
      EventMapLast(events[..last], i);
    }
  }

  /** The frequency carried to `ticks[i]` by the events on `ticks[..i + 1]`. */
  function CarriedHz(m: map<int, int>, ticks: seq<int>, i: nat): (hz: int)
    requires i < |ticks|
    ensures !HasBeat(hz)
  {
    if ticks[i] in m then MaskBeat(m[ticks[i]])
    else if i == 0 then 0
    else CarriedHz(m, ticks, i - 1)
  }

  /** What the merged list holds at position `i`. */
  function MergedItem(events: seq<Pair>, beats: seq<int>, i: nat): Pair
    requires i < |AllTicks(events, beats)|
  {
    var ticks := AllTicks(events, beats);
    Pair(ticks[i], Tag(CarriedHz(EventMap(events), ticks, i), ticks[i] in beats))
  }

  /** `merged` is the outcome of merging `beats` into `events`. */
  ghost predicate IsMerge(events: seq<Pair>, beats: seq<int>, merged: seq<Pair>) {
    && |merged| == |AllTicks(events, beats)|
    && forall i :: 0 <= i < |merged| ==> merged[i] == MergedItem(events, beats, i)
  }

  method MergeAudioBeats(events: seq<Pair>, beats: seq<int>) returns (merged: seq<Pair>)
    ensures IsMerge(events, beats, merged)
  {
    var eventMap := EventMap(events);
    var allTicks := AllTicks(events, beats);
    var currentHz := 0;
    merged := [];
    for i := 0 to |allTicks|
      invariant |merged| == i
      invariant currentHz == if i == 0 then 0 else CarriedHz(eventMap, allTicks, i - 1)
      invariant forall k :: 0 <= k < i ==> merged[k] == MergedItem(events, beats, k)
    {
      var tick := allTicks[i];
      if tick in eventMap {
        currentHz := MaskBeat(eventMap[tick]);
      }
      merged := merged + [Pair(tick, Tag(currentHz, tick in beats))];
    }
  }

  // ----- what a merge means -----

  lemma {:induction false} EventMapStrict(events: seq<Pair>, i: nat)
    requires StrictTicks(events) && i < |events|
    ensures events[i].key in EventMap(events) && EventMap(events)[events[i].key] == events[i].value
  {
    var last := |events| - 1;
    if i < last {
      StrictOrder(events, i, last);
      EventMapStrict(events[..last], i);
    }
  }

  /** The frequency carried to a tick is the frequency in force at that tick. */
  lemma {:induction false} CarriedIsInForce(events: seq<Pair>, beats: seq<int>, i: nat)
    requires StrictTicks(events) && i < |AllTicks(events, beats)|
    ensures var ticks := AllTicks(events, beats); CarriedHz(EventMap(events), ticks, i) == HzAt(events, ticks[i])
  {
    var ticks, m := AllTicks(events, beats), EventMap(events);
    EventMapKeys(events, ticks[i]);
    if ticks[i] in m {
      var k :| 0 <= k < |events| && events[k].key == ticks[i];
      EventMapStrict(events, k);
      if k + 1 < |events| {
        StrictOrder(events, k, k + 1);
      }
      RawAtLast(events, k, ticks[i]);
    } else {
      forall k | 0 <= k < |events|
        ensures i == 0 ==> ticks[i] < events[k].key
        ensures i > 0 ==> events[k].key <= ticks[i - 1] || ticks[i] < events[k].key
      {
        assert HasTick(events, events[k].key);
        var j :| 0 <= j < |ticks| && ticks[j] == events[k].key;
        assert j != i;
      }
      if i == 0 {
        RawBefore(events, |events|, ticks[i]);
      } else {
        RawGap(events, |events|, ticks[i - 1], ticks[i]);
        CarriedIsInForce(events, beats, i - 1);
      }
    }
  }

  /** A merge lists its ticks in strictly increasing order. */
  lemma MergeIsStrict(events: seq<Pair>, beats: seq<int>, merged: seq<Pair>)
    requires IsMerge(events, beats, merged)
    ensures StrictTicks(merged)
    ensures forall i :: 0 <= i < |merged| ==> merged[i].key in AllTicks(events, beats)
  {
    var ticks := AllTicks(events, beats);
    forall i | 0 <= i < |merged|
      ensures merged[i].key in ticks && (i >= 1 ==> merged[i - 1].key < merged[i].key)
    {
      assert merged[i].key == ticks[i];
    }
  }

  /** Merging beats changes no frequency, at any time. */
  lemma MergeKeepsHz(events: seq<Pair>, beats: seq<int>, merged: seq<Pair>, t: int)
    requires StrictTicks(events) && IsMerge(events, beats, merged)
    ensures HzAt(merged, t) == HzAt(events, t)
  {
    var ticks := AllTicks(events, beats);
    MergeIsStrict(events, beats, merged);
    var n := 0;
    while n < |merged| && merged[n].key <= t
      invariant n <= |merged|
      invariant forall i :: 0 <= i < n ==> merged[i].key <= t
    {
      n := n + 1;
    }
    RawAtSplit(merged, n, t);
    forall k | 0 <= k < |events|
      ensures n == 0 ==> t < events[k].key
      ensures n > 0 ==> events[k].key <= ticks[n - 1] || t < events[k].key
    {
      assert HasTick(events, events[k].key);
      var j :| 0 <= j < |ticks| && ticks[j] == events[k].key;
      assert merged[j].key == ticks[j];
      if n <= j && n < |merged| {
        assert merged[n].key == ticks[n] <= ticks[j];
      }
    }
    if n == 0 {
      RawBefore(events, |events|, t);
    } else {
      assert merged[n - 1] == MergedItem(events, beats, n - 1);
      CarriedIsInForce(events, beats, n - 1);
      RawGap(events, |events|, ticks[n - 1], t);
    }
  }

  /** A merged list beats at exactly the times of the beats. */
  lemma MergeBeats(events: seq<Pair>, beats: seq<int>, merged: seq<Pair>, t: int)
    requires IsMerge(events, beats, merged)
    ensures BeatAt(merged, t) <==> t in beats
  {
    var ticks := AllTicks(events, beats);
    if t in beats {
      assert t in ticks;
      var i :| 0 <= i < |ticks| && ticks[i] == t;
      assert merged[i].key == t && HasBeat(merged[i].value);
    }
    if BeatAt(merged, t) {
      var i :| 0 <= i < |merged| && merged[i].key == t && HasBeat(merged[i].value);
      assert merged[i] == MergedItem(events, beats, i);
    }
  }

  /**
   * Cutting a window and merging its beats commutes with shifting time: the
   * merged list is strictly increasing, stays inside the window, and at every
   * time of the window has the frequency and the beat of the original timeline.
   * Only an empty window opening on a sounding tone breaks the bounds.
   */
  method ClipAndMerge(events: seq<Pair>, beats: seq<int>, startTick: int, endTick: int) returns (merged: seq<Pair>)
    requires StrictTicks(events)
    ensures StrictTicks(merged)
    ensures TicksWithin(merged, 0, endTick - startTick) <==> startTick < endTick || RawAt(events, startTick) == 0
    ensures forall t :: 0 <= t < endTick - startTick ==> HzAt(merged, t) == HzAt(events, startTick + t)
    ensures forall t :: 0 <= t < endTick - startTick ==> (BeatAt(merged, t) <==> startTick + t in beats)
  {
    var clipped := ClipAudioEvents(events, startTick, endTick);
    var inside := ClipBeatTicks(beats, startTick, endTick);
    merged := MergeAudioBeats(clipped, inside);
    MergeIsStrict(clipped, inside, merged);
    forall t | 0 <= t < endTick - startTick
      ensures HzAt(merged, t) == HzAt(events, startTick + t)
      ensures BeatAt(merged, t) <==> startTick + t in beats
    {
      MergeKeepsHz(clipped, inside, merged, t);
      MergeBeats(clipped, inside, merged, t);
    }
    MergeWithin(clipped, inside, merged, endTick - startTick);
  }

  lemma MergeWithin(events: seq<Pair>, beats: seq<int>, merged: seq<Pair>, hi: int)
    requires IsMerge(events, beats, merged)
    requires forall t :: t in beats ==> 0 <= t < hi
    ensures TicksWithin(merged, 0, hi) <==> TicksWithin(events, 0, hi)
  {
    var ticks := AllTicks(events, beats);
    MergeIsStrict(events, beats, merged);
    if TicksWithin(events, 0, hi) {
      assert forall i :: 0 <= i < |merged| ==> merged[i].key in ticks;
    }
    if TicksWithin(merged, 0, hi) {
      forall k | 0 <= k < |events|
        ensures 0 <= events[k].key < hi
      {
        assert HasTick(events, events[k].key);
        var j :| 0 <= j < |ticks| && ticks[j] == events[k].key;
        assert merged[j].key == ticks[j];
      }
    }
  }
}
