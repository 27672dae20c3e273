/** debouncer<>: reports a value once it has been polled for long enough. */
module Debouncers {
  import opened Words

  /** One poll: what poll_func() and time_func() returned. */
  datatype Sample<T> = Sample(v: T, t: Word)

  datatype State<T> = State(value: T, current: T, holdTime: Word)

  /** poll(): the result and the new state. Times are 32-bit. */
  function PollStep<T(==)>(s: State<T>, x: Sample<T>, wait: Word): (bool, State<T>) {
    var s' := if s.current != x.v then s.(current := x.v, holdTime := (x.t + wait) % WORD) else s;
    if s'.holdTime > x.t || s'.value == s'.current then (false, s') else (true, s'.(value := s'.current))
  }

  /** The state after polling a whole history, from the constructor on. */
  function Run<T(==)>(v0: T, h: seq<Sample<T>>, wait: Word): State<T> {
    if h == [] then State(v0, v0, 0) else PollStep(Run(v0, Init(h), wait), Last(h), wait).1
  }

  function Init<X>(h: seq<X>): seq<X>
    requires h != []
  {
    h[..|h| - 1]
  }

  function Last<X>(h: seq<X>): X
    requires h != []
  {
    h[|h| - 1]
  }

  // ---------- the debounced value, read off the history ----------

  /** Where the last run of equal samples starts. */
  function RunStart<T(==)>(h: seq<Sample<T>>): (k: nat)
    requires h != []
    ensures k < |h|
  {
    if |h| > 1 && Last(Init(h)).v == Last(h).v then RunStart(Init(h)) else |h| - 1
  }

  lemma {:induction false} RunStartIsMaximal<T>(h: seq<Sample<T>>)
    requires h != []
    ensures forall k :: RunStart(h) <= k < |h| ==> h[k].v == Last(h).v
    ensures RunStart(h) > 0 ==> h[RunStart(h) - 1].v != Last(h).v
  {
    if |h| > 1 && Last(Init(h)).v == Last(h).v {
      RunStartIsMaximal(Init(h));
    }
  }

  /** Whether the last run has lasted for the waiting time. */
  predicate Settled<T(==)>(h: seq<Sample<T>>, wait: Word)
    requires h != []
  {
    h[RunStart(h)].t + wait <= Last(h).t
  }

  /** The last value to have settled, or the initial one. */
  function Debounced<T(==)>(v0: T, h: seq<Sample<T>>, wait: Word): T {
    if h == [] then v0
    else if Settled(h, wait) then Last(h).v
    else Debounced(v0, Init(h), wait)
  }

  // ---------- when poll() is right ----------

  /** The last poll of a history returns true exactly when its value has settled and is news. */
  predicate PollIsRight<T(==)>(v0: T, h: seq<Sample<T>>, wait: Word)
    requires h != []
  {
    PollStep(Run(v0, Init(h), wait), Last(h), wait).0 <==>
      Settled(h, wait) && Last(h).v != Debounced(v0, Init(h), wait)
  }

  /** The last sample starts a run of a value other than the debounced one. */
  predicate StartsWait<T(==)>(v0: T, h: seq<Sample<T>>, wait: Word)
    requires h != []
  {
    RunStart(h) == |h| - 1 && Last(h).v != Debounced(v0, Init(h), wait)
  }

  /** If a wait starts with the last sample, it ends before the clock wraps. */
  predicate WaitFits<T(==)>(v0: T, h: seq<Sample<T>>, wait: Word)
    requires h != []
  {
    StartsWait(v0, h, wait) ==> Last(h).t + wait < WORD
  }

  ghost predicate AllPollsRight<T>(v0: T, h: seq<Sample<T>>, wait: Word) {
    forall k :: 0 < k <= |h| ==> PollIsRight(v0, h[..k], wait)
  }

  ghost predicate AllWaitsFit<T>(v0: T, h: seq<Sample<T>>, wait: Word) {
    forall k :: 0 < k <= |h| ==> WaitFits(v0, h[..k], wait)
  }

  lemma PrefixesOfInit<T>(v0: T, h: seq<Sample<T>>, wait: Word)
    requires h != []
    ensures AllPollsRight(v0, h, wait) <==> AllPollsRight(v0, Init(h), wait) && PollIsRight(v0, h, wait)
    ensures AllWaitsFit(v0, h, wait) <==> AllWaitsFit(v0, Init(h), wait) && WaitFits(v0, h, wait)
  {
    hide PollIsRight, WaitFits;
    assert h[..|h|] == h;
    forall k | 0 <= k < |h| ensures h[..k] == Init(h)[..k] {
    }
  }

  /** The object's state against its history. */
  ghost predicate StateMatches<T>(v0: T, h: seq<Sample<T>>, wait: Word) {
    var s := Run(v0, h, wait);
    && s.value == Debounced(v0, h, wait)
    && s.current == (if h == [] then v0 else Last(h).v)
    && (s.current != s.value ==> h != [] && s.holdTime == h[RunStart(h)].t + wait)
  }

  lemma PollMatches<T>(v0: T, h: seq<Sample<T>>, wait: Word)
    requires h != [] && StateMatches(v0, Init(h), wait) && WaitFits(v0, h, wait)
    ensures StateMatches(v0, h, wait) && PollIsRight(v0, h, wait)
  {
    var init := Init(h);
    if |h| > 1 && Last(init).v == Last(h).v {
      assert RunStart(h) == RunStart(init);
    } else {
      assert RunStart(h) == |h| - 1;
    }
  }

  lemma {:induction false} StateMatchesHistory<T>(v0: T, h: seq<Sample<T>>, wait: Word)
    requires AllWaitsFit(v0, h, wait)
    ensures StateMatches(v0, h, wait)
  {
    hide WaitFits;
    if h == [] {
    } else {
      PrefixesOfInit(v0, h, wait);
      StateMatchesHistory(v0, Init(h), wait);
      PollMatches(v0, h, wait);
    }
  }

  /** A wait that runs over the end of the clock is not waited for. */
  lemma WrappedWaitReportsAtOnce<T>(v0: T, h: seq<Sample<T>>, wait: Word)
    requires h != [] && StateMatches(v0, Init(h), wait) && !WaitFits(v0, h, wait)
    ensures !PollIsRight(v0, h, wait)
    ensures PollStep(Run(v0, Init(h), wait), Last(h), wait).0 && !Settled(h, wait)
  {
  }

  /** Main result, for every history: all polls return what they should if and only if no wait for
      a value to settle runs over the end of the clock. */
  lemma {:induction false} PollsAreRightIff<T>(v0: T, h: seq<Sample<T>>, wait: Word)
    ensures AllPollsRight(v0, h, wait) <==> AllWaitsFit(v0, h, wait)
  {
    hide PollIsRight, WaitFits, StateMatches;
    if h == [] {
    } else {
      PollsAreRightIff(v0, Init(h), wait);
      PrefixesOfInit(v0, h, wait);
      if AllWaitsFit(v0, Init(h), wait) {
        StateMatchesHistory(v0, Init(h), wait);
        if WaitFits(v0, h, wait) {
          PollMatches(v0, h, wait);
        } else {
          WrappedWaitReportsAtOnce(v0, h, wait);
        }
      }
    }
  }

  /** While that is so, get() is the debounced value. */
  lemma ValueIsDebounced<T>(v0: T, h: seq<Sample<T>>, wait: Word)
    requires AllWaitsFit(v0, h, wait)
    ensures Run(v0, h, wait).value == Debounced(v0, h, wait)
  {
    StateMatchesHistory(v0, h, wait);
  }

  /** A history with a wrong poll: with one tick to wait, a value first seen at the last tick of
      the clock is reported at that same poll. */
  lemma WrapExample()
    ensures var h := [Sample(true, 0xFFFF_FFFF)];
            && PollStep(Run(false, Init(h), 1), Last(h), 1).0
            && !Settled(h, 1) && !AllPollsRight(false, h, 1)
  {
    var h := [Sample(true, 0xFFFF_FFFF)];
    assert Init(h) == [] && h[..1] == h;
    PollsAreRightIff(false, h, 1);
    assert !WaitFits(false, h[..1], 1);
  }

  class Debouncer<T(==)> {
    const wait: Word
    var value: T
    var current: T
    var holdTime: Word
    ghost var initial: T
    ghost var history: seq<Sample<T>>

    ghost predicate Valid()
      reads this
    {
      State(value, current, holdTime) == Run(initial, history, wait)
    }

    constructor (v: T, wait: Word)
      ensures Valid() && initial == v && history == [] && this.wait == wait && value == v
    {
      this.wait := wait;
      value, current, holdTime := v, v, 0;
      initial, history := v, [];
    }

    method Poll(newValue: T, now: Word) returns (changed: bool)
      requires Valid()
      modifies this
      ensures Valid() && initial == old(initial) && history == old(history) + [Sample(newValue, now)]
      ensures changed <==> value != old(value)
      ensures AllWaitsFit(initial, history, wait) ==>
                && (changed <==> Settled(history, wait) && newValue != old(value))
                && value == Debounced(initial, history, wait)
    {
      hide Settled, Debounced, RunStart, Run, WaitFits;
      ghost var h := history + [Sample(newValue, now)];
      assert Init(h) == history;
      RunOfHistory(initial, h, wait);
      if AllWaitsFit(initial, h, wait) {
        PrefixesOfInit(initial, h, wait);
        ValueIsDebounced(initial, history, wait);
        ValueIsDebounced(initial, h, wait);
        PollsAreRightIff(initial, h, wait);
      }
      history := h;
      if current != newValue {
        current := newValue;
        holdTime := (now + wait) % WORD;
      }
      if holdTime > now || value == current {
        return false;
      }
      value := current;
      return true;
    }
  }

  lemma RunOfHistory<T>(v0: T, h: seq<Sample<T>>, wait: Word)
    requires h != []
    ensures Run(v0, h, wait) == PollStep(Run(v0, Init(h), wait), Last(h), wait).1
  {
  }
}
