/** Timers and the two clocks (`kernel/time/time.c`, `kernel/time/time.k.h`). */
module Timers {

  const SECOND: int := 1_000_000_000
  const TIMER_FREQ: int := 1000
  const TICK: int := SECOND / TIMER_FREQ

  datatype Timespec = Timespec(sec: int, nsec: int)

  const INTERVAL: Timespec := Timespec(0, TICK)
  const ZERO: Timespec := Timespec(0, 0)

  function Nanos(a: Timespec): int {
    a.sec * SECOND + a.nsec
  }

  predicate Normal(a: Timespec) {
    0 <= a.sec && 0 <= a.nsec < SECOND
  }

  /** `timespec_add`. */
  function Add(a: Timespec, b: Timespec): (r: Timespec)
    ensures Normal(a) && Normal(b) ==> Normal(r) && Nanos(r) == Nanos(a) + Nanos(b)
  {
    var c := if a.nsec + b.nsec > SECOND - 1 then Timespec(a.sec + 1, a.nsec + b.nsec - SECOND)
             else a.(nsec := a.nsec + b.nsec);
    c.(sec := c.sec + b.sec)
  }

  /** `timespec_sub`: it stops at zero, and a borrow loses a nanosecond. */
  function Sub(a: Timespec, b: Timespec): (r: Timespec)
    ensures Normal(a) && Normal(b) ==> Normal(r)
    ensures Normal(a) && Normal(b) ==>
      Nanos(r) == if Nanos(a) < Nanos(b) then 0 else Nanos(a) - Nanos(b) - (if a.nsec < b.nsec then 1 else 0)
  {
    if b.nsec > a.nsec && a.sec == 0 then ZERO
    else
      var c := if b.nsec > a.nsec then Timespec(a.sec - 1, SECOND - 1 - (b.nsec - a.nsec))
            else a.(nsec := a.nsec - b.nsec);
      if b.sec > c.sec then ZERO else c.(sec := c.sec - b.sec)
  }

  // ----- one timer -----

  /** A timer's remaining time, whether it has fired, and how often its event was triggered. */
  datatype State = State(when: Timespec, fired: bool, triggers: nat)

  /** What a tick does to an armed timer. */
  function Ticked(s: State): State {
    if s.fired then s
    else
      var left := Sub(s.when, INTERVAL);
      if left == ZERO then State(left, true, s.triggers + 1) else s.(when := left)
  }

  ghost function After(s: State, ticks: nat): State {
    if ticks == 0 then s else Ticked(After(s, ticks - 1))
  }

  /** What is left to count down: a second is worth a nanosecond less than it should be. */
  function Span(a: Timespec): int {
    a.sec * (SECOND - 1) + a.nsec
  }

  function CeilDiv(x: nat, d: nat): (q: nat)
    requires 0 < d
    ensures x <= q * d < x + d
  {
    if x == 0 then 0 else if x <= d then 1 else 1 + CeilDiv(x - d, d)
  }

  function Max(x: int, y: int): int {
    if x < y then y else x
  }

  /** The tick at which a timer fires. */
  function FiresAt(when: Timespec): nat
    requires 0 <= when.sec && 0 <= when.nsec
  {
    Max(1, CeilDiv(Span(when), TICK))
  }

  lemma SubSpan(a: Timespec)
    requires 0 <= a.sec && 0 <= a.nsec
    ensures var r := Sub(a, INTERVAL);
      0 <= r.sec && 0 <= r.nsec && Span(r) == Max(0, Span(a) - TICK) && (r == ZERO <==> Span(a) <= TICK)
  {
  }

  /** An armed timer fires at tick `FiresAt`, once, and never again. It need not be normalised for that. */
  lemma {:induction false} FiresOnce(when: Timespec, triggers: nat, k: nat)
    requires 0 <= when.sec && 0 <= when.nsec
    ensures var s := After(State(when, false, triggers), k);
      && (s.fired <==> FiresAt(when) <= k)
      && s.triggers == (if FiresAt(when) <= k then triggers + 1 else triggers)
      && 0 <= s.when.sec && 0 <= s.when.nsec && (!s.fired ==> Span(s.when) == Max(0, Span(when) - k * TICK))
  {
    if k > 0 {
      FiresOnce(when, triggers, k - 1);
      var s := After(State(when, false, triggers), k - 1);
      SubSpan(s.when);
      var q := CeilDiv(Span(when), TICK);
      Rounds(Span(when), q, k);
      Rounds(Span(when), q, k - 1);
      hide Sub;
    }
  }

  lemma Rounds(x: nat, q: nat, k: nat)
    requires x <= q * TICK < x + TICK
    ensures q <= k <==> x <= k * TICK
  {
  }

  /** For a normalised time of T nanoseconds and s whole seconds: not after the tick that covers T, and not before T is
      covered to within a nanosecond per second. */
  lemma FiresBounds(when: Timespec)
    requires Normal(when)
    ensures FiresAt(when) <= Max(1, CeilDiv(Nanos(when), TICK))
    ensures FiresAt(when) * TICK >= Nanos(when) - when.sec
  {
    Rounds(Span(when), CeilDiv(Span(when), TICK), CeilDiv(Nanos(when), TICK));
  }

  /** The time `time_nsleep` arms its timer with. */
  function SleepTime(ns: nat): Timespec {
    Timespec(ns / SECOND, ns)
  }

  /** It keeps the whole of `ns` beside the seconds, so a sleep lasts the ticks that cover `ns` exactly when it is
      shorter than a second; longer sleeps last about twice as long. */
  lemma SleepExactly(ns: nat)
    ensures FiresAt(SleepTime(ns)) == Max(1, CeilDiv(ns, TICK)) <==> ns < SECOND
    ensures SECOND <= ns ==> FiresAt(SleepTime(ns)) * TICK >= ns + ns / SECOND * (SECOND - 1)
  {
    var q := ns / SECOND;
    var span := Span(SleepTime(ns));
    assert span == q * (SECOND - 1) + ns && (q == 0 <==> ns < SECOND);
    hide Span, SleepTime, CeilDiv;
    if q > 0 {
      LongSleep(ns, q, span);
    }
  }

  lemma LongSleep(ns: nat, q: nat, span: nat)
    requires 0 < q && SECOND <= ns && span == q * (SECOND - 1) + ns
    ensures Max(1, CeilDiv(span, TICK)) != Max(1, CeilDiv(ns, TICK)) && CeilDiv(span, TICK) > 1
  {
    hide CeilDiv;
    var a, b := CeilDiv(span, TICK), CeilDiv(ns, TICK);
    assert ns + SECOND - 1 <= span;
    assert b * TICK < a * TICK;
  }

  // ----- the table of armed timers -----

  /** The last element takes the place of the one that goes. */
  ghost function Removed<T>(s: seq<T>, i: int): seq<T> {
    if 0 <= i < |s| then s[i := s[|s| - 1]][..|s| - 1] else s
  }

  class Timer {
    var index: int
    var fired: bool
    var when: Timespec
    var triggers: nat

    constructor (time: Timespec)
      ensures index == -1 && !fired && when == time && triggers == 0
    {
      index, fired, when, triggers := -1, false, time, 0;
    }

    ghost function View(): State
      reads this
    {
      State(when, fired, triggers)
    }

    /** One round of the loop in `timer_handler`. */
    method Tick()
      modifies this`when, this`fired, this`triggers
      ensures View() == Ticked(old(View()))
    {
      if fired {
        return;
      }
      when := Sub(when, INTERVAL);
      if when == ZERO {
        triggers := triggers + 1;
        fired := true;
      }
    }
  }

  class Clock {
    var armed: seq<Timer>
    var monotonic: Timespec
    var realtime: Timespec

    ghost predicate Valid()
      reads this, armed
    {
      Normal(monotonic) && Normal(realtime) && forall i :: 0 <= i < |armed| ==> armed[i].index == i
    }

    constructor (bootTime: nat)
      ensures Valid() && armed == [] && monotonic == ZERO && realtime == Timespec(bootTime, 0)
    {
      armed, monotonic, realtime := [], ZERO, Timespec(bootTime, 0);
    }

    /** `timer_arm`. */
    method Arm(t: Timer)
      requires Valid() && t !in armed
      modifies this`armed, t`index, t`fired
      ensures Valid() && armed == old(armed) + [t] && t.index == |old(armed)| && !t.fired
    {
      t.index := |armed|;
      t.fired := false;
      armed := armed + [t];
    }

    /** `timer_disarm`: the last timer takes the place of the one that goes. */
    method Disarm(t: Timer)
      requires Valid() && (t in armed || t.index == -1)
      modifies this`armed, armed`index, t`index
      ensures Valid() && t !in armed && t.index == -1
      ensures armed == if old(t.index) == -1 then old(armed) else Removed(old(armed), old(t.index))
    {
      if |armed| == 0 || t.index == -1 || t.index >= |armed| {
        assert t !in armed;
        return;
      }
      ghost var was := armed;
      ghost var i := t.index;
      assert was[i] == t && forall k :: 0 <= k < |was| && k != i ==> was[k] != t;
      assert forall k :: 0 <= k < |was| - 1 ==> was[k] != was[|was| - 1];
      var last := armed[|armed| - 1];
      armed := armed[t.index := last];
      assert armed[t.index] in was;
      armed[t.index].index := t.index;
      armed := armed[..|armed| - 1];
      t.index := -1;
      assert forall k :: 0 <= k < |armed| ==> armed[k] == if k == i then last else was[k];
    }

    /** `timer_handler`; `free` says that the timer lock could be taken. */
    method Handle(free: bool)
      requires Valid()
      modifies this`monotonic, this`realtime, armed`when, armed`fired, armed`triggers
      ensures Valid() && armed == old(armed)
      ensures Nanos(monotonic) == old(Nanos(monotonic)) + TICK && Nanos(realtime) == old(Nanos(realtime)) + TICK
      ensures forall i :: 0 <= i < |armed| ==>
                armed[i].View() == if free then Ticked(old(armed[i].View())) else old(armed[i].View())
    {
      monotonic := Add(monotonic, INTERVAL);
      realtime := Add(realtime, INTERVAL);
      if free {
        var i := 0;
        while i < |armed|
          invariant 0 <= i <= |armed| && armed == old(armed) && Valid()
          invariant monotonic == Add(old(monotonic), INTERVAL) && realtime == Add(old(realtime), INTERVAL)
          invariant forall j :: 0 <= j < i ==> armed[j].View() == Ticked(old(armed[j].View()))
          invariant forall j :: i <= j < |armed| ==> armed[j].View() == old(armed[j].View())
        {
          hide Add, Sub, Ticked;
          armed[i].Tick();
          i := i + 1;
        }
      }
    }
  }

  /** Exactly one element goes. */
  lemma RemovedOne<T>(s: seq<T>, i: nat)
    requires i < |s|
    ensures multiset(Removed(s, i)) == multiset(s) - multiset{s[i]}
  {
    var n := |s| - 1;
    var t := s[i := s[n]];
    assert s == s[..n] + [s[n]];
    if i == n {
      assert t[..n] == s[..n];
    } else {
      assert s[..n] == s[..i] + [s[i]] + s[i + 1..n];
      assert t[..n] == s[..i] + [s[n]] + s[i + 1..n];
    }
  }
}
