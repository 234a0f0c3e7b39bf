/** Events, and the threads that wait on them (`kernel/lib/event.c`). */
module Events {

  const EVENT_MAX_LISTENERS: nat := 32
  const MAX_EVENTS: nat := 32

  datatype Listener = Listener(thread: nat, which: nat)
  datatype Event = Event(pending: nat, listeners: seq<Listener>)

  /** What a thread that runs again is going to return, once it has looked. */
  datatype Choice = Unread | Chose(ret: int)

  /** `waiting` says that the thread is inside `event_await`, past the point where it left the run queue. */
  datatype Thread = Thread(
    waiting: bool, enqueued: bool, bySignal: bool, whichEvent: nat, attached: seq<nat>, choice: Choice)

  /** `got` notes, for each thread, which of its events were delivered to it since it went to sleep, in order. */
  datatype World = World(events: seq<Event>, threads: seq<Thread>, got: seq<seq<nat>>)

  // ----- the invariant -----

  ghost predicate ListenerOk(w: World, e: nat, l: Listener) {
    && l.thread < |w.threads| && w.threads[l.thread].waiting
    && l.which < |w.threads[l.thread].attached| && w.threads[l.thread].attached[l.which] == e
  }

  ghost predicate NoTwice(list: seq<Listener>) {
    forall j, k :: 0 <= j < k < |list| ==> list[j].thread != list[k].thread
  }

  ghost predicate EventOk(w: World, e: nat)
    requires e < |w.events|
  {
    var list := w.events[e].listeners;
    && |list| <= EVENT_MAX_LISTENERS && NoTwice(list)
    && (list != [] ==> w.events[e].pending == 0)
    && (forall j :: 0 <= j < |list| ==> ListenerOk(w, e, list[j]))
  }

  ghost predicate Distinct(s: seq<nat>) {
    forall j, k :: 0 <= j < k < |s| ==> s[j] != s[k]
  }

  ghost predicate Ids(w: World, events: seq<nat>) {
    Distinct(events) && forall j :: 0 <= j < |events| ==> events[j] < |w.events|
  }

  /** The thread waits on the event: it is on its list, under the number it gave it. */
  ghost predicate Listens(w: World, t: nat, e: nat, which: nat)
    requires e < |w.events|
  {
    Listener(t, which) in w.events[e].listeners
  }

  ghost predicate NotOn(list: seq<Listener>, t: nat) {
    forall j :: 0 <= j < |list| ==> list[j].thread != t
  }

  ghost predicate ThreadOk(w: World, t: nat)
    requires t < |w.threads|
  {
    var thread := w.threads[t];
    && Ids(w, thread.attached) && |thread.attached| <= MAX_EVENTS
    && (!thread.waiting ==> thread.attached == [])
    && !thread.bySignal
  }

  /** A thread is on the list of the events not yet delivered to it, and on no other. */
  ghost predicate ListsOk(w: World, t: nat)
    requires t < |w.threads| == |w.got| && Ids(w, w.threads[t].attached)
  {
    var attached, got := w.threads[t].attached, w.got[t];
    && Distinct(got)
    && (forall k :: 0 <= k < |got| ==> got[k] < |attached|)
    && (forall i :: 0 <= i < |attached| ==>
          if i in got then NotOn(w.events[attached[i]].listeners, t) else Listens(w, t, attached[i], i))
  }

  /** How what a thread will return depends on what was delivered to it. */
  ghost predicate ChoiceOk(thread: Thread, got: seq<nat>) {
    && (!thread.enqueued ==> got == [] && thread.choice == Unread)
    && (thread.enqueued ==> got != [] && thread.whichEvent == got[|got| - 1])
    && (thread.choice.Chose? ==> 0 <= thread.choice.ret && thread.choice.ret in got)
  }

  ghost predicate GotOk(w: World, t: nat)
    requires t < |w.threads| == |w.got|
  {
    w.threads[t].waiting ==>
      && Ids(w, w.threads[t].attached) && ListsOk(w, t) && ChoiceOk(w.threads[t], w.got[t])
  }

  /**
    Events with listeners have nothing pending; a thread that waits is on the lists of exactly those events that
    were not delivered to it, none was delivered twice, and it runs again with the last one, never because of a
    signal.
   */
  ghost predicate Inv(w: World) {
    && |w.threads| == |w.got|
    && (forall e :: 0 <= e < |w.events| ==> EventOk(w, e))
    && (forall t :: 0 <= t < |w.threads| ==> ThreadOk(w, t))
    && (forall t :: 0 <= t < |w.threads| ==> GotOk(w, t))
  }

  // ----- what each step does -----

  ghost predicate Idle(w: World, events: seq<nat>)
    requires Ids(w, events)
  {
    forall j :: 0 <= j < |events| ==> w.events[events[j]].pending == 0
  }

  /** An await takes one pending trigger of the first event that has any. */
  ghost predicate Consumes(w: World, v: World, events: seq<nat>, i: int) {
    && Ids(w, events) && 0 <= i < |events|
    && Idle(w, events[..i]) && w.events[events[i]].pending > 0
    && var event := w.events[events[i]];
       v == w.(events := w.events[events[i] := event.(pending := event.pending - 1)])
  }

  /** The thread `t` joins the list of each of the first `n` events. */
  ghost predicate Joined(was: seq<Event>, now: seq<Event>, events: seq<nat>, n: nat, t: nat)
    requires n <= |events| && forall j :: 0 <= j < |events| ==> events[j] < |was|
  {
    && |was| == |now|
    && (forall j {:trigger events[j]} :: 0 <= j < n ==>
          now[events[j]] == Event(was[events[j]].pending, was[events[j]].listeners + [Listener(t, j)]))
    && (forall e :: 0 <= e < |was| && e !in events[..n] ==> now[e] == was[e])
  }

  /** An await with nothing pending puts the thread on every list and takes it off the run queue. */
  ghost predicate Parks(w: World, v: World, t: nat, events: seq<nat>) {
    && Ids(w, events) && |events| <= MAX_EVENTS && t < |w.threads| && Idle(w, events)
    && (forall j :: 0 <= j < |events| ==> |w.events[events[j]].listeners| < EVENT_MAX_LISTENERS)
    && Joined(w.events, v.events, events, |events|, t)
    && t < |w.got| && v.got == w.got[t := []]
    && v.threads ==
       w.threads[t := w.threads[t].(waiting := true, enqueued := false, attached := events, choice := Unread)]
  }

  /** `sched_enqueue_thread`, in a run queue with room. */
  function Enqueued(thread: Thread, bySignal: bool): Thread {
    if thread.enqueued then thread else thread.(enqueued := true, bySignal := bySignal)
  }

  /** The threads after the first `n` listeners have been woken. */
  ghost predicate Woken(was: seq<Thread>, now: seq<Thread>, list: seq<Listener>, n: nat)
    requires n <= |list|
  {
    && |was| == |now|
    && (forall j :: 0 <= j < n ==> list[j].thread < |was|)
    && (forall j :: 0 <= j < n ==>
          now[list[j].thread] == Enqueued(was[list[j].thread].(whichEvent := list[j].which), false))
    && (forall t :: 0 <= t < |was| && NotOn(list[..n], t) ==> now[t] == was[t])
  }

  /** The deliveries to the first `n` listeners have been noted. */
  ghost predicate Noted(was: seq<seq<nat>>, now: seq<seq<nat>>, list: seq<Listener>, n: nat)
    requires n <= |list|
  {
    && |was| == |now|
    && (forall j :: 0 <= j < n ==> list[j].thread < |was|)
    && (forall j :: 0 <= j < n ==> now[list[j].thread] == was[list[j].thread] + [list[j].which])
    && (forall t :: 0 <= t < |was| && NotOn(list[..n], t) ==> now[t] == was[t])
  }

  /** A trigger wakes every listener, or is remembered if there is none (unless it may be dropped). */
  ghost predicate Triggers(w: World, v: World, e: nat, drop: bool) {
    && e < |w.events|
    && var event := w.events[e];
       if event.listeners == [] then
         v == if drop then w else w.(events := w.events[e := event.(pending := event.pending + 1)])
       else
         && v.events == w.events[e := event.(listeners := [])]
         && Woken(w.threads, v.threads, event.listeners, |event.listeners|)
         && Noted(w.got, v.got, event.listeners, |event.listeners|)
  }

  /** The first place of the thread on the list, or its length. */
  function Place(list: seq<Listener>, t: nat): (j: nat)
    ensures j <= |list| && (forall k :: 0 <= k < j ==> list[k].thread != t) && (j < |list| ==> list[j].thread == t)
  {
    if list == [] || list[0].thread == t then 0 else 1 + Place(list[1..], t)
  }

  /** The thread's entry is overwritten by the last one. */
  function SwapOut(list: seq<Listener>, t: nat): seq<Listener> {
    var j := Place(list, t);
    if j == |list| then list else list[j := list[|list| - 1]][..|list| - 1]
  }

  ghost predicate Left(was: seq<Event>, now: seq<Event>, events: seq<nat>, n: nat, t: nat)
    requires n <= |events| && forall j :: 0 <= j < |events| ==> events[j] < |was|
  {
    && |was| == |now|
    && (forall j {:trigger events[j]} :: 0 <= j < n ==>
          now[events[j]] == Event(was[events[j]].pending, SwapOut(was[events[j]].listeners, t)))
    && (forall e :: 0 <= e < |was| && e !in events[..n] ==> now[e] == was[e])
  }

  /** A thread back on the run queue looks once at what woke it: the last event that fired, or else a signal. */
  ghost predicate Looks(w: World, v: World, t: nat) {
    && t < |w.threads| && w.threads[t].waiting && w.threads[t].enqueued && w.threads[t].choice == Unread
    && var ret := if w.threads[t].bySignal then -1 else w.threads[t].whichEvent;
       v == w.(threads := w.threads[t := w.threads[t].(choice := Chose(ret))])
  }

  /** Then it leaves all lists and returns what it saw. */
  ghost predicate Resumes(w: World, v: World, t: nat, ret: int) {
    && t < |w.threads| && w.threads[t].waiting && w.threads[t].choice == Chose(ret) && Ids(w, w.threads[t].attached)
    && Left(w.events, v.events, w.threads[t].attached, |w.threads[t].attached|, t)
    && v.got == w.got
    && v.threads == w.threads[t := w.threads[t].(waiting := false, attached := [], choice := Unread)]
  }

  // ----- every step keeps the invariant -----

  /** Steps that touch neither threads nor lists. */
  lemma SameLists(w: World, v: World)
    requires Inv(w) && v.threads == w.threads && v.got == w.got && |v.events| == |w.events|
    requires forall e :: 0 <= e < |w.events| ==> v.events[e].listeners == w.events[e].listeners
    ensures forall t :: 0 <= t < |v.threads| ==> ThreadOk(v, t) && GotOk(v, t)
  {
    hide EventOk;
    forall t | 0 <= t < |v.threads| ensures ThreadOk(v, t) && GotOk(v, t) {
      assert ThreadOk(w, t) && GotOk(w, t);
    }
  }

  lemma ConsumesInv(w: World, v: World, events: seq<nat>, i: int)
    requires Inv(w) && Consumes(w, v, events, i)
    ensures Inv(v)
  {
    forall e | 0 <= e < |v.events| ensures EventOk(v, e) {
      assert EventOk(w, e);
      forall j | 0 <= j < |v.events[e].listeners| ensures ListenerOk(v, e, v.events[e].listeners[j]) {
        assert ListenerOk(w, e, w.events[e].listeners[j]);
      }
    }
    SameLists(w, v);
  }

  lemma ParksInv(w: World, v: World, t: nat, events: seq<nat>)
    requires Inv(w) && Parks(w, v, t, events) && !w.threads[t].waiting
    ensures Inv(v)
  {
    forall e | 0 <= e < |v.events| ensures EventOk(v, e) { ParksEvent(w, v, t, events, e); }
    forall u | 0 <= u < |v.threads| ensures ThreadOk(v, u) && GotOk(v, u) { ParksThread(w, v, t, events, u); }
  }

  lemma ParksEvent(w: World, v: World, t: nat, events: seq<nat>, e: nat)
    requires Inv(w) && Parks(w, v, t, events) && !w.threads[t].waiting && e < |w.events|
    ensures EventOk(v, e)
  {
    hide ThreadOk;
    assert EventOk(w, e);
    assert events[..|events|] == events;
    var list := w.events[e].listeners;
    forall j | 0 <= j < |list| ensures list[j].thread != t && ListenerOk(v, e, list[j]) {
      assert ListenerOk(w, e, list[j]);
    }
    if e in events {
      var k :| 0 <= k < |events| && events[k] == e;
      assert v.events[e].listeners == list + [Listener(t, k)];
    }
  }

  lemma ParksThread(w: World, v: World, t: nat, events: seq<nat>, u: nat)
    requires Inv(w) && Parks(w, v, t, events) && !w.threads[t].waiting && u < |w.threads|
    ensures |v.got| == |v.threads| && ThreadOk(v, u) && GotOk(v, u)
  {
    hide EventOk;
    assert ThreadOk(w, u) && GotOk(w, u);
    assert events[..|events|] == events;
    if u == t {
      forall i | 0 <= i < |events| ensures Listens(v, t, events[i], i) {
        assert v.events[events[i]].listeners[|w.events[events[i]].listeners|] == Listener(t, i);
      }
    } else {
      forall e, k | 0 <= e < |w.events| && Listens(w, u, e, k) ensures Listens(v, u, e, k) {
        StillThere(w, v, t, events, e, Listener(u, k));
      }
      forall e | 0 <= e < |w.events| && NotOn(w.events[e].listeners, u) ensures NotOn(v.events[e].listeners, u) {
        if e in events {
          var k :| 0 <= k < |events| && events[k] == e;
          assert v.events[e].listeners == w.events[e].listeners + [Listener(t, k)];
        }
      }
    }
  }

  lemma StillThere(w: World, v: World, t: nat, events: seq<nat>, e: nat, l: Listener)
    requires Parks(w, v, t, events) && e < |w.events| && l in w.events[e].listeners
    ensures l in v.events[e].listeners
  {
    assert events[..|events|] == events;
    if e in events {
      var k :| 0 <= k < |events| && events[k] == e;
      assert v.events[e].listeners == w.events[e].listeners + [Listener(t, k)];
    }
  }

  lemma WokenSame(was: seq<Thread>, now: seq<Thread>, list: seq<Listener>, t: nat)
    requires Woken(was, now, list, |list|) && t < |was|
    ensures now[t].waiting == was[t].waiting && now[t].attached == was[t].attached
    ensures now[t].bySignal ==> was[t].bySignal
    ensures NotOn(list, t) ==> now[t] == was[t]
  {
    assert list[..|list|] == list;
  }

  lemma TriggersInv(w: World, v: World, e: nat, drop: bool)
    requires Inv(w) && Triggers(w, v, e, drop)
    ensures Inv(v)
  {
    if w.events[e].listeners == [] {
      RaisedInv(w, v, e, drop);
    } else {
      forall x | 0 <= x < |v.events| ensures EventOk(v, x) { TriggersEvent(w, v, e, drop, x); }
      WokenLength(w.threads, v.threads, w.events[e].listeners);
      forall t | 0 <= t < |v.threads| ensures ThreadOk(v, t) && GotOk(v, t) { TriggersThread(w, v, e, drop, t); }
    }
  }

  lemma RaisedInv(w: World, v: World, e: nat, drop: bool)
    requires Inv(w) && Triggers(w, v, e, drop) && w.events[e].listeners == []
    ensures Inv(v)
  {
    forall x | 0 <= x < |v.events| ensures EventOk(v, x) {
      assert EventOk(w, x);
      forall j | 0 <= j < |v.events[x].listeners| ensures ListenerOk(v, x, v.events[x].listeners[j]) {
        assert ListenerOk(w, x, w.events[x].listeners[j]);
      }
    }
    SameLists(w, v);
  }

  lemma TriggersEvent(w: World, v: World, e: nat, drop: bool, x: nat)
    requires Inv(w) && Triggers(w, v, e, drop) && w.events[e].listeners != [] && x < |w.events|
    ensures EventOk(v, x)
  {
    hide ThreadOk, Woken;
    assert EventOk(w, x);
    forall j | 0 <= j < |v.events[x].listeners| ensures ListenerOk(v, x, v.events[x].listeners[j]) {
      assert ListenerOk(w, x, w.events[x].listeners[j]);
      assert |v.threads| == |w.threads| by { WokenLength(w.threads, v.threads, w.events[e].listeners); }
      WokenSame(w.threads, v.threads, w.events[e].listeners, v.events[x].listeners[j].thread);
    }
  }

  lemma WokenLength(was: seq<Thread>, now: seq<Thread>, list: seq<Listener>)
    requires Woken(was, now, list, |list|)
    ensures |was| == |now|
  {
  }

  lemma TriggersThread(w: World, v: World, e: nat, drop: bool, t: nat)
    requires Inv(w) && Triggers(w, v, e, drop) && w.events[e].listeners != [] && t < |v.threads|
    ensures |v.got| == |v.threads| && ThreadOk(v, t) && GotOk(v, t)
  {
    hide Woken, Noted, GotOk;
    var list := w.events[e].listeners;
    WokenLength(w.threads, v.threads, list);
    NotedLength(w.got, v.got, list);
    WokenSame(w.threads, v.threads, list, t);
    assert ThreadOk(w, t) && GotOk(w, t) && EventOk(w, e);
    if NotOn(list, t) {
      NotedSame(w.got, v.got, list, t);
      NotWoken(w, v, e, t);
    } else {
      var j :| 0 <= j < |list| && list[j].thread == t;
      assert ListenerOk(w, e, list[j]);
      OneWoken(w, v, e, t, j);
    }
  }

  lemma NotedLength(was: seq<seq<nat>>, now: seq<seq<nat>>, list: seq<Listener>)
    requires Noted(was, now, list, |list|)
    ensures |was| == |now|
  {
  }

  lemma NotedSame(was: seq<seq<nat>>, now: seq<seq<nat>>, list: seq<Listener>, t: nat)
    requires Noted(was, now, list, |list|) && t < |was| && NotOn(list, t)
    ensures |was| == |now| && now[t] == was[t]
  {
    assert list[..|list|] == list;
  }

  lemma NotWoken(w: World, v: World, e: nat, t: nat)
    requires t < |w.threads| == |w.got| == |v.got| == |v.threads| && e < |w.events| && GotOk(w, t)
    requires v.events == w.events[e := w.events[e].(listeners := [])] && NotOn(w.events[e].listeners, t)
    requires v.threads[t] == w.threads[t] && v.got[t] == w.got[t]
    ensures GotOk(v, t)
  {
    if w.threads[t].waiting {
      forall x, k | 0 <= x < |w.events| && Listens(w, t, x, k) ensures Listens(v, t, x, k) {
        assert x != e;
      }
    }
  }

  /** The thread behind the listener at `j` of the triggered event gets one more delivery, not had before. */
  lemma OneWoken(w: World, v: World, e: nat, t: nat, j: nat)
    requires t < |w.threads| == |w.got| == |v.threads| == |v.got| && e < |w.events| && GotOk(w, t)
    requires j < |w.events[e].listeners| && w.events[e].listeners[j].thread == t
    requires ListenerOk(w, e, w.events[e].listeners[j])
    requires v.events == w.events[e := w.events[e].(listeners := [])]
    requires Woken(w.threads, v.threads, w.events[e].listeners, |w.events[e].listeners|)
    requires Noted(w.got, v.got, w.events[e].listeners, |w.events[e].listeners|)
    ensures GotOk(v, t)
  {
    var i := w.events[e].listeners[j].which;
    var attached, got := w.threads[t].attached, w.got[t];
    assert v.got[w.events[e].listeners[j].thread] == got + [i];
    assert v.threads[w.events[e].listeners[j].thread] == Enqueued(w.threads[t].(whichEvent := i), false);
    assert !NotOn(w.events[e].listeners, t) && attached[i] == e;
    assert i !in got;
    assert ListsOk(v, t) by { OneNoted(w, v, e, t, i); }
  }

  lemma OneNoted(w: World, v: World, e: nat, t: nat, i: nat)
    requires t < |w.threads| == |w.got| == |v.threads| == |v.got| && e < |w.events|
    requires Ids(w, w.threads[t].attached) && ListsOk(w, t)
    requires v.events == w.events[e := w.events[e].(listeners := [])] && v.threads[t].attached == w.threads[t].attached
    requires i < |w.threads[t].attached| && w.threads[t].attached[i] == e && i !in w.got[t]
    requires v.got[t] == w.got[t] + [i]
    ensures ListsOk(v, t)
  {
    var attached, got := w.threads[t].attached, w.got[t];
    forall k | 0 <= k < |attached|
      ensures if k in v.got[t] then NotOn(v.events[attached[k]].listeners, t) else Listens(v, t, attached[k], k)
    {
      if k != i {
        assert attached[k] != e;
        assert k in v.got[t] <==> k in got;
      }
    }
  }

  lemma SwapOutFacts(list: seq<Listener>, t: nat)
    requires NoTwice(list)
    ensures NoTwice(SwapOut(list, t)) && NotOn(SwapOut(list, t), t) && |SwapOut(list, t)| <= |list|
    ensures forall l :: l in SwapOut(list, t) <==> l in list && l.thread != t
  {
    var j := Place(list, t);
    var out := SwapOut(list, t);
    if j < |list| {
      forall l | l in list && l.thread != t ensures l in out {
        var k :| 0 <= k < |list| && list[k] == l;
        assert out[if k == |list| - 1 then j else k] == l;
      }
    }
  }

  /** Whoever has returned from `event_await` is on no list at all. */
  lemma ResumesLeavesAll(w: World, v: World, t: nat, ret: int, e: nat)
    requires Inv(w) && Resumes(w, v, t, ret) && e < |w.events|
    ensures |v.events| == |w.events| && NotOn(v.events[e].listeners, t)
    ensures forall l :: l in v.events[e].listeners <==> l in w.events[e].listeners && l.thread != t
    ensures NoTwice(v.events[e].listeners) && |v.events[e].listeners| <= |w.events[e].listeners|
    ensures v.events[e].pending == w.events[e].pending
  {
    hide ThreadOk, SwapOut;
    var attached := w.threads[t].attached;
    var list := w.events[e].listeners;
    assert EventOk(w, e);
    SwapOutFacts(list, t);
    assert attached[..|attached|] == attached;
    if e in attached {
      var k :| 0 <= k < |attached| && attached[k] == e;
      assert v.events[attached[k]].listeners == SwapOut(list, t);
    } else {
      forall j | 0 <= j < |list| ensures list[j].thread != t {
        assert ListenerOk(w, e, list[j]);
      }
    }
  }

  lemma ResumesInv(w: World, v: World, t: nat, ret: int)
    requires Inv(w) && Resumes(w, v, t, ret)
    ensures Inv(v)
  {
    forall e | 0 <= e < |v.events| ensures EventOk(v, e) { ResumesEvent(w, v, t, ret, e); }
    forall u | 0 <= u < |v.threads| ensures ThreadOk(v, u) && GotOk(v, u) { ResumesThread(w, v, t, ret, u); }
  }

  lemma ResumesEvent(w: World, v: World, t: nat, ret: int, e: nat)
    requires Inv(w) && Resumes(w, v, t, ret) && e < |v.events|
    ensures EventOk(v, e)
  {
    hide ThreadOk, Left, SwapOut;
    assert |v.events| == |w.events| by { LeftLength(w, v, t, ret); }
    assert EventOk(w, e);
    ResumesLeavesAll(w, v, t, ret, e);
    var list := v.events[e].listeners;
    assert list != [] ==> list[0] in w.events[e].listeners;
    forall j | 0 <= j < |list| ensures ListenerOk(v, e, list[j]) {
      assert list[j] in list && list[j] in w.events[e].listeners;
      var k :| 0 <= k < |w.events[e].listeners| && w.events[e].listeners[k] == list[j];
      assert ListenerOk(w, e, w.events[e].listeners[k]);
    }
  }

  lemma LeftLength(w: World, v: World, t: nat, ret: int)
    requires Resumes(w, v, t, ret)
    ensures |v.events| == |w.events|
  {
  }

  lemma ResumesThread(w: World, v: World, t: nat, ret: int, u: nat)
    requires Inv(w) && Resumes(w, v, t, ret) && u < |v.threads|
    ensures |v.got| == |v.threads| && ThreadOk(v, u) && GotOk(v, u)
  {
    hide EventOk, Left, SwapOut;
    LeftLength(w, v, t, ret);
    assert ThreadOk(w, u) && GotOk(w, u);
    if u != t {
      forall e, k | 0 <= e < |w.events| && Listens(w, u, e, k) ensures Listens(v, u, e, k) {
        ResumesLeavesAll(w, v, t, ret, e);
      }
      forall e | 0 <= e < |w.events| && NotOn(w.events[e].listeners, u) ensures NotOn(v.events[e].listeners, u) {
        ResumesLeavesAll(w, v, t, ret, e);
        forall j | 0 <= j < |v.events[e].listeners| ensures v.events[e].listeners[j].thread != u {
          assert v.events[e].listeners[j] in w.events[e].listeners;
        }
      }
    }
  }

  lemma LooksInv(w: World, v: World, t: nat)
    requires Inv(w) && Looks(w, v, t)
    ensures Inv(v)
  {
    forall e | 0 <= e < |v.events| ensures EventOk(v, e) {
      assert EventOk(w, e);
      forall j | 0 <= j < |v.events[e].listeners| ensures ListenerOk(v, e, v.events[e].listeners[j]) {
        assert ListenerOk(w, e, w.events[e].listeners[j]);
      }
    }
    forall u | 0 <= u < |v.threads| ensures ThreadOk(v, u) && GotOk(v, u) {
      assert ThreadOk(w, u) && GotOk(w, u);
    }
  }

  // ----- whole runs -----

  /** How far a call of `event_await` gets before it gives up the processor. */
  datatype Outcome = Took(index: nat) | Nothing | Parked | Panicked

  datatype Step = Await(thread: nat, events: seq<nat>, block: bool, outcome: Outcome) | Look(thread: nat)
                | Resume(thread: nat, ret: int) | Trigger(event: nat, drop: bool)

  /**
    One locked section of some thread. No step enqueues a thread by a signal: every call of
    `sched_enqueue_thread` in the kernel says that it does not.
   */
  ghost predicate Next(w: World, s: Step, v: World) {
    match s
    case Await(t, events, block, outcome) =>
      && Ids(w, events) && t < |w.threads| && !w.threads[t].waiting
      && (match outcome
          case Took(i) => Consumes(w, v, events, i)
          case Nothing => Idle(w, events) && !block && v == w
          case Parked => Idle(w, events) && block && Parks(w, v, t, events)
          case Panicked => false)
    case Look(t) => Looks(w, v, t)
    case Resume(t, ret) => Resumes(w, v, t, ret)
    case Trigger(e, drop) => Triggers(w, v, e, drop)
  }

  /** Nothing has happened yet. */
  ghost predicate Init(w: World) {
    && |w.threads| == |w.got|
    && (forall e :: 0 <= e < |w.events| ==> w.events[e] == Event(0, []))
    && (forall t :: 0 <= t < |w.threads| ==>
          !w.threads[t].waiting && !w.threads[t].bySignal && w.threads[t].attached == [])
  }

  ghost predicate Run(worlds: seq<World>, steps: seq<Step>) {
    && |worlds| == |steps| + 1 && Init(worlds[0])
    && forall i {:trigger steps[i]} :: 0 <= i < |steps| ==> Next(worlds[i], steps[i], worlds[i + 1])
  }

  lemma NextInv(w: World, s: Step, v: World)
    requires Inv(w) && Next(w, s, v)
    ensures Inv(v)
  {
    hide Inv, Consumes, Parks, Looks, Resumes, Triggers, Idle;
    match s
    case Await(t, events, block, outcome) =>
      if outcome.Took? {
        ConsumesInv(w, v, events, outcome.index);
      } else if block {
        ParksInv(w, v, t, events);
      }
    case Look(t) => LooksInv(w, v, t);
    case Resume(t, ret) => ResumesInv(w, v, t, ret);
    case Trigger(e, drop) => TriggersInv(w, v, e, drop);
  }

  lemma {:induction false} RunInv(worlds: seq<World>, steps: seq<Step>, n: nat)
    requires Run(worlds, steps) && n <= |steps|
    ensures Inv(worlds[n])
  {
    if n > 0 {
      RunInv(worlds, steps, n - 1);
      hide Inv, Next, Init;
      assert Next(worlds[n - 1], steps[n - 1], worlds[n - 1 + 1]);
      NextInv(worlds[n - 1], steps[n - 1], worlds[n]);
    }
  }

  // ----- what the steps alone say -----

  /** Of `event_trigger(e, drop)`: it is not dropped. */
  ghost predicate Raises(w: World, s: Step, e: nat) {
    s.Trigger? && s.event == e && (!s.drop || Delivers(w, s, e))
  }

  /** It finds threads on the list of the event. */
  ghost predicate Delivers(w: World, s: Step, e: nat) {
    s.Trigger? && s.event == e && e < |w.events| && w.events[e].listeners != []
  }

  /** An await returns at once, with this event. */
  predicate Takes(s: Step, e: nat) {
    s.Await? && s.outcome.Took? && s.outcome.index < |s.events| && s.events[s.outcome.index] == e
  }

  ghost function Raised(worlds: seq<World>, steps: seq<Step>, n: nat, e: nat): nat
    requires n <= |steps| < |worlds|
  {
    if n == 0 then 0
    else Raised(worlds, steps, n - 1, e) + if Raises(worlds[n - 1], steps[n - 1], e) then 1 else 0
  }

  ghost function Delivered(worlds: seq<World>, steps: seq<Step>, n: nat, e: nat): nat
    requires n <= |steps| < |worlds|
  {
    if n == 0 then 0
    else Delivered(worlds, steps, n - 1, e) + if Delivers(worlds[n - 1], steps[n - 1], e) then 1 else 0
  }

  function Taken(steps: seq<Step>, n: nat, e: nat): nat
    requires n <= |steps|
  {
    if n == 0 then 0 else Taken(steps, n - 1, e) + if Takes(steps[n - 1], e) then 1 else 0
  }

  /** A wait as its steps tell it: the events waited for, and the numbers of those triggered since, in order. */
  datatype Wait = Wait(waiting: bool, events: seq<nat>, fired: seq<nat>)

  /** The first place of the event, or the length. */
  function NumberOf(events: seq<nat>, e: nat): (i: nat)
    ensures i <= |events| && (i < |events| ==> events[i] == e) && (e in events ==> i < |events|)
  {
    if events == [] || events[0] == e then 0 else 1 + NumberOf(events[1..], e)
  }

  function WaitStep(wait: Wait, s: Step, t: nat): Wait {
    match s
    case Await(u, events, block, outcome) => if u == t && outcome.Parked? then Wait(true, events, []) else wait
    case Look(u) => wait
    case Resume(u, ret) => if u == t then Wait(false, [], []) else wait
    case Trigger(e, drop) =>
      var i := NumberOf(wait.events, e);
      if i < |wait.events| && i !in wait.fired then wait.(fired := wait.fired + [i]) else wait
  }

  /** What thread `t` is waiting for after `n` steps. */
  function WaitOf(steps: seq<Step>, n: nat, t: nat): Wait
    requires n <= |steps|
  {
    if n == 0 then Wait(false, [], []) else WaitStep(WaitOf(steps, n - 1, t), steps[n - 1], t)
  }

  ghost predicate Agrees(w: World, t: nat, wait: Wait)
    requires t < |w.threads| == |w.got|
  {
    && w.threads[t].waiting == wait.waiting && w.threads[t].attached == wait.events
    && (wait.waiting ==> w.got[t] == wait.fired)
  }

  lemma NextSize(w: World, s: Step, v: World)
    requires Inv(w) && Next(w, s, v)
    ensures |v.events| == |w.events| && |v.threads| == |w.threads| == |v.got| == |w.got|
  {
  }

  /** A step leaves as many pending as it raises more than it delivers and takes. */
  lemma LedgerStep(w: World, s: Step, v: World, e: nat)
    requires Inv(w) && Next(w, s, v) && e < |w.events| == |v.events|
    ensures v.events[e].pending + (if Takes(s, e) then 1 else 0) + (if Delivers(w, s, e) then 1 else 0)
         == w.events[e].pending + if Raises(w, s, e) then 1 else 0
  {
    hide Woken, Noted, EventOk, ThreadOk, GotOk;
    match s
    case Await(t, events, block, outcome) =>
      assert events[..|events|] == events;
    case Look(t) =>
    case Resume(t, ret) => ResumesLeavesAll(w, v, t, ret, e);
    case Trigger(x, drop) =>
  }

  lemma {:induction false} SameSize(worlds: seq<World>, steps: seq<Step>, n: nat)
    requires Run(worlds, steps) && n <= |steps|
    ensures |worlds[n].events| == |worlds[0].events| && |worlds[n].threads| == |worlds[0].threads| == |worlds[n].got|
  {
    hide Inv, Next;
    if n > 0 {
      SameSize(worlds, steps, n - 1);
      RunInv(worlds, steps, n - 1);
      assert Next(worlds[n - 1], steps[n - 1], worlds[n - 1 + 1]);
      NextSize(worlds[n - 1], steps[n - 1], worlds[n]);
    }
  }

  /** Every trigger that was not dropped is still pending, or an await took it, or it found listeners. */
  lemma {:induction false} Ledger(worlds: seq<World>, steps: seq<Step>, n: nat, e: nat)
    requires Run(worlds, steps) && n <= |steps| && e < |worlds[0].events|
    ensures e < |worlds[n].events| == |worlds[0].events|
    ensures Raised(worlds, steps, n, e)
         == worlds[n].events[e].pending + Taken(steps, n, e) + Delivered(worlds, steps, n, e)
  {
    hide Inv, Next, Raises, Delivers, Takes;
    if n > 0 {
      Ledger(worlds, steps, n - 1, e);
      RunInv(worlds, steps, n - 1);
      assert Next(worlds[n - 1], steps[n - 1], worlds[n - 1 + 1]);
      NextSize(worlds[n - 1], steps[n - 1], worlds[n]);
      LedgerStep(worlds[n - 1], steps[n - 1], worlds[n], e);
    }
  }

  lemma AgreesStep(w: World, s: Step, v: World, t: nat, wait: Wait)
    requires Inv(w) && Next(w, s, v) && t < |w.threads| == |v.threads| == |w.got| == |v.got| && Agrees(w, t, wait)
    ensures Agrees(v, t, WaitStep(wait, s, t))
  {
    hide EventOk;
    assert ThreadOk(w, t) && GotOk(w, t);
    if s.Trigger? {
      hide Woken, Noted, ThreadOk, GotOk, Agrees;
      AgreesTrigger(w, v, s.event, s.drop, t, wait);
    }
  }

  lemma AgreesTrigger(w: World, v: World, e: nat, drop: bool, t: nat, wait: Wait)
    requires Inv(w) && Triggers(w, v, e, drop) && t < |w.threads| == |v.threads| == |w.got| == |v.got|
    requires Agrees(w, t, wait)
    ensures Agrees(v, t, WaitStep(wait, Trigger(e, drop), t))
  {
    hide Woken, Noted, EventOk;
    assert ThreadOk(w, t) && GotOk(w, t);
    var i := NumberOf(wait.events, e);
    if i < |wait.events| && i !in wait.fired {
      TriggersGot(w, v, e, drop, t, i);
    } else if w.events[e].listeners != [] {
      OffList(w, e, t, i);
      WokenSame(w.threads, v.threads, w.events[e].listeners, t);
      NotedSame(w.got, v.got, w.events[e].listeners, t);
    }
  }

  /** A thread that does not wait for the event, or had it delivered, is not on its list. */
  lemma OffList(w: World, e: nat, t: nat, i: nat)
    requires Inv(w) && e < |w.events| && t < |w.threads|
    requires e in w.threads[t].attached ==>
               i < |w.threads[t].attached| && w.threads[t].attached[i] == e && i in w.got[t]
    ensures NotOn(w.events[e].listeners, t)
  {
    assert ThreadOk(w, t) && GotOk(w, t) && EventOk(w, e);
    var list := w.events[e].listeners;
    forall j | 0 <= j < |list| ensures list[j].thread != t {
      assert ListenerOk(w, e, list[j]);
    }
  }

  /** In every run, each thread waits for what the steps say, and has been delivered what they say. */
  lemma {:induction false} WaitExact(worlds: seq<World>, steps: seq<Step>, n: nat, t: nat)
    requires Run(worlds, steps) && n <= |steps| && t < |worlds[0].threads|
    ensures t < |worlds[n].threads| == |worlds[n].got| && |worlds[n].threads| == |worlds[0].threads|
    ensures Agrees(worlds[n], t, WaitOf(steps, n, t))
  {
    hide Inv, Next, WaitStep;
    if n > 0 {
      WaitExact(worlds, steps, n - 1, t);
      RunInv(worlds, steps, n - 1);
      assert Next(worlds[n - 1], steps[n - 1], worlds[n - 1 + 1]);
      NextSize(worlds[n - 1], steps[n - 1], worlds[n]);
      AgreesStep(worlds[n - 1], steps[n - 1], worlds[n], t, WaitOf(steps, n - 1, t));
    }
  }

  /** A trigger finds listeners exactly when some thread waits for its event and has not had it. */
  lemma DeliversExact(worlds: seq<World>, steps: seq<Step>, n: nat, e: nat, drop: bool)
    requires Run(worlds, steps) && n < |steps| && steps[n] == Trigger(e, drop)
    ensures Delivers(worlds[n], steps[n], e) <==>
              exists t: nat :: t < |worlds[0].threads| && Awaits(WaitOf(steps, n, t), e)
  {
    RunInv(worlds, steps, n);
    var w := worlds[n];
    assert Next(w, steps[n], worlds[n + 1]);
    hide Next, Run;
    assert |w.threads| == |worlds[0].threads| by { SameSize(worlds, steps, n); }
    if w.events[e].listeners != [] {
      var l := w.events[e].listeners[0];
      assert EventOk(w, e);
      assert ListenerOk(w, e, l);
      WaitExact(worlds, steps, n, l.thread);
      if !Awaits(WaitOf(steps, n, l.thread), e) {
        OffList(w, e, l.thread, NumberOf(w.threads[l.thread].attached, e));
      }
    }
    if t: nat :| t < |worlds[0].threads| && Awaits(WaitOf(steps, n, t), e) {
      WaitExact(worlds, steps, n, t);
      var i := NumberOf(w.threads[t].attached, e);
      assert ThreadOk(w, t) && GotOk(w, t);
      assert Listens(w, t, e, i);
    }
  }

  predicate Awaits(wait: Wait, e: nat) {
    var i := NumberOf(wait.events, e);
    wait.waiting && i < |wait.events| && i !in wait.fired
  }

  /** What is left for an await to take. */
  ghost function Over(worlds: seq<World>, steps: seq<Step>, n: nat, e: nat): int
    requires n <= |steps| < |worlds|
  {
    Raised(worlds, steps, n, e) - Taken(steps, n, e) - Delivered(worlds, steps, n, e)
  }

  /**
    How an await ends at its first locks, in every run: it takes the first of its events of which a trigger is
    left over, and if there is none, it parks exactly when it may block.
   */
  lemma AwaitExact(worlds: seq<World>, steps: seq<Step>, n: nat, t: nat, events: seq<nat>, block: bool, out: Outcome)
    requires Run(worlds, steps) && n < |steps| && steps[n] == Await(t, events, block, out)
    ensures forall j :: 0 <= j < |events| ==> events[j] < |worlds[0].events|
    ensures out.Took? ==> out.index < |events| && Over(worlds, steps, n, events[out.index]) > 0
    ensures forall j :: 0 <= j < (if out.Took? && out.index < |events| then out.index else |events|) ==>
              Over(worlds, steps, n, events[j]) == 0
    ensures !out.Took? ==> out == if block then Parked else Nothing
  {
    var w := worlds[n];
    assert Next(w, steps[n], worlds[n + 1]);
    SameSize(worlds, steps, n);
    forall j | 0 <= j < |events| ensures Over(worlds, steps, n, events[j]) == w.events[events[j]].pending {
      Ledger(worlds, steps, n, events[j]);
    }
    if out.Took? {
      forall j | 0 <= j < out.index ensures w.events[events[j]].pending == 0 {
        assert events[..out.index][j] == events[j];
      }
    }
  }

  /**
    No lost wake-up. In every reachable state a thread that sleeps in `event_await` is on the list of each of
    its events, none of them has a trigger pending, and every trigger ever raised for them went to an await
    or to the threads then waiting; none was raised since it went to sleep.
   */
  lemma NoLostWakeup(worlds: seq<World>, steps: seq<Step>, n: nat, t: nat, i: nat)
    requires Run(worlds, steps) && n <= |steps| && t < |worlds[n].threads|
    requires worlds[n].threads[t].waiting && !worlds[n].threads[t].enqueued && i < |worlds[n].threads[t].attached|
    ensures var w := worlds[n]; var e := w.threads[t].attached[i];
      && e < |w.events| && Listens(w, t, e, i) && w.events[e].pending == 0
      && Raised(worlds, steps, n, e) == Taken(steps, n, e) + Delivered(worlds, steps, n, e)
      && WaitOf(steps, n, t) == Wait(true, w.threads[t].attached, [])
  {
    RunInv(worlds, steps, n);
    var w := worlds[n];
    assert ThreadOk(w, t) && GotOk(w, t);
    var e := w.threads[t].attached[i];
    assert Listens(w, t, e, i) && EventOk(w, e);
    SameSize(worlds, steps, n);
    Ledger(worlds, steps, n, e);
    WaitExact(worlds, steps, n, t);
  }

  /** The next trigger of an event puts every thread that sleeps on it back on the run queue. */
  lemma TriggerWakes(w: World, v: World, e: nat, drop: bool, t: nat, i: nat)
    requires Inv(w) && Triggers(w, v, e, drop) && t < |w.threads|
    requires w.threads[t].waiting && !w.threads[t].enqueued
    requires i < |w.threads[t].attached| && w.threads[t].attached[i] == e
    ensures |v.threads| == |w.threads|
    ensures v.threads[t] == w.threads[t].(whichEvent := i, enqueued := true, bySignal := false)
  {
    assert ThreadOk(w, t) && GotOk(w, t);
    assert Listens(w, t, e, i);
    var list := w.events[e].listeners;
    var j :| 0 <= j < |list| && list[j] == Listener(t, i);
    assert v.threads[list[j].thread] == Enqueued(w.threads[t].(whichEvent := i), false);
  }

  /** The events delivered to a waiting thread that it does not report when it returns `ret`. */
  ghost function Lost(w: World, t: nat, ret: int): set<nat>
    requires t < |w.got|
  {
    set i | i in w.got[t] && i != ret
  }

  /**
    What a parked await returns, in every run: never -1, but the number of an event that was delivered to the
    thread since it went to sleep. Nothing delivered to it is lost exactly when that was the only delivery.
   */
  lemma ReturnExact(worlds: seq<World>, steps: seq<Step>, n: nat, t: nat, ret: int)
    requires Run(worlds, steps) && n < |steps| && steps[n] == Resume(t, ret)
    ensures var w := worlds[n];
            && t < |w.threads| == |w.got| && 0 <= ret < |w.threads[t].attached| && ret in w.got[t]
            && Distinct(w.got[t]) && (forall k :: 0 <= k < |w.got[t]| ==> w.got[t][k] < |w.threads[t].attached|)
            && (Lost(w, t, ret) == {} <==> |w.got[t]| == 1)
  {
    RunInv(worlds, steps, n);
    var w := worlds[n];
    assert Next(w, steps[n], worlds[n + 1]);
    assert ThreadOk(w, t) && GotOk(w, t);
    LostExact(w, t, ret);
  }

  lemma LostExact(w: World, t: nat, ret: int)
    requires t < |w.got| && Distinct(w.got[t]) && ret in w.got[t]
    ensures Lost(w, t, ret) == {} <==> |w.got[t]| == 1
  {
    var got := w.got[t];
    var lost := Lost(w, t, ret);
    if |got| >= 2 {
      assert got[0] != got[1];
      assert got[if got[0] == ret then 1 else 0] in lost;
    } else {
      assert forall i :: i in got ==> i == got[0];
    }
  }

  /** What it looks at is the last of the events delivered so far. */
  lemma LooksLast(w: World, v: World, t: nat)
    requires Inv(w) && Looks(w, v, t)
    ensures |v.threads| == |w.threads| == |w.got| && v.threads[t].choice.Chose?
    ensures w.got[t] != [] && v.threads[t].choice.ret == w.got[t][|w.got[t]| - 1]
  {
    assert ThreadOk(w, t) && GotOk(w, t);
  }

  /** From its look on, what a thread is going to return stays the same. */
  lemma {:induction false} ChoiceStays(worlds: seq<World>, steps: seq<Step>, m: nat, n: nat, t: nat, ret: int)
    requires Run(worlds, steps) && m <= n <= |steps| && t < |worlds[m].threads|
    requires worlds[m].threads[t].waiting && worlds[m].threads[t].choice == Chose(ret)
    requires forall i :: m <= i < n ==> !(steps[i].Resume? && steps[i].thread == t)
    ensures t < |worlds[n].threads| && worlds[n].threads[t].waiting && worlds[n].threads[t].choice == Chose(ret)
  {
    hide Inv, Next;
    if m < n {
      ChoiceStays(worlds, steps, m, n - 1, t, ret);
      RunInv(worlds, steps, n - 1);
      assert Next(worlds[n - 1], steps[n - 1], worlds[n - 1 + 1]);
      NextSize(worlds[n - 1], steps[n - 1], worlds[n]);
      ChoiceStep(worlds[n - 1], steps[n - 1], worlds[n], t);
    }
  }

  lemma ChoiceStep(w: World, s: Step, v: World, t: nat)
    requires Inv(w) && Next(w, s, v) && t < |w.threads| == |v.threads| && w.threads[t].waiting
    requires w.threads[t].choice.Chose? && !(s.Resume? && s.thread == t)
    ensures v.threads[t].waiting && v.threads[t].choice == w.threads[t].choice
  {
    hide EventOk, ThreadOk, GotOk;
    if s.Trigger? && w.events[s.event].listeners != [] {
      var list := w.events[s.event].listeners;
      assert list[..|list|] == list;
    }
  }

  /**
    What a parked await returns, from the steps of the run alone: the number of the last of its events that was
    triggered before it looked.
   */
  lemma ReturnsLast(worlds: seq<World>, steps: seq<Step>, m: nat, n: nat, t: nat, ret: int)
    requires Run(worlds, steps) && m < n < |steps| && steps[m] == Look(t) && steps[n] == Resume(t, ret)
    requires forall i :: m < i < n ==> !(steps[i].Resume? && steps[i].thread == t)
    ensures var fired := WaitOf(steps, m, t).fired; fired != [] && ret == fired[|fired| - 1]
  {
    RunInv(worlds, steps, m);
    assert Next(worlds[m], steps[m], worlds[m + 1]);
    assert Next(worlds[n], steps[n], worlds[n + 1]);
    SameSize(worlds, steps, m);
    WaitExact(worlds, steps, m, t);
    LooksLast(worlds[m], worlds[m + 1], t);
    hide Inv, Next, Run;
    ChoiceStays(worlds, steps, m + 1, n, t, worlds[m + 1].threads[t].choice.ret);
  }

  /** Whoever waits for one event only never loses a delivery, in any run. */
  lemma OneEventLosesNothing(worlds: seq<World>, steps: seq<Step>, n: nat, t: nat, ret: int)
    requires Run(worlds, steps) && n < |steps| && steps[n] == Resume(t, ret)
    requires t < |worlds[n].threads| && |worlds[n].threads[t].attached| == 1
    ensures t < |worlds[n].got| && ret == 0 && Lost(worlds[n], t, ret) == {}
  {
    ReturnExact(worlds, steps, n, t, ret);
    FirstTwo(worlds[n].got[t]);
  }

  lemma FirstTwo(s: seq<nat>)
    requires Distinct(s)
    ensures |s| >= 2 ==> s[0] != s[1]
  {
  }

  /** Whoever waits for more can always lose one: two of its events fire before it looks. */
  lemma TwoEventsCanLose(w: World, v: World, x: World, y: World, z: World, t: nat, ret: int)
    requires Inv(w) && t < |w.threads| && w.threads[t].waiting && !w.threads[t].enqueued
    requires |w.threads[t].attached| >= 2
    requires Triggers(w, v, w.threads[t].attached[0], false) && Triggers(v, x, w.threads[t].attached[1], false)
    requires Looks(x, y, t) && Resumes(y, z, t, ret)
    ensures ret == 1 && t < |y.got| && Lost(y, t, ret) == {0}
  {
    var attached := w.threads[t].attached;
    assert GotOk(w, t);
    TriggersInv(w, v, attached[0], false);
    TriggersGot(w, v, attached[0], false, t, 0);
    TriggersInv(v, x, attached[1], false);
    TriggersGot(v, x, attached[1], false, t, 1);
    assert y.got[t] == [0, 1];
  }

  /** A trigger notes the event for a thread that it was not delivered to before. */
  lemma TriggersGot(w: World, v: World, e: nat, drop: bool, t: nat, i: nat)
    requires Inv(w) && Triggers(w, v, e, drop) && t < |w.threads| && w.threads[t].waiting
    requires i < |w.threads[t].attached| && w.threads[t].attached[i] == e && i !in w.got[t]
    ensures |v.threads| == |w.threads| == |w.got| == |v.got| && v.got[t] == w.got[t] + [i]
    ensures v.threads[t] == Enqueued(w.threads[t].(whichEvent := i), false)
  {
    assert ThreadOk(w, t) && GotOk(w, t);
    assert Listens(w, t, e, i);
    var list := w.events[e].listeners;
    var j :| 0 <= j < |list| && list[j] == Listener(t, i);
    assert v.threads[list[j].thread] == Enqueued(w.threads[t].(whichEvent := i), false);
    assert v.got[list[j].thread] == w.got[t] + [i];
  }

  /** A trigger that finds one listener, the only thread there is. */
  lemma WokenAlone(thread: Thread, l: Listener, got: seq<nat>)
    requires l.thread == 0
    ensures Woken([thread], [Enqueued(thread.(whichEvent := l.which), false)], [l], 1)
    ensures Noted([got], [got + [l.which]], [l], 1)
  {
    assert [l][..1][0] == l;
  }

  function Sleeper(enqueued: bool, whichEvent: nat, choice: Choice): Thread {
    Thread(true, enqueued, false, whichEvent, [0, 1], choice)
  }

  /** The states of a run in which that happens: one thread, two events. */
  function LosingWorld(n: nat): World {
    if n == 0 then
      World([Event(0, []), Event(0, [])], [Thread(false, true, false, 0, [], Unread)], [[]])
    else if n == 1 then
      World([Event(0, [Listener(0, 0)]), Event(0, [Listener(0, 1)])], [Sleeper(false, 0, Unread)], [[]])
    else if n == 2 then
      World([Event(0, []), Event(0, [Listener(0, 1)])], [Sleeper(true, 0, Unread)], [[0]])
    else
      var thread := if n == 3 then Sleeper(true, 1, Unread) else if n == 4 then Sleeper(true, 1, Chose(1))
                    else Thread(false, true, false, 1, [], Unread);
      World([Event(0, []), Event(0, [])], [thread], [[0, 1]])
  }

  lemma LosingParks()
    ensures Next(LosingWorld(0), Await(0, [0, 1], true, Parked), LosingWorld(1))
  {
    var events: seq<nat> := [0, 1];
    assert events[..2] == events && events[0] == 0 && events[1] == 1;
    assert Parks(LosingWorld(0), LosingWorld(1), 0, events);
  }

  lemma LosingTriggers()
    ensures Next(LosingWorld(1), Trigger(0, false), LosingWorld(2))
    ensures Next(LosingWorld(2), Trigger(1, false), LosingWorld(3))
  {
    hide Woken, Noted;
    WokenAlone(Sleeper(false, 0, Unread), Listener(0, 0), []);
    WokenAlone(Sleeper(true, 0, Unread), Listener(0, 1), [0]);
    assert [] + [0] == [0] && [0] + [1] == [0, 1];
    assert Enqueued(Sleeper(false, 0, Unread).(whichEvent := 0), false) == Sleeper(true, 0, Unread);
    assert Enqueued(Sleeper(true, 0, Unread).(whichEvent := 1), false) == Sleeper(true, 1, Unread);
  }

  lemma LosingReturns()
    ensures Next(LosingWorld(3), Look(0), LosingWorld(4))
    ensures Next(LosingWorld(4), Resume(0, 1), LosingWorld(5))
  {
  }

  lemma LosingEnds()
    ensures Init(LosingWorld(0))
    ensures |LosingWorld(4).got| == |LosingWorld(4).threads| == 1
    ensures Lost(LosingWorld(4), 0, 1) == {0}
  {
    var w := LosingWorld(4);
    assert w.got[0] == [0, 1];
    assert Lost(w, 0, 1) == {0};
  }

  lemma LosingRun()
    ensures var worlds := seq(6, n requires 0 <= n => LosingWorld(n));
            var steps := [Await(0, [0, 1], true, Parked), Trigger(0, false), Trigger(1, false), Look(0),
                          Resume(0, 1)];
            && Run(worlds, steps) && |worlds[4].got| == 1 && Lost(worlds[4], 0, 1) == {0}
  {
    hide Next, Init, LosingWorld, Lost;
    LosingEnds();
    LosingParks();
    LosingTriggers();
    LosingReturns();
  }

  // ----- the code -----

  /** There is room on every list, and for every event in the thread. */
  ghost predicate Room(w: World, events: seq<nat>)
    requires Ids(w, events)
  {
    |events| <= MAX_EVENTS && forall j :: 0 <= j < |events| ==> |w.events[events[j]].listeners| < EVENT_MAX_LISTENERS
  }

  class Kernel {
    var events: seq<Event>
    var threads: seq<Thread>
    ghost var got: seq<seq<nat>>

    ghost function View(): World
      reads this
    {
      World(events, threads, got)
    }

    /** `check_for_pending`. */
    method CheckForPending(list: seq<nat>) returns (i: int)
      requires Ids(View(), list)
      modifies this`events
      ensures i == -1 ==> View() == old(View()) && Idle(View(), list)
      ensures i != -1 ==> Consumes(old(View()), View(), list, i)
    {
      i := 0;
      while i < |list|
        invariant 0 <= i <= |list| && Idle(View(), list[..i])
      {
        var e := list[i];
        if events[e].pending > 0 {
          events := events[e := events[e].(pending := events[e].pending - 1)];
          return;
        }
        i := i + 1;
      }
      assert list[..i] == list;
      i := -1;
    }

    /** `attach_listeners`; false is a kernel panic, after which nothing runs. */
    method AttachListeners(list: seq<nat>, t: nat) returns (ok: bool)
      requires Ids(View(), list) && t < |threads|
      modifies this`events, this`threads
      ensures ok <==> Room(old(View()), list)
      ensures ok ==> Joined(old(events), events, list, |list|, t)
      ensures ok ==> threads == old(threads)[t := old(threads)[t].(attached := list)]
    {
      ghost var was := events;
      threads := threads[t := threads[t].(attached := [])];
      var i := 0;
      while i < |list|
        invariant 0 <= i <= |list| && i <= MAX_EVENTS && Joined(was, events, list, i, t)
        invariant forall j :: 0 <= j < i ==> |was[list[j]].listeners| < EVENT_MAX_LISTENERS
        invariant threads == old(threads)[t := old(threads)[t].(attached := list[..i])]
      {
        hide Joined;
        var e := list[i];
        JoinedNext(was, events, list, i, t);
        if |events[e].listeners| >= EVENT_MAX_LISTENERS {
          return false;
        }
        events := events[e := events[e].(listeners := events[e].listeners + [Listener(t, i)])];
        if |threads[t].attached| == MAX_EVENTS {
          return false;
        }
        threads := threads[t := threads[t].(attached := threads[t].attached + [e])];
        assert list[..i + 1] == list[..i] + [e];
        i := i + 1;
      }
      assert list[..i] == list;
      ok := true;
    }

    /** `detach_listeners`. */
    method DetachListeners(t: nat)
      requires t < |threads| && Ids(View(), threads[t].attached)
      modifies this`events, this`threads
      ensures Left(old(events), events, old(threads)[t].attached, |old(threads)[t].attached|, t)
      ensures threads == old(threads)[t := old(threads)[t].(attached := [])]
    {
      ghost var was := events;
      var list := threads[t].attached;
      var i := 0;
      while i < |list|
        invariant 0 <= i <= |list| && threads == old(threads) && Left(was, events, list, i, t)
      {
        var e := list[i];
        assert e !in list[..i] by { assert forall j :: 0 <= j < i ==> list[j] != e; }
        DetachOne(e, t);
        assert list[..i + 1] == list[..i] + [e];
        i := i + 1;
      }
      threads := threads[t := threads[t].(attached := [])];
    }

    /** The inner loop of `detach_listeners`: the first entry of the thread goes. */
    method DetachOne(e: nat, t: nat)
      requires e < |events|
      modifies this`events
      ensures events == old(events)[e := Event(old(events)[e].pending, SwapOut(old(events)[e].listeners, t))]
    {
      var j := 0;
      while j < |events[e].listeners|
        invariant j <= |events[e].listeners| && events == old(events)
        invariant forall k :: 0 <= k < j ==> events[e].listeners[k].thread != t
      {
        if events[e].listeners[j].thread == t {
          assert Place(events[e].listeners, t) == j;
          var list := events[e].listeners;
          events := events[e := events[e].(listeners := list[j := list[|list| - 1]][..|list| - 1])];
          return;
        }
        j := j + 1;
      }
    }

    /** `event_await` up to the point where the thread gives up the processor. */
    method Await(t: nat, list: seq<nat>, block: bool) returns (r: Outcome)
      requires Inv(View()) && Ids(View(), list) && t < |threads| && !threads[t].waiting
      modifies this
      ensures r != Panicked ==> Next(old(View()), Step.Await(t, list, block, r), View()) && Inv(View())
      ensures r.Took? ==> Consumes(old(View()), View(), list, r.index)
      ensures r == Nothing ==> !block && Idle(old(View()), list)
      ensures r == Parked ==> block && Parks(old(View()), View(), t, list)
      ensures r == Panicked ==> block && Idle(old(View()), list) && !Room(old(View()), list)
    {
      var i := CheckForPending(list);
      if i != -1 {
        NextInv(old(View()), Step.Await(t, list, block, Took(i)), View());
        return Took(i);
      }
      if !block {
        return Nothing;
      }
      var ok := AttachListeners(list, t);
      if !ok {
        return Panicked;
      }
      threads := threads[t := threads[t].(waiting := true, enqueued := false, choice := Unread)];
      got := got[t := []];
      assert Parks(old(View()), View(), t, list);
      NextInv(old(View()), Step.Await(t, list, block, Parked), View());
      r := Parked;
    }

    /** `event_await` once the thread runs again: what it is going to return. */
    method Look(t: nat)
      requires Inv(View()) && t < |threads| && threads[t].waiting && threads[t].enqueued && threads[t].choice == Unread
      modifies this`threads
      ensures Looks(old(View()), View(), t) && Inv(View())
    {
      var ret: int := -1;
      if !threads[t].bySignal {
        ret := threads[t].whichEvent;
      }
      threads := threads[t := threads[t].(choice := Chose(ret))];
      LooksInv(old(View()), View(), t);
    }

    /** The rest of `event_await`. Events can fire between `Look` and this. */
    method Resume(t: nat) returns (ret: int)
      requires Inv(View()) && t < |threads| && threads[t].waiting && threads[t].choice.Chose?
      modifies this
      ensures Resumes(old(View()), View(), t, ret) && Inv(View()) && 0 <= ret
      ensures forall e :: 0 <= e < |events| ==> NotOn(events[e].listeners, t)
    {
      assert ThreadOk(View(), t) && GotOk(View(), t);
      ret := threads[t].choice.ret;
      DetachListeners(t);
      threads := threads[t := threads[t].(waiting := false, choice := Unread)];
      ResumesInv(old(View()), View(), t, ret);
      forall e | 0 <= e < |events| ensures NotOn(events[e].listeners, t) {
        ResumesLeavesAll(old(View()), View(), t, ret, e);
      }
    }

    /** `sched_enqueue_thread`, as an event uses it. */
    method EnqueueThread(t: nat, bySignal: bool)
      requires t < |threads|
      modifies this`threads
      ensures threads == old(threads)[t := Enqueued(old(threads)[t], bySignal)]
    {
      if threads[t].enqueued {
        return;
      }
      threads := threads[t := threads[t].(bySignal := bySignal)];
      threads := threads[t := threads[t].(enqueued := true)];
    }

    /** `event_trigger`: the number of threads woken. */
    method Trigger(e: nat, drop: bool) returns (ret: nat)
      requires Inv(View()) && e < |events|
      modifies this
      ensures Triggers(old(View()), View(), e, drop) && Inv(View())
      ensures ret == |old(events)[e].listeners|
    {
      hide ThreadOk, GotOk;
      assert EventOk(View(), e);
      if |events[e].listeners| == 0 {
        if !drop {
          events := events[e := events[e].(pending := events[e].pending + 1)];
        }
        TriggersInv(old(View()), View(), e, drop);
        return 0;
      }
      ghost var was := threads;
      var list := events[e].listeners;
      var i := 0;
      while i < |list|
        invariant 0 <= i <= |list| && events == old(events) && |got| == |was|
        invariant Woken(was, threads, list, i) && Noted(old(got), got, list, i)
      {
        hide Woken, Noted, Inv, Triggers;
        var t := list[i].thread;
        assert ListenerOk(old(View()), e, list[i]);
        WokenNext(was, threads, list, i);
        NotedNext(old(got), got, list, i);
        got := got[t := got[t] + [list[i].which]];
        threads := threads[t := threads[t].(whichEvent := list[i].which)];
        EnqueueThread(t, false);
        i := i + 1;
      }
      ret := |list|;
      events := events[e := events[e].(listeners := [])];
      TriggersInv(old(View()), View(), e, drop);
    }
  }

  lemma JoinedNext(was: seq<Event>, now: seq<Event>, list: seq<nat>, i: nat, t: nat)
    requires i < |list| && Distinct(list) && (forall j :: 0 <= j < |list| ==> list[j] < |was|)
    requires Joined(was, now, list, i, t)
    ensures |was| == |now| && now[list[i]] == was[list[i]]
    ensures var more := Event(was[list[i]].pending, was[list[i]].listeners + [Listener(t, i)]);
            Joined(was, now[list[i] := more], list, i + 1, t)
  {
    assert forall j :: 0 <= j < i ==> list[j] != list[i];
    assert list[..i + 1] == list[..i] + [list[i]];
  }

  lemma WokenNext(was: seq<Thread>, now: seq<Thread>, list: seq<Listener>, i: nat)
    requires i < |list| && NoTwice(list) && Woken(was, now, list, i) && list[i].thread < |was|
    ensures now[list[i].thread] == was[list[i].thread]
    ensures var woken := Enqueued(was[list[i].thread].(whichEvent := list[i].which), false);
            Woken(was, now[list[i].thread := woken], list, i + 1)
  {
    var t := list[i].thread;
    assert NotOn(list[..i], t);
    forall u | 0 <= u < |was| && NotOn(list[..i + 1], u) ensures u != t && now[u] == was[u] {
      OneMore(list, i, u);
    }
  }

  lemma NotedNext(was: seq<seq<nat>>, now: seq<seq<nat>>, list: seq<Listener>, i: nat)
    requires i < |list| && NoTwice(list) && Noted(was, now, list, i) && list[i].thread < |was|
    ensures now[list[i].thread] == was[list[i].thread]
    ensures Noted(was, now[list[i].thread := was[list[i].thread] + [list[i].which]], list, i + 1)
  {
    var t := list[i].thread;
    assert NotOn(list[..i], t);
    forall u | 0 <= u < |was| && NotOn(list[..i + 1], u) ensures u != t && now[u] == was[u] {
      OneMore(list, i, u);
    }
  }

  lemma OneMore(list: seq<Listener>, i: nat, u: nat)
    requires i < |list| && NotOn(list[..i + 1], u)
    ensures NotOn(list[..i], u) && list[i].thread != u
  {
    assert list[..i + 1][i] == list[i];
    assert forall k :: 0 <= k < i ==> list[..i][k] == list[..i + 1][k];
  }
}
