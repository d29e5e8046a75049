/** Pinned pages of one open file: taken by a registration, kept on a list while the object they
    back lives, given back by a failure, by a free, or by the close. */
module Pins {
  import opened Basics

  /** A registration on the file's list. */
  datatype Entry = Entry(pin: nat, client: nat, memory: nat)

  /** What a thread has in its hands: a pin it is registering, one it took off the list to free, or
      the list it emptied on close. */
  datatype Held = Registering(pin: nat) | Freeing(pin: nat) | Draining(pins: seq<nat>)

  datatype State = State(list: seq<Entry>, threads: map<nat, Held>, made: nat, unpins: map<nat, nat>)

  datatype Event =
    | Pin(t: nat)                                    // `nvgpu_pin_region` succeeds
    | Fail(t: nat)                                   // any way out with the pin in hand
    | Keep(t: nat, client: nat, memory: nat)         // RM said yes: onto the list, under its lock
    | Take(t: nat, client: nat, memory: nat)         // a free: off the list, under its lock
    | Free(t: nat)                                   // and unpinned, outside it
    | Splice(t: nat)                                 // close: the whole list, under its lock
    | Next(t: nat)                                   // and one after the other, outside it
    | Finish(t: nat)                                 // close is through

  function Start(): State {
    State([], map[], 0, map[])
  }

  function Unpin(s: State, p: nat): State {
    s.(unpins := s.unpins[p := 1 + if p in s.unpins then s.unpins[p] else 0])
  }

  function Unpins(s: State, p: nat): nat {
    if p in s.unpins then s.unpins[p] else 0
  }

  /** The first entry for an object, as the walk over the list meets it. */
  function Match(list: seq<Entry>, client: nat, memory: nat): (i: nat)
    ensures i <= |list|
    ensures i < |list| ==> list[i].client == client && list[i].memory == memory
    ensures forall k :: 0 <= k < i ==> !(list[k].client == client && list[k].memory == memory)
  {
    if list == [] || (list[0].client == client && list[0].memory == memory) then 0
    else 1 + Match(list[1..], client, memory)
  }

  function PinsOf(list: seq<Entry>): (r: seq<nat>)
    ensures |r| == |list| && forall i :: 0 <= i < |list| ==> r[i] == list[i].pin
  {
    seq(|list|, i requires 0 <= i < |list| => list[i].pin)
  }

  /** One step of one thread; None where the thread cannot take it. */
  function Step(s: State, e: Event): Option<State> {
    match e
    case Pin(t) =>
      if t in s.threads then None
      else Some(s.(threads := s.threads[t := Registering(s.made)], made := s.made + 1))
    case Fail(t) =>
      if t in s.threads && s.threads[t].Registering? then Some(Unpin(s, s.threads[t].pin).(threads := s.threads - {t}))
      else None
    case Keep(t, c, m) =>
      if t in s.threads && s.threads[t].Registering? then
        Some(s.(list := [Entry(s.threads[t].pin, c, m)] + s.list, threads := s.threads - {t}))
      else None
    case Take(t, c, m) =>
      var i := Match(s.list, c, m);
      if t in s.threads then None
      else if i == |s.list| then Some(s)
      else Some(s.(list := s.list[..i] + s.list[i + 1..], threads := s.threads[t := Freeing(s.list[i].pin)]))
    case Free(t) =>
      if t in s.threads && s.threads[t].Freeing? then Some(Unpin(s, s.threads[t].pin).(threads := s.threads - {t}))
      else None
    case Splice(t) =>
      if t in s.threads then None
      else Some(s.(list := [], threads := s.threads[t := Draining(PinsOf(s.list))]))
    case Next(t) =>
      if t in s.threads && s.threads[t].Draining? && s.threads[t].pins != [] then
        var pins := s.threads[t].pins;
        Some(Unpin(s, pins[0]).(threads := s.threads[t := Draining(pins[1..])]))
      else None
    case Finish(t) =>
      if t in s.threads && s.threads[t].Draining? && s.threads[t].pins == [] then Some(s.(threads := s.threads - {t}))
      else None
  }

  function Run(s: State, events: seq<Event>): Option<State>
    decreases |events|
  {
    if events == [] then Some(s)
    else
      var next := Step(s, events[0]);
      if next.None? then None else Run(next.value, events[1..])
  }

  // ---------------------------------------------------------------------
  // Every pin is in one place

  function InHand(h: Held): seq<nat> {
    match h
    case Registering(p) => [p]
    case Freeing(p) => [p]
    case Draining(pins) => pins
  }

  predicate With(s: State, t: nat, p: nat) {
    t in s.threads && p in InHand(s.threads[t])
  }

  predicate Listed(s: State, p: nat) {
    p in PinsOf(s.list)
  }

  ghost predicate Distinct(xs: seq<nat>) {
    forall i, j :: 0 <= i < j < |xs| ==> xs[i] != xs[j]
  }

  /** Never in two places: on the list, in one thread's hands, or given back once. */
  ghost predicate Apart(s: State, p: nat) {
    && Unpins(s, p) <= 1
    && (Listed(s, p) ==> p < s.made && Unpins(s, p) == 0)
    && (forall t: nat :: With(s, t, p) ==> p < s.made && Unpins(s, p) == 0 && !Listed(s, p))
    && (forall t: nat, u: nat :: With(s, t, p) && With(s, u, p) ==> t == u)
  }

  /** Never nowhere. */
  ghost predicate Somewhere(s: State, p: nat) {
    p < s.made <==> Listed(s, p) || Unpins(s, p) == 1 || exists t: nat :: With(s, t, p)
  }

  ghost predicate Inv(s: State) {
    && Distinct(PinsOf(s.list))
    && (forall t :: t in s.threads ==> Distinct(InHand(s.threads[t])))
    && (forall p: nat :: Apart(s, p) && Somewhere(s, p))
  }

  lemma StepKeeps(s: State, e: Event)
    requires Inv(s) && Step(s, e).Some?
    ensures Inv(Step(s, e).value)
  {
    var n := Step(s, e).value;
    StaysDistinct(s, e);
    forall p: nat ensures Apart(n, p) && Somewhere(n, p) {
      assert Apart(s, p) && Somewhere(s, p);
      match e
      case Pin(_) => PinKeeps(s, e, p);
      case Fail(_) => GiveBackKeeps(s, e, p);
      case Keep(_, _, _) => KeepKeeps(s, e, p);
      case Take(_, _, _) => TakeKeeps(s, e, p);
      case Free(_) => GiveBackKeeps(s, e, p);
      case Splice(_) => SpliceKeeps(s, e, p);
      case Next(_) => NextKeeps(s, e, p);
      case Finish(_) => FinishKeeps(s, e, p);
    }
  }

  lemma StaysDistinct(s: State, e: Event)
    requires Inv(s) && Step(s, e).Some?
    ensures var n := Step(s, e).value;
            Distinct(PinsOf(n.list)) && forall t :: t in n.threads ==> Distinct(InHand(n.threads[t]))
  {
    var n := Step(s, e).value;
    if e.Keep? {
      var q := s.threads[e.t].pin;
      assert With(s, e.t, q) && Apart(s, q);
      assert PinsOf(n.list) == [q] + PinsOf(s.list);
    } else if e.Take? {
      var was, i := PinsOf(s.list), Match(s.list, e.client, e.memory);
      if i < |was| {
        assert PinsOf(n.list) == was[..i] + was[i + 1..];
        Without(was, i);
      }
    }
  }

  lemma Without(xs: seq<nat>, i: nat)
    requires Distinct(xs) && i < |xs|
    ensures Distinct(xs[..i] + xs[i + 1..])
    ensures forall p :: p in xs[..i] + xs[i + 1..] <==> p in xs && p != xs[i]
  {
  }

  ghost predicate Kept(s: State, p: nat) {
    Apart(s, p) && Somewhere(s, p)
  }

  lemma PinKeeps(s: State, e: Event, p: nat)
    requires e.Pin? && Step(s, e).Some? && Kept(s, p)
    ensures Kept(Step(s, e).value, p)
  {
    var n := Step(s, e).value;
    assert Listed(n, p) == Listed(s, p) && Unpins(n, p) == Unpins(s, p);
    forall t: nat ensures With(n, t, p) <==> With(s, t, p) || (t == e.t && p == s.made) {}
    assert p == s.made ==> With(n, e.t, p);
  }

  lemma GiveBackKeeps(s: State, e: Event, p: nat)
    requires (e.Fail? || e.Free?) && Step(s, e).Some? && Kept(s, p)
    ensures Kept(Step(s, e).value, p)
  {
    var n, q := Step(s, e).value, s.threads[e.t].pin;
    assert With(s, e.t, q);
    assert Listed(n, p) == Listed(s, p) && Unpins(n, p) == Unpins(s, p) + if p == q then 1 else 0;
    forall t: nat ensures With(n, t, p) <==> With(s, t, p) && t != e.t {}
  }

  lemma KeepKeeps(s: State, e: Event, p: nat)
    requires e.Keep? && Step(s, e).Some? && Kept(s, p)
    ensures Kept(Step(s, e).value, p)
  {
    var n, q := Step(s, e).value, s.threads[e.t].pin;
    assert With(s, e.t, q);
    assert PinsOf(n.list) == [q] + PinsOf(s.list);
    assert Listed(n, p) == (p == q || Listed(s, p)) && Unpins(n, p) == Unpins(s, p);
    forall t: nat ensures With(n, t, p) <==> With(s, t, p) && t != e.t {}
  }

  lemma TakeKeeps(s: State, e: Event, p: nat)
    requires e.Take? && Step(s, e).Some? && Kept(s, p) && Distinct(PinsOf(s.list))
    ensures Kept(Step(s, e).value, p)
  {
    var n, i := Step(s, e).value, Match(s.list, e.client, e.memory);
    if i < |s.list| {
      var q, was := s.list[i].pin, PinsOf(s.list);
      assert was[i] == q && Listed(s, q);
      assert PinsOf(n.list) == was[..i] + was[i + 1..];
      Without(was, i);
      assert Listed(n, p) == (Listed(s, p) && p != q) && Unpins(n, p) == Unpins(s, p);
      forall t: nat ensures With(n, t, p) <==> With(s, t, p) || (t == e.t && p == q) {}
      assert p == q ==> With(n, e.t, p);
    }
  }

  lemma SpliceKeeps(s: State, e: Event, p: nat)
    requires e.Splice? && Step(s, e).Some? && Kept(s, p)
    ensures Kept(Step(s, e).value, p)
  {
    var n := Step(s, e).value;
    assert !Listed(n, p) && Unpins(n, p) == Unpins(s, p);
    forall t: nat ensures With(n, t, p) <==> With(s, t, p) || (t == e.t && Listed(s, p)) {}
    assert Listed(s, p) ==> With(n, e.t, p);
  }

  lemma NextKeeps(s: State, e: Event, p: nat)
    requires e.Next? && Step(s, e).Some? && Kept(s, p) && Distinct(InHand(s.threads[e.t]))
    ensures Kept(Step(s, e).value, p)
  {
    var n, pins := Step(s, e).value, s.threads[e.t].pins;
    var q := pins[0];
    assert With(s, e.t, q);
    Without(pins, 0);
    assert pins[..0] + pins[1..] == pins[1..];
    assert Listed(n, p) == Listed(s, p) && Unpins(n, p) == Unpins(s, p) + if p == q then 1 else 0;
    forall t: nat ensures With(n, t, p) <==> With(s, t, p) && !(t == e.t && p == q) {}
  }

  lemma FinishKeeps(s: State, e: Event, p: nat)
    requires e.Finish? && Step(s, e).Some? && Kept(s, p)
    ensures Kept(Step(s, e).value, p)
  {
    var n := Step(s, e).value;
    assert Listed(n, p) == Listed(s, p) && Unpins(n, p) == Unpins(s, p);
    forall t: nat ensures With(n, t, p) <==> With(s, t, p) {}
  }

  lemma {:induction false} RunKeeps(s: State, events: seq<Event>)
    requires Inv(s) && Run(s, events).Some?
    ensures Inv(Run(s, events).value)
    decreases |events|
  {
    if events != [] {
      StepKeeps(s, events[0]);
      RunKeeps(Step(s, events[0]).value, events[1..]);
    }
  }

  /** In every interleaving no pin is given back twice, nor while it is on the list or in use. */
  lemma AtMostOnce(events: seq<Event>, p: nat)
    requires Run(Start(), events).Some?
    ensures var s := Run(Start(), events).value;
            && Unpins(s, p) <= 1
            && (Unpins(s, p) == 1 ==> !Listed(s, p) && forall t: nat :: !With(s, t, p))
  {
    RunKeeps(Start(), events);
    assert Kept(Run(Start(), events).value, p);
  }

  /** When every thread is through, a pin has been given back exactly once or is still on the list. */
  lemma OnceOrListed(events: seq<Event>, p: nat)
    requires Run(Start(), events).Some? && Run(Start(), events).value.threads == map[]
    ensures var s := Run(Start(), events).value;
            p < s.made ==> (Unpins(s, p) == 1 <==> !Listed(s, p))
  {
    RunKeeps(Start(), events);
    assert Kept(Run(Start(), events).value, p);
  }

  // ---------------------------------------------------------------------
  // The close

  ghost predicate NoneRegistering(s: State) {
    forall t :: t in s.threads ==> !s.threads[t].Registering?
  }

  ghost predicate NoPins(events: seq<Event>) {
    forall e :: e in events ==> !e.Pin?
  }

  /** Once nothing registers and nothing begins to, an empty list stays empty. */
  lemma {:induction false} StaysEmpty(s: State, events: seq<Event>)
    requires s.list == [] && NoneRegistering(s) && NoPins(events) && Run(s, events).Some?
    ensures Run(s, events).value.list == [] && NoneRegistering(Run(s, events).value)
    decreases |events|
  {
    if events != [] {
      var e, n := events[0], Step(s, events[0]).value;
      assert e in events;
      assert n.list == [] && NoneRegistering(n);
      assert NoPins(events[1..]) by {
        forall x | x in events[1..] ensures !x.Pin? { assert x in events; }
      }
      StaysEmpty(n, events[1..]);
    }
  }

  lemma {:induction false} RunJoins(s: State, a: seq<Event>, b: seq<Event>)
    requires Run(s, a + b).Some?
    ensures Run(s, a).Some? && Run(s, a + b) == Run(Run(s, a).value, b)
    decreases |a|
  {
    if a == [] {
      assert a + b == b;
    } else {
      assert (a + b)[0] == a[0] && (a + b)[1..] == a[1..] + b;
      RunJoins(Step(s, a[0]).value, a[1..], b);
    }
  }

  /** A close that comes after the last registration, whatever frees run beside it, leaves every pin
      given back exactly once when all threads are through. */
  lemma ExactlyOnce(before: seq<Event>, t: nat, after: seq<Event>, p: nat)
    requires Run(Start(), before + ([Splice(t)] + after)).Some? && NoPins(after)
    requires Run(Start(), before).Some? && NoneRegistering(Run(Start(), before).value)
    requires Run(Start(), before + ([Splice(t)] + after)).value.threads == map[]
    ensures var s := Run(Start(), before + ([Splice(t)] + after)).value;
            p < s.made ==> Unpins(s, p) == 1
  {
    RunJoins(Start(), before, [Splice(t)] + after);
    var mid := Run(Start(), before).value;
    assert ([Splice(t)] + after)[1..] == after;
    StaysEmpty(Step(mid, Splice(t)).value, after);
    OnceOrListed(before + ([Splice(t)] + after), p);
  }

  // ---------------------------------------------------------------------
  // Which pins stay

  /** The step puts pin `p` on the list. */
  ghost predicate PutsOn(s: State, e: Event, p: nat) {
    e.Keep? && e.t in s.threads && s.threads[e.t] == Registering(p)
  }

  /** The step takes pin `p` off it: the free of its object, or a close. */
  ghost predicate TakesOff(s: State, e: Event, p: nat) {
    match e
    case Take(_, c, m) => Match(s.list, c, m) < |s.list| && s.list[Match(s.list, c, m)].pin == p
    case Splice(_) => Listed(s, p)
    case _ => false
  }

  lemma StepLists(s: State, e: Event, p: nat)
    requires Inv(s) && Step(s, e).Some?
    ensures Listed(Step(s, e).value, p) <==> PutsOn(s, e, p) || (Listed(s, p) && !TakesOff(s, e, p))
  {
    var n := Step(s, e).value;
    if e.Keep? {
      assert PinsOf(n.list) == [s.threads[e.t].pin] + PinsOf(s.list);
    } else if e.Take? {
      var was, i := PinsOf(s.list), Match(s.list, e.client, e.memory);
      if i < |was| {
        assert PinsOf(n.list) == was[..i] + was[i + 1..];
        Without(was, i);
      }
    }
  }

  /** Event `i` puts the pin on the list, and no later one takes it off. */
  ghost predicate KeptForGood(events: seq<Event>, i: nat, p: nat)
    requires i < |events|
  {
    var s := Run(Start(), events[..i]);
    && s.Some? && PutsOn(s.value, events[i], p)
    && forall j :: i < j < |events| ==> !OffAt(events, j, p)
  }

  ghost predicate OffAt(events: seq<Event>, j: nat, p: nat)
    requires j < |events|
  {
    var s := Run(Start(), events[..j]);
    s.Some? && TakesOff(s.value, events[j], p)
  }

  ghost predicate Stays(events: seq<Event>, p: nat) {
    exists i: nat :: i < |events| && KeptForGood(events, i, p)
  }

  /** One more event: what it puts on stays, and so does what stayed and is not taken off. */
  lemma StaysNext(events: seq<Event>, e: Event, p: nat)
    requires Run(Start(), events).Some?
    ensures var s := Run(Start(), events).value;
            Stays(events + [e], p) <==> PutsOn(s, e, p) || (Stays(events, p) && !TakesOff(s, e, p))
  {
    var more, n := events + [e], |events|;
    assert more[..n] == events;
    forall j: nat | j < n ensures more[..j] == events[..j] {}
    assert forall j: nat :: j < n ==> (OffAt(more, j, p) <==> OffAt(events, j, p));
    assert OffAt(more, n, p) <==> TakesOff(Run(Start(), events).value, e, p);
    if PutsOn(Run(Start(), events).value, e, p) { assert KeptForGood(more, n, p); }
    if Stays(events, p) && !OffAt(more, n, p) {
      var i: nat :| i < n && KeptForGood(events, i, p);
      assert KeptForGood(more, i, p);
    }
    if Stays(more, p) {
      var i: nat :| i < n + 1 && KeptForGood(more, i, p);
      if i < n { assert KeptForGood(events, i, p); }
    }
  }

  /** In every interleaving a pin is on the list exactly when some registration put it there and
      neither a free of its object nor a close came after. */
  lemma {:induction false} ListedExactly(events: seq<Event>, p: nat)
    requires Run(Start(), events).Some?
    ensures Listed(Run(Start(), events).value, p) <==> Stays(events, p)
    decreases |events|
  {
    if events != [] {
      var front, e := events[..|events| - 1], events[|events| - 1];
      assert events == front + [e];
      RunJoins(Start(), front, [e]);
      var s := Run(Start(), front).value;
      assert Run(s, [e]) == Step(s, e);
      RunKeeps(Start(), front);
      ListedExactly(front, p);
      StepLists(s, e, p);
      StaysNext(front, e, p);
    }
  }

  /** So when all threads are through, a pin has been given back exactly once if and only if it was not
      put on the list behind its last free and the last close. */
  lemma OnceExactly(events: seq<Event>, p: nat)
    requires Run(Start(), events).Some? && Run(Start(), events).value.threads == map[]
    requires p < Run(Start(), events).value.made
    ensures Unpins(Run(Start(), events).value, p) == 1 <==> !Stays(events, p)
  {
    OnceOrListed(events, p);
    ListedExactly(events, p);
  }

  // ---------------------------------------------------------------------
  // Whose pin a free takes

  /** The pins on a list that are for one object, as the walk meets them. */
  function Of(list: seq<Entry>, client: nat, memory: nat): seq<nat> {
    if list == [] then []
    else (if list[0].client == client && list[0].memory == memory then [list[0].pin] else [])
         + Of(list[1..], client, memory)
  }

  /** The pins registered for an object and not yet taken, the latest first, told from the events. */
  ghost function Waiting(events: seq<Event>, client: nat, memory: nat): seq<nat>
    requires Run(Start(), events).Some?
  {
    if events == [] then []
    else
      var before, last := events[..|events| - 1], events[|events| - 1];
      RunFront(events);
      var was := Waiting(before, client, memory);
      match last
      case Keep(t, c, m) =>
        if c == client && m == memory then [Run(Start(), before).value.threads[t].pin] + was else was
      case Take(_, c, m) => if c == client && m == memory && was != [] then was[1..] else was
      case Splice(_) => []
      case _ => was
  }

  lemma RunFront(events: seq<Event>)
    requires events != [] && Run(Start(), events).Some?
    ensures var before, last := events[..|events| - 1], events[|events| - 1];
            && Run(Start(), before).Some? && Step(Run(Start(), before).value, last) == Run(Start(), events)
            && (last.Keep? ==> last.t in Run(Start(), before).value.threads && Run(Start(), before).value.threads[last.t].Registering?)
  {
    var before, last := events[..|events| - 1], events[|events| - 1];
    assert events == before + [last];
    RunJoins(Start(), before, [last]);
    assert Run(Run(Start(), before).value, [last]) == Step(Run(Start(), before).value, last);
  }

  /** The walk stops at the first of them. */
  lemma {:induction false} MatchIsFirst(list: seq<Entry>, client: nat, memory: nat)
    ensures var i, of := Match(list, client, memory), Of(list, client, memory);
            (i == |list| <==> of == []) && (i < |list| ==> of != [] && of[0] == list[i].pin)
    decreases |list|
  {
    if list != [] { MatchIsFirst(list[1..], client, memory); }
  }

  lemma {:induction false} OfTaken(list: seq<Entry>, tc: nat, tm: nat, client: nat, memory: nat)
    requires Match(list, tc, tm) < |list|
    ensures var i := Match(list, tc, tm);
            Of(list[..i] + list[i + 1..], client, memory) ==
            if tc == client && tm == memory && Of(list, client, memory) != [] then Of(list, client, memory)[1..]
            else Of(list, client, memory)
    decreases |list|
  {
    var i := Match(list, tc, tm);
    var left := list[..i] + list[i + 1..];
    if i == 0 {
      assert left == list[1..];
    } else {
      OfTaken(list[1..], tc, tm, client, memory);
      assert left[1..] == list[1..][..i - 1] + list[1..][i..];
      assert left[0] == list[0];
    }
  }

  lemma {:induction false} ListedIsWaiting(events: seq<Event>, client: nat, memory: nat)
    requires Run(Start(), events).Some?
    ensures Of(Run(Start(), events).value.list, client, memory) == Waiting(events, client, memory)
    decreases |events|
  {
    if events != [] {
      var before, last := events[..|events| - 1], events[|events| - 1];
      RunFront(events);
      ListedIsWaiting(before, client, memory);
      StepWaits(Run(Start(), before).value, last, client, memory);
    }
  }

  lemma StepWaits(s: State, e: Event, client: nat, memory: nat)
    requires Step(s, e).Some?
    ensures var was, now := Of(s.list, client, memory), Of(Step(s, e).value.list, client, memory);
            match e
            case Keep(t, c, m) => now == if c == client && m == memory then [s.threads[t].pin] + was else was
            case Take(_, c, m) => now == if c == client && m == memory && was != [] then was[1..] else was
            case Splice(_) => now == []
            case _ => now == was
  {
    if e.Take? {
      MatchIsFirst(s.list, e.client, e.memory);
      if Match(s.list, e.client, e.memory) < |s.list| { OfTaken(s.list, e.client, e.memory, client, memory); }
    } else if e.Keep? {
      assert Step(s, e).value.list[1..] == s.list;
    }
  }

  /** After any run a free of an object takes the pin registered for it last and not yet taken, and
      nothing when there is none: never another object's. */
  lemma FreeTakesItsOwn(events: seq<Event>, t: nat, client: nat, memory: nat)
    requires Run(Start(), events).Some? && t !in Run(Start(), events).value.threads
    ensures var s, waiting := Run(Start(), events).value, Waiting(events, client, memory);
            var n := Step(s, Take(t, client, memory));
            && n.Some?
            && (waiting == [] ==> n.value == s)
            && (waiting != [] ==> n.value.threads == s.threads[t := Freeing(waiting[0])])
  {
    var s := Run(Start(), events).value;
    ListedIsWaiting(events, client, memory);
    MatchIsFirst(s.list, client, memory);
  }

  /** In particular a free right behind a registration takes that registration's pin. */
  lemma FreeBehindKeep(s: State, t: nat, u: nat, client: nat, memory: nat)
    requires t in s.threads && s.threads[t].Registering? && (u == t || u !in s.threads)
    ensures var kept := Step(s, Keep(t, client, memory)).value;
            var freed := Step(kept, Take(u, client, memory));
            freed.Some? && u in freed.value.threads && freed.value.threads[u] == Freeing(s.threads[t].pin)
            && freed.value.list == s.list
  {
    var kept := Step(s, Keep(t, client, memory)).value;
    assert kept.list[0].client == client && kept.list[0].memory == memory;
    assert kept.list[..0] + kept.list[1..] == s.list;
  }

  /** That order is needed: a registration that lists its pin behind the close keeps it for good. */
  lemma LateRegistration()
    ensures exists events :: Run(Start(), events).Some?
                             && var s := Run(Start(), events).value;
                                s.threads == map[] && s.made == 1 && Listed(s, 0) && Unpins(s, 0) == 0
  {
    var events := [Pin(1), Splice(2), Finish(2), Keep(1, 7, 8)];
    var s1 := Step(Start(), Pin(1)).value;
    var s2 := Step(s1, Splice(2)).value;
    assert PinsOf(s1.list) == [];
    var s3 := Step(s2, Finish(2)).value;
    var s4 := Step(s3, Keep(1, 7, 8)).value;
    assert events[1..] == [Splice(2), Finish(2), Keep(1, 7, 8)];
    assert events[1..][1..] == [Finish(2), Keep(1, 7, 8)];
    assert events[1..][1..][1..] == [Keep(1, 7, 8)];
    assert Run(s3, [Keep(1, 7, 8)]) == Run(s4, []);
    assert Run(s2, [Finish(2), Keep(1, 7, 8)]) == Run(s3, [Keep(1, 7, 8)]);
    assert Run(s1, [Splice(2), Finish(2), Keep(1, 7, 8)]) == Run(s2, [Finish(2), Keep(1, 7, 8)]);
    assert Run(Start(), events) == Some(s4);
    assert PinsOf(s4.list)[0] == 0;
    assert s4.threads == map[];
  }
}
