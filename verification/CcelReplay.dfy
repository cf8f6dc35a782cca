/** Replaying the event log into the four RTMRs, and what acceptance against a
    signed quote says about the log. */
module CcelReplay {
  import opened Octets
  import opened HashChain
  import opened Ccel

  /** The digests a log extends into measurement register mr, in order. */
  function DigestsFor(events: seq<CcelEvent>, mr: nat): seq<Bytes> {
    if events == [] then []
    else
      var last := events[|events| - 1];
      DigestsFor(events[..|events| - 1], mr) + if last.mrIndex == mr then [last.sha384] else []
  }

  /** What RTMR[i] holds after the events of a log: its own fold from zero. */
  function RegisterOf(h: Hashes, events: seq<CcelEvent>, i: nat): Bytes48 {
    Chain(h, Zero(), DigestsFor(events, i + 1))
  }

  lemma RegisterStep(h: Hashes, events: seq<CcelEvent>, ev: CcelEvent, i: nat)
    ensures RegisterOf(h, events + [ev], i) ==
            if ev.mrIndex == i + 1 then Extend(h, RegisterOf(h, events, i), ev.sha384) else RegisterOf(h, events, i)
  {
    var ds := DigestsFor(events, i + 1);
    assert (events + [ev])[..|events|] == events;
    assert (ds + [ev.sha384])[..|ds|] == ds && ds + [] == ds;
  }

  /** One pass over the log, extending registers in place, gives each register
      its own independent fold. */
  method ReplayRtmrs(h: Hashes, events: seq<CcelEvent>) returns (rtmrs: array<Bytes48>)
    ensures fresh(rtmrs) && rtmrs.Length == 4
    ensures forall i :: 0 <= i < 4 ==> rtmrs[i] == RegisterOf(h, events, i)
  {
    rtmrs := new Bytes48[4](_ => Zero());
    for k := 0 to |events|
      invariant forall i :: 0 <= i < 4 ==> rtmrs[i] == RegisterOf(h, events[..k], i)
    {
      var ev := events[k];
      assert events[..k + 1] == events[..k] + [ev];
      forall i | 0 <= i < 4
        ensures RegisterOf(h, events[..k + 1], i) ==
                if ev.mrIndex == i + 1 then Extend(h, rtmrs[i], ev.sha384) else rtmrs[i]
      {
        RegisterStep(h, events[..k], ev, i);
      }
      if 1 <= ev.mrIndex <= 4 {
        rtmrs[ev.mrIndex - 1] := Extend(h, rtmrs[ev.mrIndex - 1], ev.sha384);
      }
    }
    assert events[..|events|] == events;
  }

  /** events with neighbours k and k + 1 exchanged, if they extend different
      registers. */
  function Exchange(events: seq<CcelEvent>, k: nat): seq<CcelEvent> {
    if k + 1 < |events| && events[k].mrIndex != events[k + 1].mrIndex
    then events[..k] + [events[k + 1], events[k]] + events[k + 2..]
    else events
  }

  /** events after a series of exchanges. */
  function Interleave(events: seq<CcelEvent>, at: seq<nat>): seq<CcelEvent>
    decreases |at|
  {
    if at == [] then events else Interleave(Exchange(events, at[0]), at[1..])
  }

  /** The events of a log for one register, in order. */
  function EventsFor(events: seq<CcelEvent>, mr: nat): seq<CcelEvent> {
    if events == [] then []
    else (if events[0].mrIndex == mr then [events[0]] else []) + EventsFor(events[1..], mr)
  }

  ghost predicate SamePerRegister(a: seq<CcelEvent>, b: seq<CcelEvent>) {
    forall mr: nat :: EventsFor(a, mr) == EventsFor(b, mr)
  }

  lemma EventsForCons(x: CcelEvent, rest: seq<CcelEvent>, mr: nat)
    ensures EventsFor([x] + rest, mr) == (if x.mrIndex == mr then [x] else []) + EventsFor(rest, mr)
  {
    assert ([x] + rest)[1..] == rest;
  }

  lemma {:induction false} EventsForAppend(a: seq<CcelEvent>, b: seq<CcelEvent>, mr: nat)
    ensures EventsFor(a + b, mr) == EventsFor(a, mr) + EventsFor(b, mr)
    decreases |a|
  {
    if a == [] {
      assert a + b == b;
    } else {
      var x, rest := a[0], a[1..];
      EventsForAppend(rest, b, mr);
      EventsForCons(x, rest + b, mr);
      assert a + b == [x] + (rest + b);
    }
  }

  lemma ExchangeKeeps(events: seq<CcelEvent>, k: nat, mr: nat)
    ensures EventsFor(Exchange(events, k), mr) == EventsFor(events, mr)
  {
    if k + 1 < |events| && events[k].mrIndex != events[k + 1].mrIndex {
      var before, x, y, after := events[..k], events[k], events[k + 1], events[k + 2..];
      assert events == before + ([x, y] + after) && Exchange(events, k) == before + ([y, x] + after);
      EventsForAppend(before, [x, y] + after, mr);
      EventsForAppend(before, [y, x] + after, mr);
      EventsForAppend([x, y], after, mr);
      EventsForAppend([y, x], after, mr);
      assert [x, y][1..] == [y] && [y, x][1..] == [x] && [x][1..] == [] && [y][1..] == [];
    }
  }

  lemma {:induction false} InterleaveKeeps(events: seq<CcelEvent>, at: seq<nat>)
    ensures SamePerRegister(Interleave(events, at), events)
    decreases |at|
  {
    if at != [] {
      InterleaveKeeps(Exchange(events, at[0]), at[1..]);
      forall mr: nat ensures EventsFor(Interleave(events, at), mr) == EventsFor(events, mr) {
        ExchangeKeeps(events, at[0], mr);
      }
    }
  }

  /** Exchanges one place further in. */
  function Deeper(at: seq<nat>): (r: seq<nat>)
    ensures |r| == |at| && forall i :: 0 <= i < |r| ==> r[i] == at[i] + 1
  {
    seq(|at|, i requires 0 <= i < |at| => at[i] + 1)
  }

  lemma {:induction false} InterleaveTail(first: CcelEvent, events: seq<CcelEvent>, at: seq<nat>)
    ensures Interleave([first] + events, Deeper(at)) == [first] + Interleave(events, at)
    decreases |at|
  {
    if at != [] {
      var k := at[0];
      assert Deeper(at)[0] == k + 1 && Deeper(at)[1..] == Deeper(at[1..]);
      ExchangeTail(first, events, k);
      InterleaveTail(first, Exchange(events, k), at[1..]);
    }
  }

  lemma ExchangeTail(first: CcelEvent, events: seq<CcelEvent>, k: nat)
    ensures Exchange([first] + events, k + 1) == [first] + Exchange(events, k)
  {
    var all := [first] + events;
    if k + 1 < |events| && events[k].mrIndex != events[k + 1].mrIndex {
      var pair, back := [events[k + 1], events[k]], events[k + 2..];
      assert all[k + 1] == events[k] && all[k + 2] == events[k + 1];
      assert all[..k + 1] == [first] + events[..k] && all[k + 3..] == back;
      Regroup([first], events[..k], pair, back);
    }
  }

  lemma Regroup(a: seq<CcelEvent>, b: seq<CcelEvent>, c: seq<CcelEvent>, d: seq<CcelEvent>)
    ensures a + b + c + d == a + (b + c + d)
  {
  }

  lemma {:induction false} InterleaveMore(events: seq<CcelEvent>, a: seq<nat>, b: seq<nat>)
    ensures Interleave(events, a + b) == Interleave(Interleave(events, a), b)
    decreases |a|
  {
    if a == [] {
      assert a + b == b;
    } else {
      assert (a + b)[0] == a[0] && (a + b)[1..] == a[1..] + b;
      InterleaveMore(Exchange(events, a[0]), a[1..], b);
    }
  }

  lemma ExchangeBack(front: seq<CcelEvent>, y: CcelEvent, x: CcelEvent, after: seq<CcelEvent>)
    requires y.mrIndex != x.mrIndex
    ensures Exchange(front + [y] + [x] + after, |front|) == front + [x] + ([y] + after)
  {
    var events := front + [y] + [x] + after;
    assert events[..|front|] == front && events[|front| + 2..] == after;
    assert events[|front|] == y && events[|front| + 1] == x;
  }

  /** An event no earlier one shares a register with can be brought to the front. */
  lemma {:induction false} BringForward(before: seq<CcelEvent>, x: CcelEvent, after: seq<CcelEvent>)
    returns (at: seq<nat>)
    requires EventsFor(before, x.mrIndex) == []
    ensures Interleave(before + [x] + after, at) == [x] + (before + after)
    decreases |before|
  {
    if before == [] {
      at := [];
      assert before + [x] + after == [x] + (before + after);
    } else {
      var front, y := before[..|before| - 1], before[|before| - 1];
      assert before == front + [y];
      EventsForAppend(front, [y], x.mrIndex);
      var inner := BringForward(front, x, [y] + after);
      ExchangeBack(front, y, x, after);
      assert front + ([y] + after) == before + after;
      at := [|front|] + inner;
      assert at[0] == |front| && at[1..] == inner;
    }
  }

  /** Where a log first extends x's register. */
  lemma {:induction false} FirstFor(events: seq<CcelEvent>, mr: nat)
    returns (before: seq<CcelEvent>, after: seq<CcelEvent>)
    requires EventsFor(events, mr) != []
    ensures events == before + [EventsFor(events, mr)[0]] + after
    ensures EventsFor(before, mr) == [] && EventsFor(events, mr)[0].mrIndex == mr
    decreases |events|
  {
    if events[0].mrIndex == mr {
      before, after := [], events[1..];
    } else {
      before, after := FirstFor(events[1..], mr);
      var found := EventsFor(events[1..], mr)[0];
      assert events == [events[0]] + (before + [found] + after);
      assert ([events[0]] + before)[1..] == before;
      before := [events[0]] + before;
    }
  }

  /** What is left of two logs with one front. */
  lemma TailsAgree(x: CcelEvent, a: seq<CcelEvent>, b: seq<CcelEvent>)
    requires SamePerRegister([x] + a, [x] + b)
    ensures SamePerRegister(a, b)
  {
    forall mr: nat ensures EventsFor(a, mr) == EventsFor(b, mr) {
      var front := if x.mrIndex == mr then [x] else [];
      EventsForCons(x, a, mr);
      EventsForCons(x, b, mr);
      assert EventsFor([x] + a, mr) == EventsFor([x] + b, mr);
      assert EventsFor(a, mr) == (front + EventsFor(a, mr))[|front|..];
    }
  }

  lemma InterleaveFront(b: seq<CcelEvent>, forward: seq<nat>, x: CcelEvent, mid: seq<CcelEvent>, inner: seq<nat>)
    requires Interleave(b, forward) == [x] + mid
    ensures Interleave(b, forward + Deeper(inner)) == [x] + Interleave(mid, inner)
  {
    InterleaveTail(x, mid, inner);
    InterleaveMore(b, forward, Deeper(inner));
  }

  /** The first event of one log, brought to the front of the other. */
  lemma BringFirst(x: CcelEvent, rest: seq<CcelEvent>, b: seq<CcelEvent>)
    returns (mid: seq<CcelEvent>, forward: seq<nat>)
    requires SamePerRegister([x] + rest, b)
    ensures Interleave(b, forward) == [x] + mid && SamePerRegister(rest, mid)
  {
    var mr := x.mrIndex;
    EventsForCons(x, rest, mr);
    assert EventsFor(b, mr) == EventsFor([x] + rest, mr);
    var before, after := FirstFor(b, mr);
    forward := BringForward(before, x, after);
    mid := before + after;
    InterleaveKeeps(b, forward);
    TailsAgree(x, rest, mid);
  }

  /** Logs with the same events per register differ in how those interleave only. */
  lemma {:induction false} Interleaved(a: seq<CcelEvent>, b: seq<CcelEvent>) returns (at: seq<nat>)
    requires SamePerRegister(a, b)
    ensures Interleave(b, at) == a
    decreases |a|
  {
    at := [];
    if a == [] {
      NoEvents(b);
    } else {
      var x, rest := a[0], a[1..];
      assert a == [x] + rest;
      var mid, forward := BringFirst(x, rest, b);
      var inner := Interleaved(rest, mid);
      InterleaveFront(b, forward, x, mid, inner);
      at := forward + Deeper(inner);
    }
  }

  lemma NoEvents(b: seq<CcelEvent>)
    requires SamePerRegister([], b)
    ensures b == []
  {
    assert b != [] ==> EventsFor(b, b[0].mrIndex) != EventsFor([], b[0].mrIndex);
  }

  lemma {:induction false} DigestsOfEvents(events: seq<CcelEvent>, mr: nat)
    ensures DigestsFor(events, mr) == DigestsOf(EventsFor(events, mr))
    decreases |events|
  {
    if events != [] {
      var front, last := events[..|events| - 1], events[|events| - 1];
      DigestsOfEvents(front, mr);
      assert events == front + [last] && [last][1..] == [];
      EventsForAppend(front, [last], mr);
    }
  }

  function DigestsOf(events: seq<CcelEvent>): (r: seq<Bytes>)
    ensures |r| == |events| && forall i :: 0 <= i < |r| ==> r[i] == events[i].sha384
  {
    seq(|events|, i requires 0 <= i < |events| => events[i].sha384)
  }

  /** How the events of different registers interleave does not matter: two logs have
      the same events for each register exactly when one is the other after some
      exchanges, and then their registers are the same. */
  lemma InterleavingIrrelevant(h: Hashes, a: seq<CcelEvent>, b: seq<CcelEvent>)
    ensures SamePerRegister(a, b) <==> exists at :: Interleave(b, at) == a
    ensures SamePerRegister(a, b) ==> forall i: nat :: RegisterOf(h, a, i) == RegisterOf(h, b, i)
  {
    if at :| Interleave(b, at) == a {
      InterleaveKeeps(b, at);
    }
    if SamePerRegister(a, b) {
      var at := Interleaved(a, b);
      forall i: nat ensures RegisterOf(h, a, i) == RegisterOf(h, b, i) {
        assert EventsFor(a, i + 1) == EventsFor(b, i + 1);
        DigestsOfEvents(a, i + 1);
        DigestsOfEvents(b, i + 1);
      }
    }
  }

  datatype ReplayError = BadRegisterWidth | BadLog(why: CcelError) | RtmrMismatch

  /** The log parses, and its digests for the three boot registers fold to the
      quote's. */
  ghost predicate Accepts(h: Hashes, log: Bytes, quote: seq<Bytes>)
    requires |quote| == 4
  {
    && ParseLog(log).Ok?
    && forall i :: 0 <= i < 3 ==> RegisterOf(h, ParseLog(log).value, i) == quote[i]
  }

  /** VerifyCCELAgainstRTMRs. RTMR[3] is reported, not enforced. */
  method VerifyAgainstRtmrs(h: Hashes, log: Bytes, quote: seq<Bytes>) returns (r: Result<bool, ReplayError>)
    requires |quote| == 4
    ensures r.Ok? <==> (forall i :: 0 <= i < 4 ==> |quote[i]| == 48) && Accepts(h, log, quote)
    ensures r.Ok? ==> (r.value <==> RegisterOf(h, ParseLog(log).value, 3) == quote[3])
    ensures r.Err? ==> r.error == if exists i :: 0 <= i < 4 && |quote[i]| != 48 then BadRegisterWidth
                                  else if ParseLog(log).Err? then BadLog(ParseLog(log).error)
                                  else RtmrMismatch
  {
    for i := 0 to 4
      invariant forall j :: 0 <= j < i ==> |quote[j]| == 48
    {
      if |quote[i]| != 48 {
        return Err(BadRegisterWidth);
      }
    }
    var events := ParseCcel(log);
    if events.Err? {
      return Err(BadLog(events.error));
    }
    var replayed := ReplayRtmrs(h, events.value);
    for i := 0 to 3
      invariant forall j :: 0 <= j < i ==> replayed[j] == quote[j]
    {
      if replayed[i] != quote[i] {
        return Err(RtmrMismatch);
      }
    }
    return Ok(replayed[3] == quote[3]);
  }

  /** A quote admits one boot: any two logs accepted against it carry the same
      digest sequence for each boot register, or what the replay of the two hashed
      for that register breaks the hash. */
  lemma AcceptedLogsAgree(h: Hashes, log1: Bytes, log2: Bytes, quote: seq<Bytes>, i: nat)
    requires |quote| == 4 && Accepts(h, log1, quote) && Accepts(h, log2, quote) && i < 3
    ensures var d1, d2 := DigestsFor(ParseLog(log1).value, i + 1), DigestsFor(ParseLog(log2).value, i + 1);
            d1 == d2 || ChainsBreak(h, Zero(), d1, d2)
  {
    var d1, d2 := DigestsFor(ParseLog(log1).value, i + 1), DigestsFor(ParseLog(log2).value, i + 1);
    assert RegisterOf(h, ParseLog(log1).value, i) == quote[i] == RegisterOf(h, ParseLog(log2).value, i);
    if d1 != d2 {
      assert IsBreak(h, Zero(), d1, d2, FindBreak(h, Zero(), d1, d2));
    }
  }

  /** Replay, on the hash alone: RTMR[i] starts as 48 zero bytes, and an event of
      measurement register i + 1, and no other, makes it the hash of itself and the
      event's digest. */
  lemma ReplayExact(h: Hashes, events: seq<CcelEvent>, ev: CcelEvent, i: nat)
    ensures RegisterOf(h, [], i) == Zeros(48)
    ensures RegisterOf(h, events + [ev], i) ==
            if ev.mrIndex == i + 1 then h.sha384(RegisterOf(h, events, i) + ev.sha384) else RegisterOf(h, events, i)
  {
    RegisterStep(h, events, ev, i);
  }
}
