/** The body of the once-a-minute cron callback: read the stored events,
    keep those starting strictly within the next minute, and send one
    reminder per kept event until a channel fetch is rejected. The clock reading `now`, the date parser (a
    stand-in for `new Date(e.time)`, `None` being NaN) and the outcome of
    each channel lookup are parameters. */
module Scheduler {
  import opened Wrappers
  import opened Sequences
  import opened Events

  /** Width of the look-ahead window in milliseconds. */
  const WindowMs: int := 60000

  /** `diff > 0 && diff < 60000` with `diff = time - now`; every comparison
      with NaN is false, so an unparsable time is never in the window. */
  predicate InWindow(time: Option<int>, now: int)
  {
    match time
    case None => false
    case Some(ms) => 0 < ms - now && ms - now < WindowMs
  }

  function DueAt(now: int, parse: string -> Option<int>): Event -> bool
  {
    (e: Event) => InWindow(parse(e.time), now)
  }

  /** `toNotify`: the stored events in the window, in store order. */
  function DueSet(events: seq<Event>, now: int, parse: string -> Option<int>): (r: seq<Event>)
    ensures |r| <= |events|
    ensures forall e :: e in r <==> e in events && InWindow(parse(e.time), now)
  {
    Filter(events, DueAt(now, parse))
  }

  /** The message sent for one due event. */
  function ReminderText(title: string): string
  {
    "\U{1F514} Reminder: **" + title + "** is starting soon!"
  }

  /** What `await client.channels.fetch(...)` gave in one iteration: a
      channel, nothing (`if (channel)` fails), or a rejected promise, which
      throws out of the loop and ends the callback. */
  datatype Lookup = Channel | NoChannel | Rejected

  function IsChannel(l: Lookup): bool
  {
    l.Channel?
  }

  /** The iteration at which the loop stops: the first rejected lookup, or
      the end when none is rejected. */
  function FirstRejected(lookups: seq<Lookup>): (k: nat)
    ensures k <= |lookups|
    ensures forall j :: 0 <= j < k ==> !lookups[j].Rejected?
    ensures k < |lookups| ==> lookups[k].Rejected?
  {
    if lookups == [] then 0
    else if lookups[0].Rejected? then 0
    else 1 + FirstRejected(lookups[1..])
  }

  /** The messages of iterations that all ran: one per event whose lookup
      found the channel, in order. */
  function Delivered(due: seq<Event>, lookups: seq<Lookup>): (r: seq<string>)
    requires |lookups| == |due|
    ensures |r| <= |due|
  {
    if |due| == 0 then []
    else
      var n := |due| - 1;
      Delivered(due[..n], lookups[..n]) + (if lookups[n].Channel? then [ReminderText(due[n].title)] else [])
  }

  /** The messages one run of the send loop produces: those of the
      iterations before the first rejected lookup. */
  function Reminders(due: seq<Event>, lookups: seq<Lookup>): (r: seq<string>)
    requires |lookups| == |due|
    ensures |r| <= FirstRejected(lookups)
  {
    var k := FirstRejected(lookups);
    Delivered(due[..k], lookups[..k])
  }

  /** The `for (const event of toNotify)` loop: `lookups[i]` is the outcome of
      the channel fetch in the i-th iteration; `rejected` says whether a
      rejected fetch ended the loop early. */
  method SendReminders(toNotify: seq<Event>, lookups: seq<Lookup>)
    returns (sent: seq<string>, rejected: bool)
    requires |lookups| == |toNotify|
    ensures sent == Reminders(toNotify, lookups)
    ensures rejected <==> exists j :: 0 <= j < |lookups| && lookups[j].Rejected?
  {
    sent := [];
    rejected := false;
    var i := 0;
    while i < |toNotify|
      invariant 0 <= i <= |toNotify|
      invariant forall j :: 0 <= j < i ==> !lookups[j].Rejected?
      invariant sent == Delivered(toNotify[..i], lookups[..i])
    {
      if lookups[i].Rejected? {
        rejected := true;
        break;
      }
      assert toNotify[..i + 1][..i] == toNotify[..i];
      assert lookups[..i + 1][..i] == lookups[..i];
      if lookups[i].Channel? {
        sent := sent + [ReminderText(toNotify[i].title)];
      }
      i := i + 1;
    }
    assert FirstRejected(lookups) == i;
  }

  /** One tick against the store. It has no `modifies` clause: a tick never
      changes the stored list. */
  method Tick(store: DataFile, now: int, parse: string -> Option<int>, lookups: seq<Lookup>)
    returns (sent: seq<string>, rejected: bool)
    requires |lookups| == |DueSet(store.events, now, parse)|
    ensures sent == Reminders(DueSet(store.events, now, parse), lookups)
    ensures rejected <==> exists j :: 0 <= j < |lookups| && lookups[j].Rejected?
  {
    var toNotify := DueSet(store.events, now, parse);
    sent, rejected := SendReminders(toNotify, lookups);
  }

  /** The due set is exactly the stored events whose parsed time lies
      strictly between `now` and `now + 60000`; it is the stored list at the
      increasing positions `KeptIndices` lists, which are exactly the
      in-window positions, so two identical records are both kept. */
  lemma DueSetExact(events: seq<Event>, now: int, parse: string -> Option<int>)
    ensures forall e :: e in DueSet(events, now, parse) <==>
      e in events && parse(e.time).Some? && now < parse(e.time).value < now + WindowMs
    ensures Embeds(KeptIndices(events, DueAt(now, parse)), DueSet(events, now, parse), events)
    ensures forall i: nat :: i in KeptIndices(events, DueAt(now, parse)) <==>
      i < |events| && InWindow(parse(events[i].time), now)
  {
    FilterSubsequence(events, DueAt(now, parse));
    KeptIndicesExact(events, DueAt(now, parse));
  }

  /** The window's edges: an event at `now` or earlier, one exactly 60000 ms
      ahead and one whose time does not parse are never due; one 59999 ms
      ahead is. */
  lemma WindowEdges(e: Event, now: int, parse: string -> Option<int>)
    ensures parse(e.time) == Some(now + 59999) ==> DueSet([e], now, parse) == [e]
    ensures parse(e.time) == Some(now + 60000) ==> DueSet([e], now, parse) == []
    ensures (parse(e.time).Some? && parse(e.time).value <= now) ==> DueSet([e], now, parse) == []
    ensures parse(e.time) == None ==> DueSet([e], now, parse) == []
  {
    assert [e][1..] == [];
  }

  /** Two ticks exactly one window apart: an event strictly between them is
      due at the first only, one strictly inside the following window at the
      second only, and one at exactly the second tick's instant at neither. */
  lemma ConsecutiveTicks(e: Event, now: int, parse: string -> Option<int>)
    requires parse(e.time).Some?
    ensures var t := parse(e.time).value;
      && (now < t < now + WindowMs ==>
            DueSet([e], now, parse) == [e] && DueSet([e], now + WindowMs, parse) == [])
      && (now + WindowMs < t < now + 2 * WindowMs ==>
            DueSet([e], now, parse) == [] && DueSet([e], now + WindowMs, parse) == [e])
      && (t == now + WindowMs ==>
            DueSet([e], now, parse) == [] && DueSet([e], now + WindowMs, parse) == [])
  {
    assert [e][1..] == [];
  }

  /** When no lookup is rejected, message k is the reminder for the k-th
      due event whose lookup found the channel: `KeptIndices(lookups,
      IsChannel)` lists exactly those events' positions, in increasing order. */
  lemma {:induction false} DeliveredExact(due: seq<Event>, lookups: seq<Lookup>)
    requires |lookups| == |due|
    ensures |Delivered(due, lookups)| == |KeptIndices(lookups, IsChannel)|
    ensures forall k :: 0 <= k < |KeptIndices(lookups, IsChannel)| ==>
      KeptIndices(lookups, IsChannel)[k] < |due| &&
      Delivered(due, lookups)[k] == ReminderText(due[KeptIndices(lookups, IsChannel)[k]].title)
  {
    if |due| > 0 {
      var n := |due| - 1;
      var pd, pl := due[..n], lookups[..n];
      DeliveredExact(pd, pl);
      assert pl + [lookups[n]] == lookups;
      KeptIndicesSnoc(pl, lookups[n], IsChannel);
      var idx, d := KeptIndices(pl, IsChannel), Delivered(pd, pl);
      assert forall k :: 0 <= k < |idx| ==> due[idx[k]] == pd[idx[k]];
      if lookups[n].Channel? {
        assert KeptIndices(lookups, IsChannel) == idx + [n];
        assert Delivered(due, lookups) == d + [ReminderText(due[n].title)];
      } else {
        assert KeptIndices(lookups, IsChannel) == idx;
        assert Delivered(due, lookups) == d;
      }
    }
  }

  /** The send loop in general: messages go out, in order, for exactly the
      events before the first rejected lookup whose lookup found the channel. */
  lemma RemindersExact(due: seq<Event>, lookups: seq<Lookup>)
    requires |lookups| == |due|
    ensures var k := FirstRejected(lookups);
      var idx := KeptIndices(lookups[..k], IsChannel);
      && |Reminders(due, lookups)| == |idx|
      && (forall i: nat :: i in idx <==> i < k && lookups[i].Channel?)
      && (forall m :: 0 < m < |idx| ==> idx[m - 1] < idx[m])
      && (forall m :: 0 <= m < |idx| ==>
            idx[m] < |due| && Reminders(due, lookups)[m] == ReminderText(due[idx[m]].title))
  {
    var k := FirstRejected(lookups);
    DeliveredExact(due[..k], lookups[..k]);
    KeptIndicesExact(lookups[..k], IsChannel);
  }

  /** A rejected lookup at iteration j means no event from position j on
      gets a reminder in this tick. */
  lemma RejectionStopsLoop(due: seq<Event>, lookups: seq<Lookup>, j: nat)
    requires |lookups| == |due|
    requires j < |lookups| && lookups[j].Rejected?
    ensures |Reminders(due, lookups)| <= j
    ensures forall m :: 0 <= m < |KeptIndices(lookups[..FirstRejected(lookups)], IsChannel)| ==>
      KeptIndices(lookups[..FirstRejected(lookups)], IsChannel)[m] < j
  {
    RemindersExact(due, lookups);
    var idx := KeptIndices(lookups[..FirstRejected(lookups)], IsChannel);
    assert FirstRejected(lookups) <= j;
    forall m | 0 <= m < |idx| ensures idx[m] < j {
      assert idx[m] in idx;
    }
  }

  /** When every lookup finds the channel, message i is the reminder for due
      event i, so records sharing a title each get their own. */
  lemma RemindersAllDelivered(due: seq<Event>, lookups: seq<Lookup>)
    requires |lookups| == |due|
    requires forall i :: 0 <= i < |lookups| ==> lookups[i].Channel?
    ensures |Reminders(due, lookups)| == |due|
    ensures forall i :: 0 <= i < |due| ==> Reminders(due, lookups)[i] == ReminderText(due[i].title)
  {
    assert FirstRejected(lookups) == |lookups|;
    assert due[..|due|] == due && lookups[..|lookups|] == lookups;
    DeliveredAll(due, lookups);
  }

  lemma {:induction false} DeliveredAll(due: seq<Event>, lookups: seq<Lookup>)
    requires |lookups| == |due|
    requires forall i :: 0 <= i < |lookups| ==> lookups[i].Channel?
    ensures |Delivered(due, lookups)| == |due|
    ensures forall i :: 0 <= i < |due| ==> Delivered(due, lookups)[i] == ReminderText(due[i].title)
  {
    if |due| > 0 {
      var n := |due| - 1;
      DeliveredAll(due[..n], lookups[..n]);
    }
  }

  /** When no lookup finds the channel, nothing is sent. */
  lemma RemindersNoChannel(due: seq<Event>, lookups: seq<Lookup>)
    requires |lookups| == |due|
    requires forall i :: 0 <= i < |lookups| ==> !lookups[i].Channel?
    ensures Reminders(due, lookups) == []
  {
    var k := FirstRejected(lookups);
    DeliveredNone(due[..k], lookups[..k]);
  }

  lemma {:induction false} DeliveredNone(due: seq<Event>, lookups: seq<Lookup>)
    requires |lookups| == |due|
    requires forall i :: 0 <= i < |lookups| ==> !lookups[i].Channel?
    ensures Delivered(due, lookups) == []
  {
    if |due| > 0 {
      var n := |due| - 1;
      DeliveredNone(due[..n], lookups[..n]);
    }
  }

  /** Every due record gets its own reminder when every lookup finds the
      channel, exact duplicates included: message k names the record at
      the k-th in-window position of the stored list. */
  lemma EveryDueRecordReminded(events: seq<Event>, now: int, parse: string -> Option<int>, lookups: seq<Lookup>)
    requires |lookups| == |DueSet(events, now, parse)|
    requires forall i :: 0 <= i < |lookups| ==> lookups[i].Channel?
    ensures var idx := KeptIndices(events, DueAt(now, parse));
      && |Reminders(DueSet(events, now, parse), lookups)| == |idx|
      && (forall i: nat :: i in idx <==> i < |events| && InWindow(parse(events[i].time), now))
      && (forall k :: 0 <= k < |idx| ==>
            && idx[k] < |events|
            && Reminders(DueSet(events, now, parse), lookups)[k] == ReminderText(events[idx[k]].title))
  {
    DueSetExact(events, now, parse);
    RemindersAllDelivered(DueSet(events, now, parse), lookups);
  }
}
