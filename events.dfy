/** The JavaScript event store: the `data.json` list of `{title, time}`
    records, the `/add` and `/remove` commands that each read the whole file
    and rewrite it, and the `/list` command that only reads it. The file is
    the `events` field of `DataFile`; a write followed by a read gives back
    the same sequence. */
module Events {
  import opened Sequences
  import opened Text

  /** One stored record. `time` is the user's text, kept verbatim. */
  datatype Event = Event(title: string, time: string)

  const NoEventsReply: string := "No events found."
  const NotFoundReply: string := "\U{274C} No event with that title found."

  /** The reply of `/add`, echoing the stored title and time. */
  function AddedReply(title: string, time: string): string
  {
    "\U{2705} Event **" + title + "** added for **" + time + "**"
  }

  /** The reply of `/remove` when something was removed. */
  function RemovedReply(title: string): string
  {
    "\U{1F5D1}\U{FE0F} Event **" + title + "** removed."
  }

  /** The filter predicate of `/remove`: keep records whose title differs. */
  function OtherTitle(title: string): Event -> bool
  {
    (e: Event) => e.title != title
  }

  function HasTitle(title: string): Event -> bool
  {
    (e: Event) => e.title == title
  }

  /** The line `/list` prints for one record. */
  function EventLine(e: Event): string
  {
    "\U{2022} **" + e.title + "** at " + e.time
  }

  function EventLines(events: seq<Event>): seq<string>
  {
    seq(|events|, i requires 0 <= i < |events| => EventLine(events[i]))
  }

  /** The reply of `/list`: `No events found.` exactly when there are no
      records; otherwise the first record's line comes first and the last
      record's line comes last. */
  function ListReply(events: seq<Event>): (r: string)
    ensures r == NoEventsReply <==> |events| == 0
    ensures |events| > 0 ==>
      && |r| >= |EventLine(events[0])| && r[..|EventLine(events[0])|] == EventLine(events[0])
      && |r| >= |EventLine(events[|events| - 1])|
      && r[|r| - |EventLine(events[|events| - 1])|..] == EventLine(events[|events| - 1])
  {
    if |events| == 0 then NoEventsReply
    else
      var ls := EventLines(events);
      var r := Join(ls, '\n');
      assert ls[0] == EventLine(events[0]) && ls[|ls| - 1] == EventLine(events[|events| - 1]);
      assert r[0] == r[..|ls[0]|][0] == ls[0][0] == '\U{2022}';
      r
  }

  /** The contents of `data.json`: read by every command, rewritten by `/add` and `/remove`. */
  class DataFile {
    var events: seq<Event>

    constructor (stored: seq<Event>)
      ensures events == stored
    {
      events := stored;
    }

    /** `/add`: append `{title, time}` without any validation and write back. */
    method Add(title: string, time: string) returns (reply: string)
      modifies this
      ensures events == old(events) + [Event(title, time)]
      ensures reply == "\U{2705} Event **" + title + "** added for **" + time + "**"
    {
      events := events + [Event(title, time)];
      reply := AddedReply(title, time);
    }

    /** `/remove`: drop every record titled `title`, write the survivors back
        (also when nothing matched), then compare lengths for the reply. */
    method Remove(title: string) returns (reply: string)
      modifies this
      ensures events == Filter(old(events), OtherTitle(title))
      ensures reply == (if |events| == |old(events)| then NotFoundReply else RemovedReply(title))
      ensures reply == NotFoundReply <==> forall e :: e in old(events) ==> e.title != title
      ensures reply == NotFoundReply ==> events == old(events)
    {
      var originalLength := |events|;
      RemoveNotFoundExactly(events, title);
      events := Filter(events, OtherTitle(title));
      if |events| == originalLength {
        reply := NotFoundReply;
      } else {
        assert RemovedReply(title)[0] != NotFoundReply[0];
        reply := RemovedReply(title);
      }
    }
  }

  /** After `/add`, the stored list grows by one, every earlier record keeps
      its position and the new record is last; duplicates are allowed. */
  lemma AddAppends(events: seq<Event>, title: string, time: string)
    ensures var s := events + [Event(title, time)];
      && |s| == |events| + 1
      && s[..|events|] == events
      && s[|events|] == Event(title, time)
      && Event(title, time) in s
  {
  }

  /** After `remove(title)` no record with that title survives, every
      record with another title survives, and the survivors are the old list
      at increasing positions: exactly the positions whose title differs. */
  lemma {:induction false} RemoveFilters(events: seq<Event>, title: string)
    ensures var r := Filter(events, OtherTitle(title));
      && (forall e :: e in r ==> e.title != title)
      && (forall e :: e in events && e.title != title ==> e in r)
      && Embeds(KeptIndices(events, OtherTitle(title)), r, events)
      && (forall i: nat :: i in KeptIndices(events, OtherTitle(title)) <==>
            i < |events| && events[i].title != title)
  {
    FilterSubsequence(events, OtherTitle(title));
    KeptIndicesExact(events, OtherTitle(title));
  }

  /** Records bearing any other title are untouched by `remove(title)`: the
      records titled `u` are the same, in the same order, before and after. */
  lemma RemoveKeepsOtherTitles(events: seq<Event>, title: string, u: string)
    requires u != title
    ensures Filter(Filter(events, OtherTitle(title)), HasTitle(u)) == Filter(events, HasTitle(u))
  {
    FilterNarrowed(events, OtherTitle(title), HasTitle(u));
  }

  /** Removing the same title twice leaves what removing it once left. */
  lemma RemoveIdempotent(events: seq<Event>, title: string)
    ensures Filter(Filter(events, OtherTitle(title)), OtherTitle(title))
         == Filter(events, OtherTitle(title))
  {
    FilterIdempotent(events, OtherTitle(title));
  }

  /** The "not found" reply is given exactly when no record had the title;
      the rewritten list is then the original one. */
  lemma {:induction false} RemoveNotFoundExactly(events: seq<Event>, title: string)
    ensures |Filter(events, OtherTitle(title))| == |events|
        <==> forall e :: e in events ==> e.title != title
    ensures (forall e :: e in events ==> e.title != title)
        ==> Filter(events, OtherTitle(title)) == events
  {
    FilterKeepsAll(events, OtherTitle(title));
  }

  /** The number removed, `originalLength - newLength`, is the number of
      records that had the title, and it is at least one when any did. */
  lemma {:induction false} RemoveCount(events: seq<Event>, title: string)
    ensures |events| - |Filter(events, OtherTitle(title))| == |Filter(events, HasTitle(title))|
    ensures (exists e :: e in events && e.title == title)
        ==> |events| - |Filter(events, OtherTitle(title))| >= 1
  {
    FilterComplement(events, HasTitle(title), OtherTitle(title));
  }

  /** A non-empty `/list` reply consists of one line per record, in store
      order, separated by `\n` with no trailing newline (as long as neither
      titles nor times contain a newline themselves). */
  lemma ListLines(events: seq<Event>)
    requires |events| > 0
    requires forall e :: e in events ==> '\n' !in e.title && '\n' !in e.time
    ensures Split(ListReply(events), '\n') == EventLines(events)
    ensures |Split(ListReply(events), '\n')| == |events|
    ensures forall i :: 0 <= i < |events| ==>
      Split(ListReply(events), '\n')[i] == "\U{2022} **" + events[i].title + "** at " + events[i].time
  {
    var ls := EventLines(events);
    forall i | 0 <= i < |ls| ensures '\n' !in ls[i] {
      assert events[i] in events;
    }
    SplitJoin(ls, '\n');
  }

  /** After `/add(title, time)`, `/list` shows the new record as its last
      line, after the unchanged lines of the records before it. */
  lemma AddThenList(events: seq<Event>, title: string, time: string)
    ensures ListReply(events + [Event(title, time)])
         == (if |events| == 0 then EventLine(Event(title, time))
             else ListReply(events) + "\n" + EventLine(Event(title, time)))
  {
    var e := Event(title, time);
    assert EventLines(events + [e]) == EventLines(events) + [EventLine(e)];
    if |events| > 0 {
      JoinSnoc(EventLines(events), EventLine(e), '\n');
    }
  }
}
