/** The change events of the lab-4 collection and the TeamsJournal that
    records them. */
module Events {

  /** The kinds of change. There is no "added" kind: additions are reported
      as Property. */
  datatype Revision = Remove | Replace | Property

  /** ResearchTeamsChangedEventArgs: immutable once raised. */
  datatype ChangeEvent = ChangeEvent(
    collectionName: string,
    changeType: Revision,
    propertyName: string,
    registrationNumber: int)
}

module Journal {
  import opened Events

  /** TeamsJournalEntry: the four fields of one handled event. */
  datatype JournalEntry = JournalEntry(
    collectionName: string,
    changeType: Revision,
    propertyName: string,
    registrationNumber: int)

  /** A TeamsJournal's entry list, in the order the events were handled. */
  type TeamsJournal = seq<JournalEntry>

  /** The entry made from an event: a field-by-field copy. */
  function EntryOf(e: ChangeEvent): JournalEntry
  {
    JournalEntry(e.collectionName, e.changeType, e.propertyName, e.registrationNumber)
  }

  /** The copy loses nothing: an entry determines the event it was made from. */
  lemma EntryOfIsFaithful(a: ChangeEvent, b: ChangeEvent)
    ensures EntryOf(a) == EntryOf(b) <==> a == b
  {
  }

  /** HandleResearchTeamsChanged: appends one entry with the event's
      collection name, change type, property name and registration number;
      the entries already there stay as they were. */
  function HandleResearchTeamsChanged(j: TeamsJournal, e: ChangeEvent): (r: TeamsJournal)
    ensures |r| == |j| + 1
    ensures r[..|j|] == j
    ensures r[|j|].collectionName == e.collectionName
    ensures r[|j|].changeType == e.changeType
    ensures r[|j|].propertyName == e.propertyName
    ensures r[|j|].registrationNumber == e.registrationNumber
  {
    j + [EntryOf(e)]
  }

  /** Handling a series of events, one after another. */
  function HandleAll(j: TeamsJournal, es: seq<ChangeEvent>): (r: TeamsJournal)
    ensures |r| == |j| + |es|
    ensures r[..|j|] == j
    ensures forall i :: 0 <= i < |es| ==> r[|j| + i] == EntryOf(es[i])
  {
    if |es| == 0 then j
    else
      var prev := HandleAll(j, es[..|es| - 1]);
      assert forall i :: 0 <= i < |es| - 1 ==> es[..|es| - 1][i] == es[i];
      HandleResearchTeamsChanged(prev, es[|es| - 1])
  }

  /** When every event is of one change type, so is every entry handling
      them adds. */
  lemma HandleAllKeepsChangeType(j: TeamsJournal, es: seq<ChangeEvent>, t: Revision, r: TeamsJournal)
    requires forall i :: 0 <= i < |es| ==> es[i].changeType == t
    requires r == HandleAll(j, es)
    ensures forall k :: |j| <= k < |r| ==> r[k].changeType == t
  {
    forall k | |j| <= k < |r|
      ensures r[k].changeType == t
    {
      assert r[|j| + (k - |j|)] == EntryOf(es[k - |j|]);
    }
  }

  /** Handling two series in turn is handling their concatenation: the
      journal only ever grows at its end, in the order events arrive. */
  lemma HandleAllConcatenates(j: TeamsJournal, es1: seq<ChangeEvent>, es2: seq<ChangeEvent>)
    ensures HandleAll(HandleAll(j, es1), es2) == HandleAll(j, es1 + es2)
  {
    var a := HandleAll(HandleAll(j, es1), es2);
    var b := HandleAll(j, es1 + es2);
    assert |a| == |b|;
    forall i | 0 <= i < |a|
      ensures a[i] == b[i]
    {
      if i < |j| {
        assert a[i] == a[..|j| + |es1|][..|j|][i];
      } else if i < |j| + |es1| {
        assert a[i] == a[..|j| + |es1|][i];
        assert (es1 + es2)[i - |j|] == es1[i - |j|];
      } else {
        assert a[i] == a[|j| + |es1| + (i - |j| - |es1|)];
        assert (es1 + es2)[i - |j|] == es2[i - |j| - |es1|];
      }
    }
  }
}

/** The ResearchTeamsChanged event as an explicit invocation list: each
    handler is the HandleResearchTeamsChanged of one journal, named by its
    index, and raising an event calls the handlers in list order. */
module Notifications {
  import opened Events
  import opened Journal

  type JournalId = nat

  /** The delegate's invocation list; a journal added twice is called twice. */
  type Handlers = seq<JournalId>

  function Occurrences(handlers: Handlers, id: JournalId): nat
  {
    if |handlers| == 0 then 0
    else Occurrences(handlers[..|handlers| - 1], id) + (if handlers[|handlers| - 1] == id then 1 else 0)
  }

  lemma {:induction false} OccurrencesPositive(handlers: Handlers, id: JournalId)
    ensures Occurrences(handlers, id) > 0 <==> id in handlers
  {
    if |handlers| > 0 {
      var prefix := handlers[..|handlers| - 1];
      OccurrencesPositive(prefix, id);
      assert handlers == prefix + [handlers[|handlers| - 1]];
    }
  }

  /** `+=` on the event: the handler goes to the end of the list. */
  function Subscribe(handlers: Handlers, id: JournalId): (r: Handlers)
    ensures |r| == |handlers| + 1 && r[..|handlers|] == handlers
    ensures Occurrences(r, id) == Occurrences(handlers, id) + 1
    ensures forall other :: other != id ==> Occurrences(r, other) == Occurrences(handlers, other)
  {
    assert (handlers + [id])[..|handlers|] == handlers;
    handlers + [id]
  }

  /** `-=` on the event (Delegate.Remove): the last occurrence of the handler
      leaves the list; a handler not in the list changes nothing. */
  function Unsubscribe(handlers: Handlers, id: JournalId): (r: Handlers)
    ensures id !in handlers ==> r == handlers
    ensures id in handlers ==> |r| == |handlers| - 1 && Occurrences(r, id) == Occurrences(handlers, id) - 1
    ensures forall other :: other != id ==> Occurrences(r, other) == Occurrences(handlers, other)
  {
    if |handlers| == 0 then []
    else
      var prefix := handlers[..|handlers| - 1];
      var last := handlers[|handlers| - 1];
      assert handlers == prefix + [last];
      OccurrencesPositive(prefix, id);
      OccurrencesPositive(handlers, id);
      if last == id then prefix
      else
        var r := Unsubscribe(prefix, id) + [last];
        assert r[..|r| - 1] == Unsubscribe(prefix, id);
        r
  }

  /** Removing a handler right after adding it restores the list. */
  lemma UnsubscribeUndoesSubscribe(handlers: Handlers, id: JournalId)
    ensures Unsubscribe(Subscribe(handlers, id), id) == handlers
  {
    var s := handlers + [id];
    assert s[..|s| - 1] == handlers;
  }

  /** Every handler names an existing journal. */
  ghost predicate ValidHandlers(handlers: Handlers, journalCount: nat)
  {
    forall i :: 0 <= i < |handlers| ==> handlers[i] < journalCount
  }

  /** `n` copies of an entry. */
  function Repeat(x: JournalEntry, n: nat): (r: seq<JournalEntry>)
    ensures |r| == n
    ensures forall i :: 0 <= i < n ==> r[i] == x
  {
    if n == 0 then [] else Repeat(x, n - 1) + [x]
  }

  /** Raising one event: each handler, in list order, appends the event to
      its journal. A journal thus gains one entry per time it is subscribed
      and the others are untouched. */
  function Deliver(journals: seq<TeamsJournal>, handlers: Handlers, e: ChangeEvent): (r: seq<TeamsJournal>)
    requires ValidHandlers(handlers, |journals|)
    ensures |r| == |journals|
    ensures forall id :: 0 <= id < |journals| ==>
      r[id] == journals[id] + Repeat(EntryOf(e), Occurrences(handlers, id))
  {
    if |handlers| == 0 then journals
    else
      var prev := Deliver(journals, handlers[..|handlers| - 1], e);
      var h := handlers[|handlers| - 1];
      var r := prev[h := HandleResearchTeamsChanged(prev[h], e)];
      assert forall id :: 0 <= id < |journals| && id == h ==>
        r[id] == journals[id] + Repeat(EntryOf(e), Occurrences(handlers, id)) by {
        var k := Occurrences(handlers[..|handlers| - 1], h);
        assert journals[h] + Repeat(EntryOf(e), k) + [EntryOf(e)] == journals[h] + Repeat(EntryOf(e), k + 1);
      }
      r
  }

  /** The entries a journal subscribed `m` times gains from a series of events. */
  function Spread(es: seq<ChangeEvent>, m: nat): seq<JournalEntry>
  {
    if |es| == 0 then [] else Spread(es[..|es| - 1], m) + Repeat(EntryOf(es[|es| - 1]), m)
  }

  /** Raising a series of events, one after another. */
  function DeliverAll(journals: seq<TeamsJournal>, handlers: Handlers, es: seq<ChangeEvent>): (r: seq<TeamsJournal>)
    requires ValidHandlers(handlers, |journals|)
    ensures |r| == |journals|
    ensures forall id :: 0 <= id < |journals| ==> r[id] == journals[id] + Spread(es, Occurrences(handlers, id))
  {
    if |es| == 0 then journals
    else
      var prev := DeliverAll(journals, handlers, es[..|es| - 1]);
      var r := Deliver(prev, handlers, es[|es| - 1]);
      assert forall id :: 0 <= id < |journals| ==>
        r[id] == journals[id] + Spread(es, Occurrences(handlers, id)) by {
        forall id | 0 <= id < |journals|
          ensures r[id] == journals[id] + Spread(es, Occurrences(handlers, id))
        {
          var m := Occurrences(handlers, id);
          assert r[id] == journals[id] + Spread(es[..|es| - 1], m) + Repeat(EntryOf(es[|es| - 1]), m);
        }
      }
      r
  }

  /** A journal subscribed once records every event, once each, in the
      order raised; one not subscribed records nothing. */
  lemma {:induction false} SpreadOnceIsHandleAll(j: TeamsJournal, es: seq<ChangeEvent>)
    ensures j + Spread(es, 1) == HandleAll(j, es)
    ensures Spread(es, 0) == []
  {
    if |es| > 0 {
      SpreadOnceIsHandleAll(j, es[..|es| - 1]);
      assert Repeat(EntryOf(es[|es| - 1]), 1) == [EntryOf(es[|es| - 1])];
    }
  }

  lemma SubscribedJournalRecordsEvents(journals: seq<TeamsJournal>, handlers: Handlers, es: seq<ChangeEvent>, id: JournalId)
    requires ValidHandlers(handlers, |journals|)
    requires id < |journals|
    ensures Occurrences(handlers, id) == 1 ==> DeliverAll(journals, handlers, es)[id] == HandleAll(journals[id], es)
    ensures Occurrences(handlers, id) == 0 ==> DeliverAll(journals, handlers, es)[id] == journals[id]
  {
    SpreadOnceIsHandleAll(journals[id], es);
  }
}
