/** Collections and journals wired together: every change made through a
    collection raises its events, and each event goes, as it is raised, to
    the journals on that collection's invocation list. */
module Hub {
  import opened Wrappers
  import opened Teams
  import opened Events
  import opened Journal
  import opened Notifications
  import opened TeamCollection

  datatype Hub = Hub(collections: seq<ResearchTeamCollection>, journals: seq<TeamsJournal>)

  /** Every subscriber of every collection is an existing journal. */
  ghost predicate WellFormed(h: Hub)
  {
    forall k :: 0 <= k < |h.collections| ==> ValidHandlers(h.collections[k].handlers, |h.journals|)
  }

  /** A change requested of one collection, named by its index. */
  datatype Op =
    | AddTeams(target: nat, teams: seq<ResearchTeam>)
    | RemoveTeam(target: nat, team: ResearchTeam)
    | ReplaceTeam(target: nat, rtold: ResearchTeam, rtnew: ResearchTeam)

  /** What one collection call leaves behind: the collection, the events it
      raised, the bool that Remove and Replace return (for AddResearchTeams,
      whether it finished), and the exception it threw, if any. */
  datatype Change = Change(collection: ResearchTeamCollection, events: seq<ChangeEvent>, done: bool, error: Option<Error>)

  /** The collection operation an Op stands for: the collection, events,
      result and exception are those of the call. */
  function Perform(c: ResearchTeamCollection, op: Op): (r: Change)
    ensures r.collection.collectionName == c.collectionName && r.collection.handlers == c.handlers
    ensures op.AddTeams? ==>
      var a := AddResearchTeams(c, op.teams);
      && r.collection == a.collection && r.events == a.events && r.error == a.error
      && (r.done <==> a.error.None?)
    ensures op.RemoveTeam? ==>
      var m := TeamCollection.Remove(c, op.team);
      r.collection == m.collection && r.events == m.events && r.done == m.done && r.error == None
    ensures op.ReplaceTeam? ==>
      var m := TeamCollection.Replace(c, op.rtold, op.rtnew);
      r.collection == m.collection && r.events == m.events && r.done == m.done && r.error == None
  {
    match op
    case AddTeams(_, teams) =>
      var a := AddResearchTeams(c, teams);
      Change(a.collection, a.events, a.error.None?, a.error)
    case RemoveTeam(_, team) =>
      var m := TeamCollection.Remove(c, team);
      Change(m.collection, m.events, m.done, None)
    case ReplaceTeam(_, rtold, rtnew) =>
      var m := TeamCollection.Replace(c, rtold, rtnew);
      Change(m.collection, m.events, m.done, None)
  }

  /** Every event a call raises names the collection that raised it. */
  lemma EventsNameTheirCollection(c: ResearchTeamCollection, op: Op)
    ensures forall i :: 0 <= i < |Perform(c, op).events| ==> Perform(c, op).events[i].collectionName == c.collectionName
  {
    if op.AddTeams? {
      var a := AddResearchTeams(c, op.teams);
      assert forall i :: 0 <= i < |a.events| ==> a.events[i] == AddedEvent(c.collectionName, op.teams[i]);
    }
  }

  /** The state after some calls: the hub, the events raised in order, the
      result of each call made, and the exception that ended the run. */
  datatype Outcome = Outcome(hub: Hub, events: seq<ChangeEvent>, results: seq<bool>, error: Option<Error>)

  /** The hub once a call on collection `target` has left `c`: that
      collection is replaced, the events are delivered, in order, to its
      subscribers, and the other collections are untouched. */
  function Commit(h: Hub, target: nat, c: Change): (r: Outcome)
    requires WellFormed(h) && target < |h.collections|
    requires c.collection.handlers == h.collections[target].handlers
    ensures WellFormed(r.hub)
    ensures |r.hub.collections| == |h.collections|
    ensures forall k :: 0 <= k < |h.collections| ==> r.hub.collections[k].handlers == h.collections[k].handlers
    ensures forall k :: 0 <= k < |h.collections| && k != target ==> r.hub.collections[k] == h.collections[k]
    ensures r.hub.collections[target] == c.collection
    ensures r.events == c.events && r.results == [c.done] && r.error == c.error
    ensures r.hub.journals == DeliverAll(h.journals, h.collections[target].handlers, c.events)
  {
    var journals := DeliverAll(h.journals, h.collections[target].handlers, c.events);
    Outcome(Hub(h.collections[target := c.collection], journals), c.events, [c.done], c.error)
  }

  /** One change: the call the Op stands for, committed to the hub. */
  function Apply(h: Hub, op: Op): Outcome
    requires WellFormed(h) && op.target < |h.collections|
  {
    Commit(h, op.target, Perform(h.collections[op.target], op))
  }

  ghost predicate TargetsExist(ops: seq<Op>, count: nat)
  {
    forall i :: 0 <= i < |ops| ==> ops[i].target < count
  }

  /** The journal is on every collection's invocation list exactly once. */
  ghost predicate SubscribedOnce(h: Hub, id: JournalId)
  {
    forall k :: 0 <= k < |h.collections| ==> Occurrences(h.collections[k].handlers, id) == 1
  }

  /** The journal is on no collection's invocation list. */
  ghost predicate Unsubscribed(h: Hub, id: JournalId)
  {
    forall k :: 0 <= k < |h.collections| ==> Occurrences(h.collections[k].handlers, id) == 0
  }

  /** `+=` of one journal on every collection's ResearchTeamsChanged, as
      Main does for its two collections before changing them. */
  function SubscribeEverywhere(h: Hub, id: JournalId): (r: Hub)
    requires WellFormed(h) && id < |h.journals|
    ensures WellFormed(r) && r.journals == h.journals && |r.collections| == |h.collections|
    ensures forall k :: 0 <= k < |h.collections| ==>
      r.collections[k].(handlers := h.collections[k].handlers) == h.collections[k]
    ensures forall k :: 0 <= k < |h.collections| ==>
      Occurrences(r.collections[k].handlers, id) == Occurrences(h.collections[k].handlers, id) + 1
    ensures forall k, j :: 0 <= k < |h.collections| && j != id ==>
      Occurrences(r.collections[k].handlers, j) == Occurrences(h.collections[k].handlers, j)
    ensures Unsubscribed(h, id) ==> SubscribedOnce(r, id)
  {
    var cs := seq(|h.collections|, k requires 0 <= k < |h.collections| => AddHandler(h.collections[k], id));
    assert forall k :: 0 <= k < |cs| ==> cs[k] == AddHandler(h.collections[k], id);
    AddHandlerKeepsValid(h.collections, id, |h.journals|);
    Hub(cs, h.journals)
  }

  lemma AddHandlerKeepsValid(cs: seq<ResearchTeamCollection>, id: JournalId, count: nat)
    requires id < count
    ensures forall k :: 0 <= k < |cs| && ValidHandlers(cs[k].handlers, count) ==>
      ValidHandlers(AddHandler(cs[k], id).handlers, count)
  {
    forall k | 0 <= k < |cs| && ValidHandlers(cs[k].handlers, count)
      ensures ValidHandlers(AddHandler(cs[k], id).handlers, count)
    {
      assert AddHandler(cs[k], id).handlers == cs[k].handlers + [id];
    }
  }

  /** A journal that Main subscribes to every collection ends up holding
      one entry per event raised by the calls that follow, in the order
      they were raised. */
  lemma SubscribedJournalSeesRun(h: Hub, id: JournalId, ops: seq<Op>)
    requires WellFormed(h) && id < |h.journals| && Unsubscribed(h, id)
    requires TargetsExist(ops, |h.collections|)
    ensures var r := Run(SubscribeEverywhere(h, id), ops);
      r.hub.journals[id] == HandleAll(h.journals[id], r.events)
  {
    RunJournals(SubscribeEverywhere(h, id), ops, id);
  }

  /** A series of changes, in call order, as Main makes them: the first
      exception ends the run, and the calls after it are not made. */
  function Run(h: Hub, ops: seq<Op>): (r: Outcome)
    requires WellFormed(h) && TargetsExist(ops, |h.collections|)
    ensures WellFormed(r.hub)
    ensures |r.hub.collections| == |h.collections| && |r.hub.journals| == |h.journals|
    ensures forall k :: 0 <= k < |h.collections| ==> r.hub.collections[k].handlers == h.collections[k].handlers
    ensures |r.results| <= |ops|
    ensures r.error.None? ==> |r.results| == |ops|
    ensures r.error.Some? ==> 0 < |r.results| && r.error == Some(InvalidOperationException)
    ensures |ops| == 0 ==> r == Outcome(h, [], [], None)
    ensures |ops| > 0 ==>
      var prev := Run(h, ops[..|ops| - 1]);
      var op := ops[|ops| - 1];
      && (prev.error.Some? ==> r == prev)
      && (prev.error.None? ==>
            var target := prev.hub.collections[op.target];
            var c := Perform(target, op);
            && r.hub.collections == prev.hub.collections[op.target := c.collection]
            && r.hub.journals == DeliverAll(prev.hub.journals, target.handlers, c.events)
            && r.events == prev.events + c.events
            && r.results == prev.results + [c.done]
            && r.error == c.error)
  {
    if |ops| == 0 then Outcome(h, [], [], None)
    else
      var prev := Run(h, ops[..|ops| - 1]);
      if prev.error.Some? then prev
      else
        var op := ops[|ops| - 1];
        var c := Perform(prev.hub.collections[op.target], op);
        var step := Commit(prev.hub, op.target, c);
        assert step.hub.collections == prev.hub.collections[op.target := c.collection];
        Outcome(step.hub, prev.events + c.events, prev.results + [c.done], c.error)
  }

  /** After a run, a journal subscribed once to every collection holds what
      it held before followed by one entry per raised event, in the order
      the events were raised; a journal subscribed nowhere is unchanged. */
  lemma {:induction false} RunJournals(h: Hub, ops: seq<Op>, id: JournalId)
    requires WellFormed(h) && TargetsExist(ops, |h.collections|) && id < |h.journals|
    ensures SubscribedOnce(h, id) ==> Run(h, ops).hub.journals[id] == HandleAll(h.journals[id], Run(h, ops).events)
    ensures Unsubscribed(h, id) ==> Run(h, ops).hub.journals[id] == h.journals[id]
  {
    if |ops| == 0 {
      assert HandleAll(h.journals[id], []) == h.journals[id];
    } else {
      var prefix := ops[..|ops| - 1];
      assert TargetsExist(prefix, |h.collections|);
      RunJournals(h, prefix, id);
      var prev := Run(h, prefix);
      if prev.error.None? {
        var op := ops[|ops| - 1];
        var step := Apply(prev.hub, op);
        SubscribedJournalRecordsEvents(prev.hub.journals, prev.hub.collections[op.target].handlers, step.events, id);
        HandleAllConcatenates(h.journals[id], prev.events, step.events);
      }
    }
  }

  /** How many calls returned true. */
  function CountTrue(results: seq<bool>): nat
  {
    if |results| == 0 then 0
    else CountTrue(results[..|results| - 1]) + (if results[|results| - 1] then 1 else 0)
  }

  ghost predicate AllRemoves(ops: seq<Op>)
  {
    forall i :: 0 <= i < |ops| ==> ops[i].RemoveTeam?
  }

  /** A run of Remove calls throws nothing, and raises one Remove event per
      call that returned true and none for the others. */
  lemma {:induction false} RemovesRaiseRemoveEvents(h: Hub, ops: seq<Op>)
    requires WellFormed(h) && TargetsExist(ops, |h.collections|) && AllRemoves(ops)
    ensures var r := Run(h, ops);
      && r.error.None?
      && |r.events| == CountTrue(r.results)
      && forall i :: 0 <= i < |r.events| ==> r.events[i].changeType == Revision.Remove
  {
    if |ops| > 0 {
      var prefix := ops[..|ops| - 1];
      assert TargetsExist(prefix, |h.collections|) && AllRemoves(prefix);
      RemovesRaiseRemoveEvents(h, prefix);
      var prev := Run(h, prefix);
      var op := ops[|ops| - 1];
      var c := Perform(prev.hub.collections[op.target], op);
      RemoveStep(prev.hub.collections[op.target], op);
      var r := Run(h, ops);
      RemoveEventsAppend(prev.events, prev.results, c.events, c.done, r.events, r.results);
    }
  }

  /** The count of Remove events against true results survives one more
      call that raises one Remove event iff it returned true. */
  lemma RemoveEventsAppend(events: seq<ChangeEvent>, results: seq<bool>, more: seq<ChangeEvent>, done: bool,
                           events': seq<ChangeEvent>, results': seq<bool>)
    requires events' == events + more && results' == results + [done]
    requires |events| == CountTrue(results) && |more| == (if done then 1 else 0)
    requires forall i :: 0 <= i < |events| ==> events[i].changeType == Revision.Remove
    requires forall i :: 0 <= i < |more| ==> more[i].changeType == Revision.Remove
    ensures |events'| == CountTrue(results')
    ensures forall i :: 0 <= i < |events'| ==> events'[i].changeType == Revision.Remove
  {
    assert results'[..|results'| - 1] == results;
    assert forall i :: |events| <= i < |events'| ==> events'[i] == more[i - |events|];
  }

  /** One Remove call throws nothing and raises one Remove event when it
      returns true, none when it returns false. */
  lemma RemoveStep(c: ResearchTeamCollection, op: Op)
    requires op.RemoveTeam?
    ensures var r := Perform(c, op);
      && r.error.None?
      && |r.events| == (if r.done then 1 else 0)
      && forall i :: 0 <= i < |r.events| ==> r.events[i].changeType == Revision.Remove
  {
    var m := TeamCollection.Remove(c, op.team);
    assert Perform(c, op).events == m.events;
  }

  /** A journal subscribed once to every collection, through a run of
      Remove calls, gains exactly one entry per successful Remove, and each
      new entry is of change type Remove. */
  lemma RemovesAreJournaled(h: Hub, ops: seq<Op>, id: JournalId)
    requires WellFormed(h) && TargetsExist(ops, |h.collections|) && AllRemoves(ops)
    requires id < |h.journals| && SubscribedOnce(h, id)
    ensures var r := Run(h, ops);
      && r.error.None? && |r.results| == |ops|
      && |r.hub.journals[id]| == |h.journals[id]| + CountTrue(r.results)
      && r.hub.journals[id][..|h.journals[id]|] == h.journals[id]
      && forall k :: |h.journals[id]| <= k < |r.hub.journals[id]| ==> r.hub.journals[id][k].changeType == Revision.Remove
  {
    RemovesRaiseRemoveEvents(h, ops);
    RunJournals(h, ops, id);
    var r := Run(h, ops);
    HandleAllKeepsChangeType(h.journals[id], r.events, Revision.Remove, r.hub.journals[id]);
  }
}
