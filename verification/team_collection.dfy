/** The lab-4 ResearchTeamCollection<string>: teams keyed by
    "<organization>_<registration number>", a collection name, and a
    ResearchTeamsChanged event raised by every successful change. Each
    operation returns the events it raised, in order; delivering them to
    the subscribed journals is the Hub's business. */
module TeamCollection {
  import opened Wrappers
  import opened Values
  import opened Teams
  import opened Keys
  import opened Queries
  import opened Events
  import opened Notifications

  /** The dictionary as its entries in enumeration order, plus the name and
      the invocation list of ResearchTeamsChanged. */
  datatype ResearchTeamCollection = ResearchTeamCollection(
    collectionName: string,
    entries: seq<Entry<string>>,
    handlers: Handlers)

  /** The dictionary invariant. */
  ghost predicate Valid(c: ResearchTeamCollection)
  {
    DistinctKeys(c.entries)
  }

  /** GenerateKeyForTeam. */
  function KeyFor(rt: ResearchTeam): string
  {
    KeyOf(rt.base)
  }

  /** Every team sits under the key GenerateKeyForTeam derives from it. Adding
      and removing keep this; replacing does not (see ReplaceKeepsOldKey). */
  ghost predicate KeyedByOwnTeam(c: ResearchTeamCollection)
  {
    forall i :: 0 <= i < |c.entries| ==> c.entries[i].key == KeyFor(c.entries[i].team)
  }

  lemma InKeys(entries: seq<Entry<string>>, key: string)
    ensures key in KeysOf(entries) <==> exists i :: 0 <= i < |entries| && entries[i].key == key
  {
    if key in KeysOf(entries) {
      var i :| 0 <= i < |entries| && KeysOf(entries)[i] == key;
    }
  }

  /** The constructor: a named, empty collection with no subscribers. */
  function NewCollection(name: string): (r: ResearchTeamCollection)
    ensures r.collectionName == name && r.handlers == []
    ensures Valid(r) && KeyedByOwnTeam(r)
    ensures forall key :: key !in KeysOf(r.entries)
  {
    ResearchTeamCollection(name, [], [])
  }

  /** The `add` accessor of ResearchTeamsChanged. */
  function AddHandler(c: ResearchTeamCollection, id: JournalId): (r: ResearchTeamCollection)
    ensures r.(handlers := c.handlers) == c
    ensures Occurrences(r.handlers, id) == Occurrences(c.handlers, id) + 1
    ensures forall j :: j != id ==> Occurrences(r.handlers, j) == Occurrences(c.handlers, j)
  {
    c.(handlers := Subscribe(c.handlers, id))
  }

  /** The `remove` accessor of ResearchTeamsChanged. */
  function RemoveHandler(c: ResearchTeamCollection, id: JournalId): (r: ResearchTeamCollection)
    ensures r.(handlers := c.handlers) == c
    ensures id in c.handlers ==> Occurrences(r.handlers, id) == Occurrences(c.handlers, id) - 1
    ensures id !in c.handlers ==> r == c
    ensures forall j :: j != id ==> Occurrences(r.handlers, j) == Occurrences(c.handlers, j)
  {
    c.(handlers := Unsubscribe(c.handlers, id))
  }

  lemma RemoveHandlerUndoesAddHandler(c: ResearchTeamCollection, id: JournalId)
    ensures RemoveHandler(AddHandler(c, id), id) == c
  {
    UnsubscribeUndoesSubscribe(c.handlers, id);
  }

  /** Dictionary.TryGetValue over the entries. */
  function Lookup(entries: seq<Entry<string>>, key: string): (r: Option<ResearchTeam>)
    ensures r.Some? <==> key in KeysOf(entries)
    ensures r.Some? ==> Entry(key, r.value) in entries
  {
    if |entries| == 0 then None
    else if entries[0].key == key then Some(entries[0].team)
    else
      assert KeysOf(entries) == [entries[0].key] + KeysOf(entries[1..]);
      Lookup(entries[1..], key)
  }

  /** GetTeamByKey: the team stored under the key, or null. */
  function GetTeamByKey(c: ResearchTeamCollection, key: string): (r: Option<ResearchTeam>)
    ensures r.Some? <==> key in KeysOf(c.entries)
    ensures r.Some? ==> Entry(key, r.value) in c.entries
  {
    Lookup(c.entries, key)
  }

  /** With distinct keys, GetTeamByKey answers exactly the stored pairs. */
  lemma GetTeamByKeyIsStored(c: ResearchTeamCollection, key: string, rt: ResearchTeam)
    requires Valid(c)
    ensures GetTeamByKey(c, key) == Some(rt) <==> Entry(key, rt) in c.entries
  {
    if Entry(key, rt) in c.entries {
      var i :| 0 <= i < |c.entries| && c.entries[i] == Entry(key, rt);
      var r := GetTeamByKey(c, key);
      assert KeysOf(c.entries)[i] == key;
      var j :| 0 <= j < |c.entries| && c.entries[j] == Entry(key, r.value);
      assert i == j;
    }
  }

  /** The event AddResearchTeams raises for each team it inserts. */
  function AddedEvent(name: string, rt: ResearchTeam): ChangeEvent
  {
    ChangeEvent(name, Property, "ResearchTeam added", rt.base.registrationNumber)
  }

  /** One "ResearchTeam added" event per team, in order. */
  function AddedEvents(name: string, teams: seq<ResearchTeam>): (r: seq<ChangeEvent>)
    ensures |r| == |teams|
    ensures forall i :: 0 <= i < |teams| ==> r[i] == AddedEvent(name, teams[i])
  {
    if |teams| == 0 then [] else AddedEvents(name, teams[..|teams| - 1]) + [AddedEvent(name, teams[|teams| - 1])]
  }

  /** The collection after an insertion call, the events raised, and the
      exception that ended it early, if any. */
  datatype AddOutcome = AddOutcome(collection: ResearchTeamCollection, events: seq<ChangeEvent>, error: Option<Error>)

  /** AddResearchTeams: each team in turn goes in under its derived key with
      one "ResearchTeam added" event. The first team whose key is already
      present makes GetKey throw InvalidOperationException: the teams before
      it stay inserted, their events stay raised, and the rest are not
      reached. */
  function AddResearchTeams(c: ResearchTeamCollection, teams: seq<ResearchTeam>): (r: AddOutcome)
    ensures r.collection.collectionName == c.collectionName && r.collection.handlers == c.handlers
    ensures Valid(c) ==> Valid(r.collection)
    ensures KeyedByOwnTeam(c) ==> KeyedByOwnTeam(r.collection)
    ensures var n := |r.collection.entries| - |c.entries|;
      && 0 <= n <= |teams|
      && AppendedUnder(r.collection.entries, c.entries, teams[..n], KeyFor)
      && |r.events| == n
      && (forall i :: 0 <= i < n ==> r.events[i] == AddedEvent(c.collectionName, teams[i]))
      && (r.error.None? <==> n == |teams|)
      && (r.error.Some? ==> r.error.value == InvalidOperationException
                            && KeyFor(teams[n]) in KeysOf(r.collection.entries))
  {
    var ins := InsertAll(c.entries, teams, KeyFor);
    var n := |ins.entries| - |c.entries|;
    AppendedKeepsKeying(c, ins.entries, teams[..n]);
    var events := AddedEvents(c.collectionName, teams[..n]);
    AddOutcome(c.(entries := ins.entries), events, if ins.clash then Some(InvalidOperationException) else None)
  }

  lemma AppendedKeepsKeying(c: ResearchTeamCollection, entries: seq<Entry<string>>, added: seq<ResearchTeam>)
    requires AppendedUnder(entries, c.entries, added, KeyFor)
    ensures KeyedByOwnTeam(c) ==> KeyedByOwnTeam(c.(entries := entries))
  {
    if KeyedByOwnTeam(c) {
      forall i | 0 <= i < |entries|
        ensures entries[i].key == KeyFor(entries[i].team)
      {
        if i < |c.entries| {
          assert entries[i] == entries[..|c.entries|][i];
        } else {
          var k := i - |c.entries|;
          assert entries[|c.entries| + k] == Entry(KeyFor(added[k]), added[k]);
        }
      }
    }
  }

  /** AddDefaults: the three default teams, through AddResearchTeams. */
  function AddDefaults(c: ResearchTeamCollection): AddOutcome
  {
    AddResearchTeams(c, DefaultTeams())
  }

  /** The index of the first entry whose team equals `rt` (Team's `==`):
      what FirstOrDefault finds. */
  function FirstEqual(entries: seq<Entry<string>>, rt: ResearchTeam): (r: Option<nat>)
    ensures r.Some? ==> r.value < |entries| && SameTeam(entries[r.value].team, rt)
    ensures r.Some? ==> forall j :: 0 <= j < r.value ==> !SameTeam(entries[j].team, rt)
    ensures r.None? <==> forall j :: 0 <= j < |entries| ==> !SameTeam(entries[j].team, rt)
  {
    if |entries| == 0 then None
    else if SameTeam(entries[0].team, rt) then Some(0)
    else
      match FirstEqual(entries[1..], rt)
      case None => None
      case Some(i) => Some(i + 1)
  }

  /** A change that either happened, with the events it raised, or left the
      collection alone and raised nothing. */
  datatype Mutation = Mutation(collection: ResearchTeamCollection, done: bool, events: seq<ChangeEvent>)

  lemma DeleteAt<T>(s: seq<T>, i: nat, x: T)
    requires i < |s|
    ensures x in s[..i] + s[i + 1..] <==> exists j :: 0 <= j < |s| && j != i && s[j] == x
  {
    var t := s[..i] + s[i + 1..];
    if x in t {
      var k :| 0 <= k < |t| && t[k] == x;
      if k < i {
        assert s[k] == x;
      } else {
        assert s[k + 1] == x;
      }
    }
    if exists j :: 0 <= j < |s| && j != i && s[j] == x {
      var j :| 0 <= j < |s| && j != i && s[j] == x;
      if j < i {
        assert t[j] == x;
      } else {
        assert t[j - 1] == x;
      }
    }
  }

  /** Remove: deletes the first entry holding a team equal to `rt` and
      raises a Remove event with an empty property name and `rt`'s
      registration number; when no team is equal it returns false and
      changes nothing. */
  function Remove(c: ResearchTeamCollection, rt: ResearchTeam): (r: Mutation)
    ensures r.collection.(entries := c.entries) == c
    ensures r.done <==> exists i :: 0 <= i < |c.entries| && SameTeam(c.entries[i].team, rt)
    ensures !r.done ==> r.collection == c && r.events == []
    ensures r.done ==> r.events == [ChangeEvent(c.collectionName, Revision.Remove, "", rt.base.registrationNumber)]
    ensures r.done ==> exists i :: 0 <= i < |c.entries| && SameTeam(c.entries[i].team, rt)
                               && (forall j :: 0 <= j < i ==> !SameTeam(c.entries[j].team, rt))
                               && r.collection == c.(entries := c.entries[..i] + c.entries[i + 1..])
    ensures Valid(c) ==> Valid(r.collection)
    ensures KeyedByOwnTeam(c) ==> KeyedByOwnTeam(r.collection)
  {
    match FirstEqual(c.entries, rt)
    case None => Mutation(c, false, [])
    case Some(i) =>
      DeleteKeepsInvariants(c, i);
      Mutation(c.(entries := c.entries[..i] + c.entries[i + 1..]), true,
               [ChangeEvent(c.collectionName, Revision.Remove, "", rt.base.registrationNumber)])
  }

  /** Deleting one entry keeps the keys distinct and every team under its
      own key. */
  lemma DeleteKeepsInvariants(c: ResearchTeamCollection, i: nat)
    requires i < |c.entries|
    ensures Valid(c) ==> Valid(c.(entries := c.entries[..i] + c.entries[i + 1..]))
    ensures KeyedByOwnTeam(c) ==> KeyedByOwnTeam(c.(entries := c.entries[..i] + c.entries[i + 1..]))
  {
    var rest := c.entries[..i] + c.entries[i + 1..];
    assert forall j :: 0 <= j < |rest| ==> rest[j] == c.entries[if j < i then j else j + 1];
  }

  /** Replace: stores `rtnew` in place of the first team equal to `rtold`,
      under the same key and at the same position, and raises a Replace
      event carrying `rtold`'s registration number; when no team is equal
      it returns false and changes nothing. */
  function Replace(c: ResearchTeamCollection, rtold: ResearchTeam, rtnew: ResearchTeam): (r: Mutation)
    ensures r.collection.(entries := c.entries) == c
    ensures r.done <==> exists i :: 0 <= i < |c.entries| && SameTeam(c.entries[i].team, rtold)
    ensures !r.done ==> r.collection == c && r.events == []
    ensures r.done ==> r.events == [ChangeEvent(c.collectionName, Revision.Replace, "", rtold.base.registrationNumber)]
    ensures r.done ==> exists i :: 0 <= i < |c.entries| && SameTeam(c.entries[i].team, rtold)
                               && (forall j :: 0 <= j < i ==> !SameTeam(c.entries[j].team, rtold))
                               && r.collection == c.(entries := c.entries[i := Entry(c.entries[i].key, rtnew)])
    ensures KeysOf(r.collection.entries) == KeysOf(c.entries)
    ensures Valid(c) ==> Valid(r.collection)
  {
    match FirstEqual(c.entries, rtold)
    case None => Mutation(c, false, [])
    case Some(i) =>
      var updated := c.entries[i := Entry(c.entries[i].key, rtnew)];
      assert KeysOf(updated) == KeysOf(c.entries);
      Mutation(c.(entries := updated), true, [ChangeEvent(c.collectionName, Revision.Replace, "", rtold.base.registrationNumber)])
  }

  /** When every team sits under its own key, a team equal to `rt` is stored
      exactly when `rt`'s key is: so Remove succeeds exactly when adding
      `rt` would throw. */
  lemma StoredKeyMeansEqualTeam(c: ResearchTeamCollection, rt: ResearchTeam)
    requires KeyedByOwnTeam(c)
    ensures KeyFor(rt) in KeysOf(c.entries) <==> exists i :: 0 <= i < |c.entries| && SameTeam(c.entries[i].team, rt)
    ensures Remove(c, rt).done <==> AddResearchTeams(c, [rt]).error.Some?
  {
    forall i | 0 <= i < |c.entries|
      ensures SameTeam(c.entries[i].team, rt) <==> c.entries[i].key == KeyFor(rt)
    {
      KeyOfMatchesSameTeam(c.entries[i].team, rt);
    }
    InKeys(c.entries, KeyFor(rt));
  }

  /** Adding a team whose key is free: no exception, one event, and
      GetTeamByKey now finds the team under its key while every other key
      answers as before. */
  lemma AddThenGet(c: ResearchTeamCollection, rt: ResearchTeam)
    requires Valid(c)
    requires KeyFor(rt) !in KeysOf(c.entries)
    ensures var a := AddResearchTeams(c, [rt]);
      && a.error.None?
      && a.events == [AddedEvent(c.collectionName, rt)]
      && GetTeamByKey(a.collection, KeyFor(rt)) == Some(rt)
      && forall key :: key != KeyFor(rt) ==> GetTeamByKey(a.collection, key) == GetTeamByKey(c, key)
  {
    var e := Entry(KeyFor(rt), rt);
    AddOne(c, rt);
    LookupAppend(c.entries, e, e.key);
    forall key | key != e.key
      ensures Lookup(c.entries + [e], key) == Lookup(c.entries, key)
    {
      LookupAppend(c.entries, e, key);
    }
  }

  /** Looking a key up after appending an entry: the earlier entries answer
      first, and the new entry answers only for its own key. */
  lemma {:induction false} LookupAppend(entries: seq<Entry<string>>, e: Entry<string>, key: string)
    ensures Lookup(entries + [e], key)
         == if key in KeysOf(entries) then Lookup(entries, key) else if key == e.key then Some(e.team) else None
  {
    var es := entries + [e];
    if |entries| == 0 {
      assert es == [e];
    } else {
      assert es[0] == entries[0];
      assert es[1..] == entries[1..] + [e];
      assert KeysOf(entries) == [entries[0].key] + KeysOf(entries[1..]);
      LookupAppend(entries[1..], e, key);
    }
  }

  /** Adding a team whose key is taken throws InvalidOperationException and
      changes nothing. */
  lemma AddDuplicateRejected(c: ResearchTeamCollection, rt: ResearchTeam)
    requires KeyFor(rt) in KeysOf(c.entries)
    ensures AddResearchTeams(c, [rt]) == AddOutcome(c, [], Some(InvalidOperationException))
  {
  }

  /** In a collection keyed by its own teams, Remove(rt) succeeds exactly
      when `rt`'s key is stored, and afterwards GetTeamByKey finds nothing
      under that key. */
  lemma RemoveByKey(c: ResearchTeamCollection, rt: ResearchTeam)
    requires Valid(c) && KeyedByOwnTeam(c)
    ensures Remove(c, rt).done <==> KeyFor(rt) in KeysOf(c.entries)
    ensures GetTeamByKey(Remove(c, rt).collection, KeyFor(rt)) == None
  {
    StoredKeyMeansEqualTeam(c, rt);
    if Remove(c, rt).done {
      var i := FirstEqual(c.entries, rt).value;
      KeyOfMatchesSameTeam(c.entries[i].team, rt);
      DeleteLookup(c, i, KeyFor(rt));
    }
  }

  /** Remove(rt) leaves every key other than `rt`'s answering as before. */
  lemma RemoveKeepsOtherKeys(c: ResearchTeamCollection, rt: ResearchTeam, key: string)
    requires Valid(c) && KeyedByOwnTeam(c)
    requires key != KeyFor(rt)
    ensures GetTeamByKey(Remove(c, rt).collection, key) == GetTeamByKey(c, key)
  {
    var r := Remove(c, rt);
    if r.done {
      var i :| 0 <= i < |c.entries| && SameTeam(c.entries[i].team, rt)
               && r.collection == c.(entries := c.entries[..i] + c.entries[i + 1..]);
      KeyOfMatchesSameTeam(c.entries[i].team, rt);
      DeleteLookup(c, i, key);
    }
  }

  /** GetTeamByKey after deleting entry `i` of a collection with distinct
      keys: nothing under that entry's key, the rest as before. */
  lemma DeleteLookup(c: ResearchTeamCollection, i: nat, key: string)
    requires Valid(c) && i < |c.entries|
    ensures var d := c.(entries := c.entries[..i] + c.entries[i + 1..]);
      GetTeamByKey(d, key) == (if key == c.entries[i].key then None else GetTeamByKey(c, key))
  {
    var es := c.entries;
    var rest := es[..i] + es[i + 1..];
    var d := c.(entries := rest);
    assert Valid(d) by {
      assert forall j :: 0 <= j < |rest| ==> rest[j] == es[if j < i then j else j + 1];
    }
    InKeys(es, key);
    InKeys(rest, key);
    var before := GetTeamByKey(c, key);
    if key != es[i].key && before.Some? {
      var j :| 0 <= j < |es| && es[j] == Entry(key, before.value);
      DeleteAt(es, i, es[j]);
      GetTeamByKeyIsStored(d, key, before.value);
    } else {
      forall j | 0 <= j < |rest|
        ensures rest[j].key != key
      {
        DeleteAt(es, i, rest[j]);
      }
    }
  }

  /** Remove undoes a successful single Add: the collection is back to what
      it was, and the two calls raised an Added and a Remove event. */
  lemma RemoveUndoesAdd(c: ResearchTeamCollection, rt: ResearchTeam)
    requires Valid(c) && KeyedByOwnTeam(c)
    requires KeyFor(rt) !in KeysOf(c.entries)
    ensures var a := AddResearchTeams(c, [rt]);
      && a.error.None?
      && Remove(a.collection, rt)
         == Mutation(c, true, [ChangeEvent(c.collectionName, Revision.Remove, "", rt.base.registrationNumber)])
  {
    StoredKeyMeansEqualTeam(c, rt);
    var es := c.entries + [Entry(KeyFor(rt), rt)];
    AddOne(c, rt);
    FirstEqualAtEnd(c.entries, Entry(KeyFor(rt), rt), rt);
    assert es[..|c.entries|] + es[|c.entries| + 1..] == c.entries;
  }

  /** A single insertion under a free key, unfolded. */
  lemma AddOne(c: ResearchTeamCollection, rt: ResearchTeam)
    requires KeyFor(rt) !in KeysOf(c.entries)
    ensures AddResearchTeams(c, [rt])
         == AddOutcome(c.(entries := c.entries + [Entry(KeyFor(rt), rt)]), [AddedEvent(c.collectionName, rt)], None)
  {
    assert [rt][1..] == [];
  }

  lemma FirstEqualAtEnd(es: seq<Entry<string>>, e: Entry<string>, rt: ResearchTeam)
    requires forall j :: 0 <= j < |es| ==> !SameTeam(es[j].team, rt)
    requires SameTeam(e.team, rt)
    ensures FirstEqual(es + [e], rt) == Some(|es|)
  {
    var t := es + [e];
    assert t[|es|] == e;
    assert forall j :: 0 <= j < |es| ==> t[j] == es[j];
  }

  /** The keys of the three default teams. */
  lemma DefaultKeys()
    ensures KeyFor(DefaultTeams()[0]) == "Org1_1"
    ensures KeyFor(DefaultTeams()[1]) == "Org2_2"
    ensures KeyFor(DefaultTeams()[2]) == "Org3_3"
  {
    assert NatToString(1) == "1" && NatToString(2) == "2" && NatToString(3) == "3";
  }

  /** The three default teams have pairwise different keys. */
  lemma DefaultKeysDistinct()
    ensures var d := DefaultTeams();
      forall i, j :: 0 <= i < j < |d| ==> KeyFor(d[i]) != KeyFor(d[j])
  {
    DefaultKeys();
    assert |DefaultTeams()| == 3;
  }

  /** Replace keeps the old key: after replacing the team Org1/1 by the
      team Org3/3, the key "Org1_1" holds a team whose own key is "Org3_3",
      nothing is stored under "Org3_3", and adding the Org3/3 team again
      succeeds, so two entries then hold equal teams. */
  lemma ReplaceKeepsOldKey()
    ensures var d := DefaultTeams();
      var c := AddResearchTeams(NewCollection("Collection1"), [d[0]]).collection;
      var r := Replace(c, d[0], d[2]);
      && r.done
      && GetTeamByKey(r.collection, "Org1_1") == Some(d[2])
      && KeyFor(d[2]) == "Org3_3"
      && !KeyedByOwnTeam(r.collection)
      && GetTeamByKey(r.collection, "Org3_3") == None
      && var again := AddResearchTeams(r.collection, [d[2]]);
         && again.error.None?
         && SameTeam(again.collection.entries[0].team, again.collection.entries[1].team)
  {
    var d := DefaultTeams();
    DefaultKeys();
    var c := AddResearchTeams(NewCollection("Collection1"), [d[0]]).collection;
    assert c.entries == [Entry("Org1_1", d[0])];
    var r := Replace(c, d[0], d[2]);
    assert r.collection.entries == [Entry("Org1_1", d[2])];
    assert KeysOf(r.collection.entries) == ["Org1_1"];
    assert AddResearchTeams(r.collection, [d[2]]).collection.entries == [Entry("Org1_1", d[2]), Entry("Org3_3", d[2])];
  }

  /** Teams with pairwise different keys all go into a new collection, in
      order, without an exception. */
  lemma AddDistinctKeysToEmpty(name: string, teams: seq<ResearchTeam>)
    requires forall i, j :: 0 <= i < j < |teams| ==> KeyFor(teams[i]) != KeyFor(teams[j])
    ensures var r := AddResearchTeams(NewCollection(name), teams);
      && r.error.None?
      && |r.collection.entries| == |teams|
      && (forall i :: 0 <= i < |teams| ==> r.collection.entries[i] == Entry(KeyFor(teams[i]), teams[i]))
      && |r.events| == |teams|
  {
    var c := NewCollection(name);
    assert c.entries == [];
    InsertDistinctIntoEmpty(teams, KeyFor);
    var ins := InsertAll([], teams, KeyFor);
    var r := AddResearchTeams(c, teams);
    assert r.collection.entries == ins.entries;
    assert r.error.None?;
  }

  /** AddDefaults on a new collection stores the three default teams under
      "Org1_1", "Org2_2" and "Org3_3", in that order, without an exception. */
  lemma AddDefaultsToEmpty(name: string)
    ensures var r := AddDefaults(NewCollection(name));
      && r.error.None?
      && KeysOf(r.collection.entries) == ["Org1_1", "Org2_2", "Org3_3"]
  {
    var d := DefaultTeams();
    DefaultKeysDistinct();
    AddDistinctKeysToEmpty(name, d);
    DefaultKeys();
    var es := AddDefaults(NewCollection(name)).collection.entries;
    assert es[0].key == "Org1_1" && es[1].key == "Org2_2" && es[2].key == "Org3_3";
    var ks := KeysOf(es);
    assert ks == [ks[0], ks[1], ks[2]];
  }

  /** AddDefaults on a new collection raises three "ResearchTeam added"
      events, with registration numbers 1, 2 and 3. */
  lemma AddDefaultsEvents(name: string)
    ensures var r := AddDefaults(NewCollection(name));
      && |r.events| == 3
      && r.events[0] == ChangeEvent(name, Property, "ResearchTeam added", 1)
      && r.events[1] == ChangeEvent(name, Property, "ResearchTeam added", 2)
      && r.events[2] == ChangeEvent(name, Property, "ResearchTeam added", 3)
  {
    DefaultKeysDistinct();
    AddDistinctKeysToEmpty(name, DefaultTeams());
  }

  /** LastPublicationDate of the lab-4 collection. */
  function LastPublicationDate(c: ResearchTeamCollection): nat
  {
    Queries.LastPublicationDate(c.entries)
  }

  /** TimeFrameGroup(value) of the lab-4 collection. */
  function TimeFrameGroup(c: ResearchTeamCollection, v: TimeFrame): seq<Entry<string>>
  {
    Queries.TimeFrameGroup(c.entries, v)
  }

  /** TimeFrameGroup() of the lab-4 collection. */
  function TimeFrameGroups(c: ResearchTeamCollection): seq<Group<string>>
  {
    Queries.TimeFrameGroups(c.entries)
  }
}
