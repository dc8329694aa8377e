/** The read-only queries the two keyed collections (labs 3 and 4) share,
    over the collection's entries in iteration order: the latest
    publication date over all teams and the grouping by time frame. */
module Queries {
  import opened Wrappers
  import opened Values
  import opened Teams
  import opened Sequences

  /** One KeyValuePair of the collection's dictionary. */
  datatype Entry<K> = Entry(key: K, team: ResearchTeam)

  function KeysOf<K>(entries: seq<Entry<K>>): (r: seq<K>)
    ensures |r| == |entries|
    ensures forall i :: 0 <= i < |entries| ==> r[i] == entries[i].key
  {
    seq(|entries|, i requires 0 <= i < |entries| => entries[i].key)
  }

  /** The dictionary invariant: no key is stored twice. */
  ghost predicate DistinctKeys<K>(entries: seq<Entry<K>>)
  {
    forall i, j :: 0 <= i < j < |entries| ==> entries[i].key != entries[j].key
  }

  /** `entries` is `base` followed by the teams of `added`, each stored under
      the key `keyOf` gives it. */
  ghost predicate AppendedUnder<K>(entries: seq<Entry<K>>, base: seq<Entry<K>>, added: seq<ResearchTeam>, keyOf: ResearchTeam -> K)
  {
    && |entries| == |base| + |added|
    && entries[..|base|] == base
    && forall i :: 0 <= i < |added| ==> entries[|base| + i] == Entry(keyOf(added[i]), added[i])
  }

  lemma AppendedUnderStep<K>(entries: seq<Entry<K>>, base: seq<Entry<K>>, t: ResearchTeam, added: seq<ResearchTeam>, keyOf: ResearchTeam -> K)
    requires AppendedUnder(entries, base + [Entry(keyOf(t), t)], added, keyOf)
    ensures AppendedUnder(entries, base, [t] + added, keyOf)
  {
    var longer := base + [Entry(keyOf(t), t)];
    assert entries[..|base|] == entries[..|longer|][..|base|];
    forall i | 0 <= i < |added| + 1
      ensures entries[|base| + i] == Entry(keyOf(([t] + added)[i]), ([t] + added)[i])
    {
      if i == 0 {
        assert entries[|base|] == entries[..|longer|][|base|];
      } else {
        assert entries[|base| + i] == entries[|longer| + (i - 1)];
      }
    }
  }

  lemma AddKeepsKeysDistinct<K>(entries: seq<Entry<K>>, e: Entry<K>)
    requires e.key !in KeysOf(entries)
    ensures DistinctKeys(entries) ==> DistinctKeys(entries + [e])
  {
    forall i | 0 <= i < |entries|
      ensures entries[i].key != e.key
    {
      assert KeysOf(entries)[i] == entries[i].key;
    }
  }

  /** The entries after an insertion loop, and whether it stopped at a team
      whose key was already present. */
  datatype Insertion<K> = Insertion(entries: seq<Entry<K>>, clash: bool)

  /** The insertion loop both collections run: each team in turn goes in
      under keyOf(team); the first team whose key is already present (stored
      before the call or earlier in it) stops the loop, and the teams before
      it stay inserted. */
  function InsertAll<K(==)>(entries: seq<Entry<K>>, teams: seq<ResearchTeam>, keyOf: ResearchTeam -> K): (r: Insertion<K>)
    ensures DistinctKeys(entries) ==> DistinctKeys(r.entries)
    ensures var n := |r.entries| - |entries|;
      && 0 <= n <= |teams|
      && AppendedUnder(r.entries, entries, teams[..n], keyOf)
      && (!r.clash <==> n == |teams|)
      && (r.clash ==> keyOf(teams[n]) in KeysOf(r.entries))
    decreases |teams|
  {
    if |teams| == 0 then Insertion(entries, false)
    else
      var key := keyOf(teams[0]);
      if key in KeysOf(entries) then Insertion(entries, true)
      else
        var next := entries + [Entry(key, teams[0])];
        var r := InsertAll(next, teams[1..], keyOf);
        var n := |r.entries| - |next|;
        AddKeepsKeysDistinct(entries, Entry(key, teams[0]));
        assert teams[..n + 1] == [teams[0]] + teams[1..][..n];
        AppendedUnderStep(r.entries, entries, teams[0], teams[1..][..n], keyOf);
        r
  }

  /** Teams with pairwise different keys all go into an empty sequence, in
      order, without a clash. */
  lemma InsertDistinctIntoEmpty<K>(teams: seq<ResearchTeam>, keyOf: ResearchTeam -> K)
    requires forall i, j :: 0 <= i < j < |teams| ==> keyOf(teams[i]) != keyOf(teams[j])
    ensures var r := InsertAll([], teams, keyOf);
      && !r.clash
      && |r.entries| == |teams|
      && (forall i :: 0 <= i < |teams| ==> r.entries[i] == Entry(keyOf(teams[i]), teams[i]))
  {
    var r := InsertAll([], teams, keyOf);
    var n := |r.entries|;
    assert forall k :: 0 <= k < n ==> r.entries[k] == Entry(keyOf(teams[..n][k]), teams[..n][k]);
    if r.clash {
      assert false;
    }
    assert teams[..n] == teams;
  }

  /** SelectMany over the teams' publications, in entry order. */
  function AllPublications<K>(entries: seq<Entry<K>>): (r: seq<Paper>)
    ensures forall i, j :: 0 <= i < |entries| && 0 <= j < |entries[i].team.publications|
                       ==> entries[i].team.publications[j] in r
    ensures forall p :: p in r ==> exists i :: 0 <= i < |entries| && p in entries[i].team.publications
    ensures |r| == 0 <==> forall i :: 0 <= i < |entries| ==> |entries[i].team.publications| == 0
  {
    if |entries| == 0 then []
    else
      var prefix := entries[..|entries| - 1];
      var prev := AllPublications(prefix);
      assert forall i :: 0 <= i < |prefix| ==> prefix[i] == entries[i];
      prev + entries[|entries| - 1].team.publications
  }

  /** The latest date of a non-empty list of papers. */
  function MaxDate(papers: seq<Paper>): (r: nat)
    requires |papers| > 0
    ensures forall p :: p in papers ==> p.date <= r
    ensures exists p :: p in papers && p.date == r
  {
    if |papers| == 1 then papers[0].date
    else
      var prev := MaxDate(papers[..|papers| - 1]);
      var last := papers[|papers| - 1];
      assert papers == papers[..|papers| - 1] + [last];
      if last.date > prev then last.date else prev
  }

  /** LastPublicationDate: default(DateTime) when there are no teams or no
      team has a publication, otherwise the latest date over every
      publication of every team. */
  function LastPublicationDate<K>(entries: seq<Entry<K>>): (r: nat)
    ensures forall i, j :: 0 <= i < |entries| && 0 <= j < |entries[i].team.publications|
                       ==> entries[i].team.publications[j].date <= r
    ensures (forall i :: 0 <= i < |entries| ==> |entries[i].team.publications| == 0) ==> r == 0
    ensures (exists i :: 0 <= i < |entries| && |entries[i].team.publications| > 0)
        ==> exists i, j :: 0 <= i < |entries| && 0 <= j < |entries[i].team.publications|
                       && entries[i].team.publications[j].date == r
  {
    if |entries| == 0 || (forall i | 0 <= i < |entries| :: |entries[i].team.publications| == 0) then 0
    else
      var all := AllPublications(entries);
      var r := MaxDate(all);
      LatestIsSomePublication(entries, r);
      r
  }

  lemma LatestIsSomePublication<K>(entries: seq<Entry<K>>, r: nat)
    requires exists p :: p in AllPublications(entries) && p.date == r
    ensures exists i, j :: 0 <= i < |entries| && 0 <= j < |entries[i].team.publications|
                       && entries[i].team.publications[j].date == r
  {
    var p :| p in AllPublications(entries) && p.date == r;
    var i :| 0 <= i < |entries| && p in entries[i].team.publications;
    var j :| 0 <= j < |entries[i].team.publications| && entries[i].team.publications[j] == p;
  }

  /** TimeFrameGroup(value): the entries whose team has that time frame, in
      entry order. */
  function TimeFrameGroup<K(==,!new)>(entries: seq<Entry<K>>, v: TimeFrame): (r: seq<Entry<K>>)
    ensures forall e :: multiset(r)[e] == if e.team.timeFrame == v then multiset(entries)[e] else 0
    ensures forall e :: e in r <==> e in entries && e.team.timeFrame == v
    ensures IsSubsequence(r, entries)
  {
    if |entries| == 0 then
      EmptyIsSubsequence(entries);
      []
    else
      var last := entries[|entries| - 1];
      var prefix := entries[..|entries| - 1];
      assert entries == prefix + [last];
      var prev := TimeFrameGroup(prefix, v);
      SubsequenceSnoc(prev, prefix, last, last.team.timeFrame == v);
      prev + (if last.team.timeFrame == v then [last] else [])
  }

  /** The time frames that occur, each once, in order of first occurrence. */
  function DistinctTimeFrames<K>(entries: seq<Entry<K>>): (r: seq<TimeFrame>)
    ensures forall i, j :: 0 <= i < j < |r| ==> r[i] != r[j]
    ensures forall tf :: tf in r <==> exists i :: 0 <= i < |entries| && entries[i].team.timeFrame == tf
  {
    if |entries| == 0 then []
    else
      var prefix := entries[..|entries| - 1];
      var prev := DistinctTimeFrames(prefix);
      var tf := entries[|entries| - 1].team.timeFrame;
      assert forall i :: 0 <= i < |prefix| ==> prefix[i] == entries[i];
      if tf in prev then prev else prev + [tf]
  }

  /** One IGrouping: a time frame and its entries. */
  datatype Group<K> = Group(key: TimeFrame, members: seq<Entry<K>>)

  /** TimeFrameGroup(): the GroupBy on time frame. Each group key occurs
      once, each group is exactly the entries of its time frame and is not
      empty, and every entry's time frame has a group. */
  function TimeFrameGroups<K(==,!new)>(entries: seq<Entry<K>>): (r: seq<Group<K>>)
    ensures forall i, j :: 0 <= i < j < |r| ==> r[i].key != r[j].key
    ensures forall i :: 0 <= i < |r| ==> r[i].members == TimeFrameGroup(entries, r[i].key)
    ensures forall i :: 0 <= i < |r| ==> |r[i].members| > 0
    ensures forall e :: e in entries ==> exists i :: 0 <= i < |r| && r[i].key == e.team.timeFrame
  {
    var keys := DistinctTimeFrames(entries);
    var r := seq(|keys|, i requires 0 <= i < |keys| => Group(keys[i], TimeFrameGroup(entries, keys[i])));
    GroupsAreNonEmpty(entries, keys, r);
    GroupsCoverEntries(entries, keys, r);
    r
  }

  lemma GroupsAreNonEmpty<K(!new)>(entries: seq<Entry<K>>, keys: seq<TimeFrame>, r: seq<Group<K>>)
    requires forall tf :: tf in keys ==> exists i :: 0 <= i < |entries| && entries[i].team.timeFrame == tf
    requires |r| == |keys|
    requires forall i :: 0 <= i < |r| ==> r[i].key == keys[i]
    requires forall i :: 0 <= i < |r| ==> forall e :: e in r[i].members <==> e in entries && e.team.timeFrame == keys[i]
    ensures forall i :: 0 <= i < |r| ==> |r[i].members| > 0
  {
    forall i | 0 <= i < |r|
      ensures |r[i].members| > 0
    {
      assert keys[i] in keys;
      var k :| 0 <= k < |entries| && entries[k].team.timeFrame == keys[i];
      assert entries[k] in r[i].members;
    }
  }

  lemma GroupsCoverEntries<K>(entries: seq<Entry<K>>, keys: seq<TimeFrame>, r: seq<Group<K>>)
    requires forall tf :: tf in keys <== exists i :: 0 <= i < |entries| && entries[i].team.timeFrame == tf
    requires |r| == |keys|
    requires forall i :: 0 <= i < |r| ==> r[i].key == keys[i]
    ensures forall e :: e in entries ==> exists i :: 0 <= i < |r| && r[i].key == e.team.timeFrame
  {
    forall e | e in entries
      ensures exists i :: 0 <= i < |r| && r[i].key == e.team.timeFrame
    {
      var k :| 0 <= k < |entries| && entries[k] == e;
      assert e.team.timeFrame in keys;
      var i :| 0 <= i < |keys| && keys[i] == e.team.timeFrame;
      assert r[i].key == e.team.timeFrame;
    }
  }

  /** Every entry lies in some group. */
  lemma EntryHasGroup<K(!new)>(entries: seq<Entry<K>>, e: Entry<K>)
    requires e in entries
    ensures var groups := TimeFrameGroups(entries);
      exists i :: 0 <= i < |groups| && e in groups[i].members
  {
    var groups := TimeFrameGroups(entries);
    var i :| 0 <= i < |groups| && groups[i].key == e.team.timeFrame;
    assert groups[i].members == TimeFrameGroup(entries, e.team.timeFrame);
  }

  /** A group holds only entries, and only those of its own time frame. */
  lemma GroupHoldsOwnTimeFrame<K(!new)>(entries: seq<Entry<K>>, e: Entry<K>, i: nat)
    requires i < |TimeFrameGroups(entries)|
    requires e in TimeFrameGroups(entries)[i].members
    ensures e in entries && TimeFrameGroups(entries)[i].key == e.team.timeFrame
  {
    var g := TimeFrameGroups(entries)[i];
    assert g.members == TimeFrameGroup(entries, g.key);
  }

  /** No entry lies in two groups. */
  lemma EntryInOneGroup<K(!new)>(entries: seq<Entry<K>>, e: Entry<K>, i: nat, j: nat)
    requires i < |TimeFrameGroups(entries)| && j < |TimeFrameGroups(entries)|
    requires e in TimeFrameGroups(entries)[i].members && e in TimeFrameGroups(entries)[j].members
    ensures i == j
  {
    GroupHoldsOwnTimeFrame(entries, e, i);
    GroupHoldsOwnTimeFrame(entries, e, j);
  }

  /** The grouping partitions the entries: each entry lies in exactly one
      group, the one of its time frame, and groups hold nothing else. */
  lemma GroupsPartitionEntries<K(!new)>(entries: seq<Entry<K>>, e: Entry<K>)
    ensures var groups := TimeFrameGroups(entries);
      && (e in entries ==> exists i :: 0 <= i < |groups| && e in groups[i].members)
      && (forall i :: 0 <= i < |groups| && e in groups[i].members ==> e in entries && groups[i].key == e.team.timeFrame)
      && (forall i, j :: 0 <= i < |groups| && 0 <= j < |groups| && e in groups[i].members && e in groups[j].members ==> i == j)
  {
    var groups := TimeFrameGroups(entries);
    if e in entries {
      EntryHasGroup(entries, e);
    }
    forall i | 0 <= i < |groups| && e in groups[i].members
      ensures e in entries && groups[i].key == e.team.timeFrame
    {
      GroupHoldsOwnTimeFrame(entries, e, i);
    }
    forall i, j | 0 <= i < |groups| && 0 <= j < |groups| && e in groups[i].members && e in groups[j].members
      ensures i == j
    {
      EntryInOneGroup(entries, e, i, j);
    }
  }

  /** The three teams AddDefaults inserts, in order. */
  function DefaultTeams(): seq<ResearchTeam>
  {
    [ ResearchTeam(Team("Org1", 1), "ResearchTopic1", Year, [], []),
      ResearchTeam(Team("Org2", 2), "ResearchTopic2", TwoYears, [], []),
      ResearchTeam(Team("Org3", 3), "ResearchTopic3", Long, [], []) ]
  }

  /** The default teams are what the validating constructor builds. */
  lemma DefaultTeamsAreConstructed()
    ensures NewResearchTeam("ResearchTopic1", "Org1", 1, Year) == Success(DefaultTeams()[0])
    ensures NewResearchTeam("ResearchTopic2", "Org2", 2, TwoYears) == Success(DefaultTeams()[1])
    ensures NewResearchTeam("ResearchTopic3", "Org3", 3, Long) == Success(DefaultTeams()[2])
  {
  }
}
