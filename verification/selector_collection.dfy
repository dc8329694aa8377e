/** The lab-3 ResearchTeamCollection: a dictionary keyed by a selector the
    caller supplies at construction. Dictionary.Add throws on a key already
    present, and teams inserted earlier in the same call stay inserted. */
module SelectorCollection {
  import opened Wrappers
  import opened Values
  import opened Teams
  import opened Queries

  datatype Collection<K> = Collection(entries: seq<Entry<K>>, keySelector: ResearchTeam -> K)

  /** The collection after an insertion call, and the exception that ended
      it early, if any. */
  datatype AddResult<K> = AddResult(collection: Collection<K>, error: Option<Error>)

  /** AddResearchTeams: inserts the teams in order, each under
      keySelector(team). The first team whose key is already present (stored
      before the call or earlier in it) makes Dictionary.Add throw; the
      teams before it stay inserted and the ones after it are not reached. */
  function AddResearchTeams<K(==)>(c: Collection<K>, teams: seq<ResearchTeam>): (r: AddResult<K>)
    ensures r.collection.keySelector == c.keySelector
    ensures DistinctKeys(c.entries) ==> DistinctKeys(r.collection.entries)
    ensures var n := |r.collection.entries| - |c.entries|;
      && 0 <= n <= |teams|
      && AppendedUnder(r.collection.entries, c.entries, teams[..n], c.keySelector)
      && (r.error.None? <==> n == |teams|)
      && (r.error.Some? ==> r.error.value == ArgumentException
                            && c.keySelector(teams[n]) in KeysOf(r.collection.entries))
  {
    var ins := InsertAll(c.entries, teams, c.keySelector);
    AddResult(c.(entries := ins.entries), if ins.clash then Some(ArgumentException) else None)
  }

  /** AddDefaults: the three default teams, through AddResearchTeams. */
  function AddDefaults<K(==)>(c: Collection<K>): AddResult<K>
  {
    AddResearchTeams(c, DefaultTeams())
  }

  /** The selector the program uses: the organization. */
  function Organization(rt: ResearchTeam): string
  {
    rt.base.organization
  }

  /** AddDefaults on an empty collection keyed by organization stores
      exactly the three teams, under Org1, Org2 and Org3, with time frames
      Year, TwoYears and Long, and throws nothing. */
  lemma AddDefaultsToEmpty()
    ensures var r := AddDefaults(Collection([], Organization));
      && r.error.None?
      && KeysOf(r.collection.entries) == ["Org1", "Org2", "Org3"]
      && |r.collection.entries| == 3
      && r.collection.entries[0].team.timeFrame == Year
      && r.collection.entries[1].team.timeFrame == TwoYears
      && r.collection.entries[2].team.timeFrame == Long
  {
    var d := DefaultTeams();
    var c0 := Collection([], Organization);
    var c1 := c0.(entries := [Entry("Org1", d[0])]);
    var c2 := c1.(entries := c1.entries + [Entry("Org2", d[1])]);
    var c3 := c2.(entries := c2.entries + [Entry("Org3", d[2])]);
    assert d[1..][1..][1..] == [];
    assert AddResearchTeams(c3, d[1..][1..][1..]) == AddResult(c3, None);
    assert "Org3" !in KeysOf(c2.entries);
    assert AddResearchTeams(c2, d[1..][1..]) == AddResult(c3, None);
    assert "Org2" !in KeysOf(c1.entries);
    assert AddResearchTeams(c1, d[1..]) == AddResult(c3, None);
    assert AddResearchTeams(c0, d) == AddResult(c3, None);
  }

  /** LastPublicationDate of the lab-3 collection. */
  function LastPublicationDate<K>(c: Collection<K>): nat
  {
    Queries.LastPublicationDate(c.entries)
  }

  /** TimeFrameGroup(value) of the lab-3 collection. */
  function TimeFrameGroup<K(==,!new)>(c: Collection<K>, v: TimeFrame): seq<Entry<K>>
  {
    Queries.TimeFrameGroup(c.entries, v)
  }

  /** TimeFrameGroup() of the lab-3 collection. */
  function TimeFrameGroups<K(==,!new)>(c: Collection<K>): seq<Group<K>>
  {
    Queries.TimeFrameGroups(c.entries)
  }
}
