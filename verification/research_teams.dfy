/** ResearchTeam operations of labs 3 and 4, where adding and copying go
    through DeepCopy, plus the lab-4 setters that raise PropertyChanged. */
module ResearchTeams {
  import opened Wrappers
  import opened Values
  import opened Teams
  import opened Publications

  /** AddMembers: appends a deep copy of each argument, in argument order.
      The copies equal the arguments, so the list grows by exactly them. */
  function AddMembers(rt: ResearchTeam, newMembers: seq<Person>): (r: ResearchTeam)
    ensures r.members == rt.members + newMembers
    ensures r.(members := rt.members) == rt
  {
    rt.(members := rt.members + seq(|newMembers|, i requires 0 <= i < |newMembers| => CopyPerson(newMembers[i])))
  }

  /** AddPapers: appends a deep copy of each argument, in argument order. */
  function AddPapers(rt: ResearchTeam, newPapers: seq<Paper>): (r: ResearchTeam)
    ensures r.publications == rt.publications + newPapers
    ensures r.(publications := rt.publications) == rt
  {
    rt.(publications := rt.publications + seq(|newPapers|, i requires 0 <= i < |newPapers| => CopyPaper(newPapers[i])))
  }

  /** DeepCopy: a team rebuilt through the validating constructor, then
      given copies of every member and publication. Every constructed team
      has a positive number, so the copy succeeds and equals the original;
      as the model has no shared references, later additions to the
      original cannot reach it. */
  function DeepCopy(rt: ResearchTeam): (r: Result<ResearchTeam, Error>)
    ensures r.Success? <==> Valid(rt)
    ensures r.Success? ==> r.value == rt
  {
    match NewResearchTeam(rt.researchTopic, rt.base.organization, rt.base.registrationNumber, rt.timeFrame)
    case Failure(e) => Failure(e)
    case Success(copy) => Success(AddPapers(AddMembers(copy, rt.members), rt.publications))
  }

  /** SortPublicationsByDate: the publications are permuted into date order
      and nothing else about the team changes. */
  function SortPublicationsByDate(rt: ResearchTeam): (r: ResearchTeam)
    ensures SortedByDate(r.publications)
    ensures multiset(r.publications) == multiset(rt.publications)
    ensures r.(publications := rt.publications) == rt
  {
    rt.(publications := SortByDate(rt.publications))
  }

  /** A setter that may raise PropertyChanged: the team afterwards and the
      property names announced, in order. */
  datatype Notified = Notified(team: ResearchTeam, raised: seq<string>)

  /** The lab-4 ResearchTopic setter: stores and announces only a different value. */
  function SetResearchTopic(rt: ResearchTeam, value: string): (r: Notified)
    ensures r.team.researchTopic == value
    ensures r.team.(researchTopic := rt.researchTopic) == rt
    ensures r.raised == if rt.researchTopic == value then [] else ["ResearchTopic"]
  {
    if rt.researchTopic != value then Notified(rt.(researchTopic := value), ["ResearchTopic"])
    else Notified(rt, [])
  }

  /** The lab-4 TimeFrame setter: stores and announces only a different value. */
  function SetTimeFrame(rt: ResearchTeam, value: TimeFrame): (r: Notified)
    ensures r.team.timeFrame == value
    ensures r.team.(timeFrame := rt.timeFrame) == rt
    ensures r.raised == if rt.timeFrame == value then [] else ["TimeFrame"]
  {
    if rt.timeFrame != value then Notified(rt.(timeFrame := value), ["TimeFrame"])
    else Notified(rt, [])
  }

  /** Assigning the value a property already holds changes nothing and
      raises nothing, so repeating an assignment is silent. */
  lemma SettersAreIdempotent(rt: ResearchTeam, topic: string, tf: TimeFrame)
    ensures SetResearchTopic(rt, rt.researchTopic) == Notified(rt, [])
    ensures SetTimeFrame(rt, rt.timeFrame) == Notified(rt, [])
    ensures var once := SetResearchTopic(rt, topic).team;
            SetResearchTopic(once, topic) == Notified(once, [])
    ensures var once := SetTimeFrame(rt, tf).team;
            SetTimeFrame(once, tf) == Notified(once, [])
  {
  }

  /** The indexer answers true for exactly one of the three time frames. */
  lemma ExactlyOneTimeFrame(rt: ResearchTeam)
    ensures (if HasTimeFrame(rt, Year) then 1 else 0)
          + (if HasTimeFrame(rt, TwoYears) then 1 else 0)
          + (if HasTimeFrame(rt, Long) then 1 else 0) == 1
  {
  }
}
