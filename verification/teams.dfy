/** Team and ResearchTeam of labs 2 to 4 (the code is the same in all three):
    the validating registration-number setter, the constructors built on it,
    and Team.Equals with its runtime-type check. */
module Teams {
  import opened Wrappers
  import opened Values

  /** The Team base class: an organization and a registration number. */
  datatype Team = Team(organization: string, registrationNumber: int)

  /** A ResearchTeam: the Team part plus topic, time frame, members and
      publications, in list order. */
  datatype ResearchTeam = ResearchTeam(
    base: Team,
    researchTopic: string,
    timeFrame: TimeFrame,
    members: seq<Person>,
    publications: seq<Paper>)

  /** An object statically typed Team, tagged with its runtime type. */
  datatype TeamObject = PlainTeam(team: Team) | Research(research: ResearchTeam)

  function BaseOf(o: TeamObject): Team
  {
    match o
    case PlainTeam(t) => t
    case Research(rt) => rt.base
  }

  /** Team.Equals: the same runtime type, organization and registration number. */
  predicate TeamEquals(a: TeamObject, b: TeamObject)
  {
    && a.PlainTeam? == b.PlainTeam?
    && BaseOf(a).organization == BaseOf(b).organization
    && BaseOf(a).registrationNumber == BaseOf(b).registrationNumber
  }

  /** Team.Equals between two research teams, the only case the collections meet. */
  predicate SameTeam(a: ResearchTeam, b: ResearchTeam)
  {
    a.base == b.base
  }

  /** Team.Equals is an equivalence, it ignores everything but the runtime
      type and the two identifying fields, and a plain Team never equals a
      ResearchTeam even when both fields agree. */
  lemma TeamEqualsFacts(a: TeamObject, b: TeamObject, c: TeamObject, t: Team, rt: ResearchTeam)
    ensures TeamEquals(a, a)
    ensures TeamEquals(a, b) ==> TeamEquals(b, a)
    ensures TeamEquals(a, b) && TeamEquals(b, c) ==> TeamEquals(a, c)
    ensures TeamEquals(Research(rt), Research(rt.(researchTopic := t.organization)))
    ensures !TeamEquals(PlainTeam(t), Research(rt))
  {
  }

  /** Between research teams, Team.Equals is exactly SameTeam. */
  lemma SameTeamIsTeamEquals(a: ResearchTeam, b: ResearchTeam)
    ensures SameTeam(a, b) <==> TeamEquals(Research(a), Research(b))
  {
  }

  /** The RegistrationNumber setter: values at or below zero throw and leave
      the team as it was (no new team is produced); positive values are stored. */
  function SetRegistrationNumber(t: Team, value: int): (r: Result<Team, Error>)
    ensures r.Success? <==> value > 0
    ensures r.Success? ==> r.value.registrationNumber == value && r.value.organization == t.organization
    ensures r.Failure? ==> r.error == ArgumentException
  {
    if value <= 0 then Failure(ArgumentException)
    else Success(t.(registrationNumber := value))
  }

  /** Team(org, regNumber): assigns the organization, then the number through
      the validating setter. */
  function NewTeam(org: string, regNumber: int): (r: Result<Team, Error>)
    ensures r.Success? <==> regNumber > 0
    ensures r.Success? ==> r.value == Team(org, regNumber)
  {
    SetRegistrationNumber(Team(org, 0), regNumber)
  }

  /** Team(): assigns 0 through the validating setter, so it always throws. */
  function DefaultTeam(): (r: Result<Team, Error>)
    ensures r == Failure(ArgumentException)
  {
    SetRegistrationNumber(Team("", 0), 0)
  }

  /** The state every constructed team is in: its number passed the setter. */
  predicate Valid(rt: ResearchTeam)
  {
    rt.base.registrationNumber > 0
  }

  /** ResearchTeam(topic, org, regNumber, timeFrame): the base constructor
      validates the number, then the lists start empty. */
  function NewResearchTeam(topic: string, org: string, regNumber: int, tf: TimeFrame): (r: Result<ResearchTeam, Error>)
    ensures r.Success? <==> regNumber > 0
    ensures r.Failure? ==> r.error == ArgumentException
    ensures r.Success? ==> Valid(r.value) && r.value == ResearchTeam(Team(org, regNumber), topic, tf, [], [])
  {
    match NewTeam(org, regNumber)
    case Failure(e) => Failure(e)
    case Success(b) => Success(ResearchTeam(b, topic, tf, [], []))
  }

  /** ResearchTeam(): chains to Team(), so it always throws as well. */
  function DefaultResearchTeam(): (r: Result<ResearchTeam, Error>)
    ensures r == Failure(ArgumentException)
  {
    match DefaultTeam()
    case Failure(e) => Failure(e)
    case Success(b) => Success(ResearchTeam(b, "", Year, [], []))
  }

  /** The indexer `this[tf]`. */
  predicate HasTimeFrame(rt: ResearchTeam, tf: TimeFrame)
  {
    rt.timeFrame == tf
  }
}
