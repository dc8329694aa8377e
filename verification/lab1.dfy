/** The lab-1 ResearchTeam: no validation, no members, and the papers kept
    in an array that AddPapers grows with Array.Resize. */
module Lab1 {
  import opened Wrappers
  import opened Values
  import Publications
  import Teams

  datatype Lab1Team = Lab1Team(
    researchTopic: string,
    organization: string,
    registrationNumber: int,
    timeFrame: TimeFrame,
    papers: seq<Paper>)

  /** The four-argument constructor: fields as given, no papers, no checks. */
  function NewTeam(topic: string, org: string, regNumber: int, tf: TimeFrame): (r: Lab1Team)
    ensures r.papers == []
    ensures r.registrationNumber == regNumber && r.organization == org
    ensures r.researchTopic == topic && r.timeFrame == tf
  {
    Lab1Team(topic, org, regNumber, tf, [])
  }

  /** The parameterless constructor. */
  function DefaultTeam(): Lab1Team
  {
    Lab1Team("DefaultTopic", "DefaultOrganization", 0, Year, [])
  }

  /** The indexer `this[tf]`. */
  predicate HasTimeFrame(t: Lab1Team, tf: TimeFrame)
  {
    t.timeFrame == tf
  }

  /** The default team has number 0, is classified as Year only, and has no
      latest paper because it has no papers. */
  lemma DefaultTeamState()
    ensures DefaultTeam().registrationNumber == 0
    ensures DefaultTeam().papers == []
    ensures DefaultTeam().researchTopic == "DefaultTopic"
    ensures DefaultTeam().organization == "DefaultOrganization"
    ensures HasTimeFrame(DefaultTeam(), Year)
    ensures !HasTimeFrame(DefaultTeam(), TwoYears) && !HasTimeFrame(DefaultTeam(), Long)
  {
  }

  /** Exactly one of the three time frames makes the indexer true. */
  lemma ExactlyOneTimeFrame(t: Lab1Team)
    ensures (if HasTimeFrame(t, Year) then 1 else 0)
          + (if HasTimeFrame(t, TwoYears) then 1 else 0)
          + (if HasTimeFrame(t, Long) then 1 else 0) == 1
  {
  }

  /** The lab-1 RegistrationNumber setter stores any integer. */
  function SetRegistrationNumber(t: Lab1Team, value: int): (r: Lab1Team)
    ensures r.registrationNumber == value
    ensures r.(registrationNumber := t.registrationNumber) == t
  {
    t.(registrationNumber := value)
  }

  /** A number at or below zero that lab 1 stores is rejected from lab 2 on. */
  lemma ValidationAddedAfterLab1(t: Lab1Team, value: int)
    requires value <= 0
    ensures SetRegistrationNumber(t, value).registrationNumber == value
    ensures Teams.SetRegistrationNumber(Teams.Team(t.organization, t.registrationNumber), value).Failure?
  {
  }

  /** AddPapers: Array.Resize copies the old papers into an array of the new
      length, then the loop writes the new papers after them. The old prefix
      is kept, the arguments follow in order, and no arguments change nothing. */
  method AddPapers(t: Lab1Team, newPapers: seq<Paper>) returns (r: Lab1Team)
    ensures |r.papers| == |t.papers| + |newPapers|
    ensures r.papers[..|t.papers|] == t.papers
    ensures r.papers[|t.papers|..] == newPapers
    ensures r.(papers := t.papers) == t
  {
    var oldLength := |t.papers|;
    var papers := new Paper[oldLength + |newPapers|];
    for i := 0 to oldLength
      invariant papers[..i] == t.papers[..i]
    {
      papers[i] := t.papers[i];
    }
    for i := 0 to |newPapers|
      invariant papers[..oldLength] == t.papers
      invariant papers[oldLength..oldLength + i] == newPapers[..i]
    {
      papers[oldLength + i] := newPapers[i];
    }
    assert papers[oldLength..] == papers[oldLength..oldLength + |newPapers|];
    assert papers[..][..oldLength] == papers[..oldLength];
    assert papers[..][oldLength..] == papers[oldLength..];
    r := t.(papers := papers[..]);
  }

  /** LatestPaper: null without papers, otherwise the first paper with the
      latest date. */
  method LatestPaper(t: Lab1Team) returns (latest: Option<Paper>)
    ensures latest.None? <==> |t.papers| == 0
    ensures latest.Some? ==> exists k :: Publications.IsFirstLatest(t.papers, k) && t.papers[k] == latest.value
  {
    latest := Publications.LatestPublication(t.papers);
  }
}
