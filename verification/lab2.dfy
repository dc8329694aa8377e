/** Where lab 2 differs from labs 3 and 4: Person.DeepCopy keeps only the
    name, AddMembers and AddPapers store the arguments themselves, and
    MembersWithMultiplePublications counts into a dictionary by hand. */
module Lab2 {
  import opened Wrappers
  import opened Values
  import opened Teams
  import opened Publications

  /** Lab-2 Person.DeepCopy: a new person with the name only. */
  function CopyPersonNameOnly(p: Person): (r: Person)
    ensures SamePerson(r, p)
    ensures r.lastName == None
  {
    Person(p.name, None)
  }

  /** The copy is indistinguishable from the original exactly when the
      original had no last name. */
  lemma NameOnlyCopyLosesLastName(p: Person)
    ensures CopyPersonNameOnly(p) == p <==> p.lastName.None?
  {
  }

  /** Lab-2 Paper.DeepCopy: title and date kept, the author copied by name. */
  function CopyPaperNameOnly(p: Paper): (r: Paper)
    ensures r.name == p.name && r.date == p.date
    ensures SamePerson(r.author, p.author) && r.author.lastName == None
  {
    Paper(p.name, CopyPersonNameOnly(p.author), p.date)
  }

  /** Lab-2 AddMembers: the arguments themselves are appended in order. */
  function AddMembers(rt: ResearchTeam, newMembers: seq<Person>): (r: ResearchTeam)
    ensures |r.members| == |rt.members| + |newMembers|
    ensures r.members[..|rt.members|] == rt.members && r.members[|rt.members|..] == newMembers
    ensures r.(members := rt.members) == rt
  {
    rt.(members := rt.members + newMembers)
  }

  /** Lab-2 AddPapers: the arguments themselves are appended in order. */
  function AddPapers(rt: ResearchTeam, newPapers: seq<Paper>): (r: ResearchTeam)
    ensures |r.publications| == |rt.publications| + |newPapers|
    ensures r.publications[..|rt.publications|] == rt.publications
    ensures r.publications[|rt.publications|..] == newPapers
    ensures r.(publications := rt.publications) == rt
  {
    rt.(publications := rt.publications + newPapers)
  }

  /** Lab-2 DeepCopy: rebuilt through the validating constructor, with
      name-only copies of every member and paper author. Identity, topic,
      time frame and both counts agree with the original; the last names
      do not survive. */
  function DeepCopy(rt: ResearchTeam): (r: Result<ResearchTeam, Error>)
    ensures r.Success? <==> Valid(rt)
    ensures r.Success? ==>
      && SameTeam(r.value, rt)
      && r.value.researchTopic == rt.researchTopic
      && r.value.timeFrame == rt.timeFrame
      && |r.value.members| == |rt.members|
      && |r.value.publications| == |rt.publications|
    ensures r.Success? ==> forall i :: 0 <= i < |rt.members| ==>
      SamePerson(r.value.members[i], rt.members[i]) && r.value.members[i].lastName == None
    ensures r.Success? ==> forall i :: 0 <= i < |rt.publications| ==>
      var c := r.value.publications[i];
      var p := rt.publications[i];
      c.name == p.name && c.date == p.date && SamePerson(c.author, p.author) && c.author.lastName == None
  {
    match NewResearchTeam(rt.researchTopic, rt.base.organization, rt.base.registrationNumber, rt.timeFrame)
    case Failure(e) => Failure(e)
    case Success(copy) =>
      var members := seq(|rt.members|, i requires 0 <= i < |rt.members| => CopyPersonNameOnly(rt.members[i]));
      var papers := seq(|rt.publications|, i requires 0 <= i < |rt.publications| => CopyPaperNameOnly(rt.publications[i]));
      Success(AddPapers(AddMembers(copy, members), papers))
  }

  /** One more paper: its author joins the first authors when the name is
      new (and then had no count yet), and only that name's count grows. */
  lemma CountStep(papers: seq<Paper>, i: nat)
    requires i < |papers|
    ensures var a := papers[i].author;
      var prev := FirstAuthors(papers[..i]);
      FirstAuthors(papers[..i + 1]) == if HasName(prev, a.name) then prev else prev + [a]
    ensures !HasName(FirstAuthors(papers[..i]), papers[i].author.name)
        ==> CountByAuthor(papers[..i], papers[i].author.name) == 0
    ensures forall n ::
      CountByAuthor(papers[..i + 1], n) == CountByAuthor(papers[..i], n) + (if n == papers[i].author.name then 1 else 0)
  {
    assert papers[..i + 1][..i] == papers[..i];
    assert papers[..i + 1][i] == papers[i];
    FirstAuthorsCover(papers[..i]);
    CountByAuthorPositive(papers[..i], papers[i].author.name);
  }

  /** The counting pass of the lab-2 MembersWithMultiplePublications: a
      dictionary from author to paper count, keyed by Person (so by name),
      whose keys keep the first author object of each name in insertion
      order. */
  method CountAuthors(papers: seq<Paper>) returns (counts: map<string, nat>, order: seq<Person>)
    ensures order == FirstAuthors(papers)
    ensures forall n :: n in counts <==> HasName(order, n)
    ensures forall n :: n in counts ==> counts[n] == CountByAuthor(papers, n)
  {
    counts := map[];
    order := [];
    for i := 0 to |papers|
      invariant order == FirstAuthors(papers[..i])
      invariant forall n :: n in counts <==> HasName(order, n)
      invariant forall n :: n in counts ==> counts[n] == CountByAuthor(papers[..i], n)
    {
      var a := papers[i].author;
      CountStep(papers, i);
      if a.name !in counts {
        counts := counts[a.name := 0];
        order := order + [a];
        assert order[|order| - 1] == a;
        assert forall n :: HasName(order, n) <==> HasName(order[..|order| - 1], n) || n == a.name;
      }
      counts := counts[a.name := counts[a.name] + 1];
    }
    assert papers[..|papers|] == papers;
  }

  /** Lab-2 MembersWithMultiplePublications: counts papers per author, then
      yields the authors counted more than once, in first-occurrence order.
      It agrees with the GroupBy version of labs 3 and 4. */
  method MembersWithMultiplePublications(papers: seq<Paper>) returns (r: seq<Person>)
    ensures r == Publications.MembersWithMultiplePublications(papers)
  {
    var counts, order := CountAuthors(papers);
    r := [];
    for i := 0 to |order|
      invariant r == KeepFrequent(order[..i], papers)
    {
      KeepFrequentStep(order, papers, i);
      assert order[i] in order;
      if counts[order[i].name] > 1 {
        r := r + [order[i]];
      }
    }
    assert order[..|order|] == order;
    FrequentFirstAuthors(papers);
  }

  /** The filtering pass keeps one more author exactly when that author
      counts more than once. */
  lemma KeepFrequentStep(authors: seq<Person>, papers: seq<Paper>, i: nat)
    requires i < |authors|
    ensures KeepFrequent(authors[..i + 1], papers)
      == KeepFrequent(authors[..i], papers) + (if CountByAuthor(papers, authors[i].name) > 1 then [authors[i]] else [])
  {
    assert authors[..i + 1][..i] == authors[..i];
  }

  /** The GroupBy result is the frequent authors among the first authors. */
  lemma FrequentFirstAuthors(papers: seq<Paper>)
    ensures Publications.MembersWithMultiplePublications(papers) == KeepFrequent(FirstAuthors(papers), papers)
  {
  }
}
