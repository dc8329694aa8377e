/** Queries over a team's list of publications, the same in labs 2 to 4
    (and, for the latest paper, in lab 1): the latest publication, the sort
    by date, and the two author-based iterators. */
module Publications {
  import opened Wrappers
  import opened Values
  import opened Sequences

  /** `k` is where LatestPublication settles: a paper with a maximal date,
      and the first such in list order, since later papers replace the
      current one only when strictly later. */
  ghost predicate IsFirstLatest(papers: seq<Paper>, k: int)
  {
    && 0 <= k < |papers|
    && (forall j :: 0 <= j < |papers| ==> papers[j].date <= papers[k].date)
    && (forall j :: 0 <= j < k ==> papers[j].date < papers[k].date)
  }

  /** At most one position is the first latest one, so the choice is determined. */
  lemma FirstLatestIsUnique(papers: seq<Paper>, k1: int, k2: int)
    requires IsFirstLatest(papers, k1) && IsFirstLatest(papers, k2)
    ensures k1 == k2
  {
    assert papers[k2].date <= papers[k1].date;
    assert papers[k1].date <= papers[k2].date;
  }

  /** LatestPublication (LatestPaper in lab 1): null for an empty list,
      otherwise the first paper with the latest date. */
  method LatestPublication(papers: seq<Paper>) returns (latest: Option<Paper>)
    ensures latest.None? <==> |papers| == 0
    ensures latest.Some? ==> exists k :: IsFirstLatest(papers, k) && papers[k] == latest.value
  {
    if |papers| == 0 {
      return None;
    }
    var k := 0;
    for i := 0 to |papers|
      invariant 0 <= k < |papers|
      invariant k == 0 || k < i
      invariant forall j :: 0 <= j < i ==> papers[j].date <= papers[k].date
      invariant forall j :: 0 <= j < k ==> papers[j].date < papers[k].date
    {
      if papers[i].date > papers[k].date {
        k := i;
      }
    }
    assert IsFirstLatest(papers, k);
    latest := Some(papers[k]);
  }

  /** Non-decreasing publication dates, the order Paper.CompareTo defines. */
  ghost predicate SortedByDate(papers: seq<Paper>)
  {
    forall i, j :: 0 <= i < j < |papers| ==> papers[i].date <= papers[j].date
  }

  /** A paper no later than every paper of a sorted list may go in front. */
  lemma PrependSorted(x: Paper, s: seq<Paper>)
    requires SortedByDate(s)
    requires forall y :: y in s ==> x.date <= y.date
    ensures SortedByDate([x] + s)
  {
    var r := [x] + s;
    forall i, j | 0 <= i < j < |r|
      ensures r[i].date <= r[j].date
    {
      assert r[j] == s[j - 1];
      if i > 0 {
        assert r[i] == s[i - 1];
      } else {
        assert s[j - 1] in s;
      }
    }
  }

  /** Inserts one paper into a date-sorted list. */
  function InsertByDate(p: Paper, sorted: seq<Paper>): (r: seq<Paper>)
    requires SortedByDate(sorted)
    ensures SortedByDate(r)
    ensures multiset(r) == multiset(sorted) + multiset{p}
    ensures forall x :: x in r ==> x == p || x in sorted
  {
    if |sorted| == 0 then [p]
    else if p.date <= sorted[0].date then
      PrependSorted(p, sorted);
      [p] + sorted
    else
      var rest := InsertByDate(p, sorted[1..]);
      assert sorted == [sorted[0]] + sorted[1..];
      assert forall y :: y in sorted[1..] ==> sorted[0].date <= y.date;
      PrependSorted(sorted[0], rest);
      [sorted[0]] + rest
  }

  /** The list List.Sort() leaves behind: a permutation in date order.
      List.Sort is unstable, so only sortedness and the permutation are
      promised; the order among equal dates is this model's own. */
  function SortByDate(papers: seq<Paper>): (r: seq<Paper>)
    ensures SortedByDate(r)
    ensures multiset(r) == multiset(papers)
  {
    if |papers| == 0 then []
    else
      assert papers == [papers[0]] + papers[1..];
      InsertByDate(papers[0], SortByDate(papers[1..]))
  }

  /** The number of papers whose author has the given name; authors are
      grouped by Person.Equals, that is, by name. */
  function CountByAuthor(papers: seq<Paper>, name: string): nat
  {
    if |papers| == 0 then 0
    else
      CountByAuthor(papers[..|papers| - 1], name)
        + (if papers[|papers| - 1].author.name == name then 1 else 0)
  }

  /** A name has a positive count exactly when some paper's author carries it. */
  lemma {:induction false} CountByAuthorPositive(papers: seq<Paper>, name: string)
    ensures CountByAuthor(papers, name) > 0
        <==> exists k :: 0 <= k < |papers| && papers[k].author.name == name
  {
    if |papers| > 0 {
      var prefix := papers[..|papers| - 1];
      CountByAuthorPositive(prefix, name);
      if CountByAuthor(prefix, name) > 0 {
        var k :| 0 <= k < |prefix| && prefix[k].author.name == name;
        assert papers[k].author.name == name;
      }
      if exists k :: 0 <= k < |papers| && papers[k].author.name == name {
        var k :| 0 <= k < |papers| && papers[k].author.name == name;
        if k < |prefix| {
          assert prefix[k].author.name == name;
        }
      }
    }
  }

  /** Whether the member authored some paper, comparing with Person's `==`. */
  predicate HasPublication(papers: seq<Paper>, m: Person)
  {
    CountByAuthor(papers, m.name) > 0
  }

  /** GetEnumerator: the members, in member order, who author at least one
      publication. Each such member is yielded as often as it is listed. */
  function MembersWithPublications(members: seq<Person>, papers: seq<Paper>): (r: seq<Person>)
    ensures |r| <= |members|
    ensures forall m :: multiset(r)[m] == if HasPublication(papers, m) then multiset(members)[m] else 0
    ensures IsSubsequence(r, members)
  {
    if |members| == 0 then
      EmptyIsSubsequence(members);
      []
    else
      var m := members[|members| - 1];
      var prefix := members[..|members| - 1];
      assert members == prefix + [m];
      var prev := MembersWithPublications(prefix, papers);
      SubsequenceSnoc(prev, prefix, m, HasPublication(papers, m));
      prev + (if HasPublication(papers, m) then [m] else [])
  }

  predicate HasName(people: seq<Person>, name: string)
  {
    exists i | 0 <= i < |people| :: people[i].name == name
  }

  ghost predicate DistinctNames(people: seq<Person>)
  {
    forall i, j :: 0 <= i < j < |people| ==> people[i].name != people[j].name
  }

  /** Paper k is the first one whose author has that author's name. */
  ghost predicate IsFirstOfName(papers: seq<Paper>, k: int)
  {
    0 <= k < |papers| && forall j :: 0 <= j < k ==> papers[j].author.name != papers[k].author.name
  }

  /** `p` is the author of the first paper carrying its name. */
  ghost predicate IsFirstAuthor(papers: seq<Paper>, p: Person)
  {
    exists k :: IsFirstOfName(papers, k) && papers[k].author == p
  }

  /** The authors as GroupBy (and the lab-2 dictionary) keep them: one per
      name, the first author object seen with that name, in order of first
      appearance. */
  function FirstAuthors(papers: seq<Paper>): seq<Person>
  {
    if |papers| == 0 then []
    else
      var prev := FirstAuthors(papers[..|papers| - 1]);
      var a := papers[|papers| - 1].author;
      if HasName(prev, a.name) then prev else prev + [a]
  }

  /** Every author's name is represented among the first authors. */
  lemma {:induction false} FirstAuthorsCover(papers: seq<Paper>)
    ensures forall k :: 0 <= k < |papers| ==> HasName(FirstAuthors(papers), papers[k].author.name)
  {
    if |papers| > 0 {
      var prefix := papers[..|papers| - 1];
      var prev := FirstAuthors(prefix);
      var a := papers[|papers| - 1].author;
      var r := FirstAuthors(papers);
      FirstAuthorsCover(prefix);
      forall k | 0 <= k < |papers|
        ensures HasName(r, papers[k].author.name)
      {
        if k < |prefix| {
          assert papers[k] == prefix[k];
          assert HasName(prev, prefix[k].author.name);
          var i :| 0 <= i < |prev| && prev[i].name == prefix[k].author.name;
          assert r[i] == prev[i];
        } else if !HasName(prev, a.name) {
          assert r[|prev|] == a;
        }
      }
    }
  }

  /** No name is represented twice among the first authors. */
  lemma {:induction false} FirstAuthorsDistinct(papers: seq<Paper>)
    ensures DistinctNames(FirstAuthors(papers))
  {
    if |papers| > 0 {
      var prefix := papers[..|papers| - 1];
      var prev := FirstAuthors(prefix);
      var a := papers[|papers| - 1].author;
      var r := FirstAuthors(papers);
      FirstAuthorsDistinct(prefix);
      if !HasName(prev, a.name) {
        forall i, j | 0 <= i < j < |r|
          ensures r[i].name != r[j].name
        {
          assert r[i] == prev[i];
          if j < |prev| {
            assert r[j] == prev[j];
          }
        }
      }
    }
  }

  /** Each first author is the author of the first paper carrying its name. */
  lemma FirstAuthorsAreFirst(papers: seq<Paper>)
    ensures forall i :: 0 <= i < |FirstAuthors(papers)| ==>
      IsFirstAuthor(papers, FirstAuthors(papers)[i])
  {
    forall i | 0 <= i < |FirstAuthors(papers)|
      ensures IsFirstAuthor(papers, FirstAuthors(papers)[i])
    {
      FirstAuthorIsFirst(papers, i);
    }
  }

  lemma {:induction false} FirstAuthorIsFirst(papers: seq<Paper>, i: nat)
    requires i < |FirstAuthors(papers)|
    ensures IsFirstAuthor(papers, FirstAuthors(papers)[i])
  {
    var prefix := papers[..|papers| - 1];
    var prev := FirstAuthors(prefix);
    var r := FirstAuthors(papers);
    if i < |prev| {
      FirstAuthorIsFirst(prefix, i);
      var k :| IsFirstOfName(prefix, k) && prefix[k].author == prev[i];
      FirstOfNameInPrefix(papers, k);
      assert papers[k] == prefix[k];
      assert r[i] == prev[i];
    } else {
      NewNameIsFirst(papers);
      assert r[i] == papers[|papers| - 1].author;
    }
  }

  /** The first paper of a name stays the first when a paper is appended. */
  lemma FirstOfNameInPrefix(papers: seq<Paper>, k: int)
    requires |papers| > 0 && IsFirstOfName(papers[..|papers| - 1], k)
    ensures IsFirstOfName(papers, k)
  {
    var prefix := papers[..|papers| - 1];
    assert forall j :: 0 <= j <= k ==> papers[j] == prefix[j];
  }

  /** A paper whose author's name no earlier first author carries is the
      first paper of that name. */
  lemma NewNameIsFirst(papers: seq<Paper>)
    requires |papers| > 0
    requires !HasName(FirstAuthors(papers[..|papers| - 1]), papers[|papers| - 1].author.name)
    ensures IsFirstOfName(papers, |papers| - 1)
  {
    var prefix := papers[..|papers| - 1];
    FirstAuthorsCover(prefix);
    forall j | 0 <= j < |prefix|
      ensures papers[j].author.name != papers[|papers| - 1].author.name
    {
      assert papers[j] == prefix[j];
    }
  }

  /** The authors of `authors` with more than one publication, in order. */
  function KeepFrequent(authors: seq<Person>, papers: seq<Paper>): (r: seq<Person>)
    ensures forall x :: x in r <==> x in authors && CountByAuthor(papers, x.name) > 1
    ensures DistinctNames(authors) ==> DistinctNames(r)
    ensures IsSubsequence(r, authors)
  {
    if |authors| == 0 then
      EmptyIsSubsequence(authors);
      []
    else
      var prefix := authors[..|authors| - 1];
      var a := authors[|authors| - 1];
      assert authors == prefix + [a];
      var prev := KeepFrequent(prefix, papers);
      assert DistinctNames(authors) ==> forall x :: x in prefix ==> x.name != a.name;
      var keep := CountByAuthor(papers, a.name) > 1;
      SubsequenceSnoc(prev, prefix, a, keep);
      if keep then
        DistinctSnoc(prev, a);
        prev + [a]
      else
        assert prev + [] == prev;
        prev
  }

  /** Appending a person whose name is new keeps the names distinct. */
  lemma DistinctSnoc(people: seq<Person>, a: Person)
    ensures DistinctNames(people) && (forall x :: x in people ==> x.name != a.name)
            ==> DistinctNames(people + [a])
  {
    if DistinctNames(people) && (forall x :: x in people ==> x.name != a.name) {
      var s := people + [a];
      forall i, j | 0 <= i < j < |s| ensures s[i].name != s[j].name {
        if j == |people| { assert s[i] in people; }
      }
    }
  }

  /** MembersWithMultiplePublications: each author with more than one
      publication, exactly once, as the GroupBy on Author keeps it. */
  function MembersWithMultiplePublications(papers: seq<Paper>): (r: seq<Person>)
    ensures DistinctNames(r)
    ensures forall i :: 0 <= i < |r| ==> CountByAuthor(papers, r[i].name) > 1
    ensures forall i :: 0 <= i < |r| ==> IsFirstAuthor(papers, r[i])
    ensures forall k :: 0 <= k < |papers| && CountByAuthor(papers, papers[k].author.name) > 1
                    ==> HasName(r, papers[k].author.name)
  {
    var authors := FirstAuthors(papers);
    FirstAuthorsDistinct(papers);
    FirstAuthorsAreFirst(papers);
    FirstAuthorsCover(papers);
    var r := KeepFrequent(authors, papers);
    MultipleAuthorsFromFirst(papers, authors, r);
    r
  }

  lemma MultipleAuthorsFromFirst(papers: seq<Paper>, authors: seq<Person>, r: seq<Person>)
    requires forall i :: 0 <= i < |authors| ==> IsFirstAuthor(papers, authors[i])
    requires forall k :: 0 <= k < |papers| ==> HasName(authors, papers[k].author.name)
    requires forall x :: x in r <==> x in authors && CountByAuthor(papers, x.name) > 1
    ensures forall i :: 0 <= i < |r| ==> IsFirstAuthor(papers, r[i])
    ensures forall k :: 0 <= k < |papers| && CountByAuthor(papers, papers[k].author.name) > 1
                    ==> HasName(r, papers[k].author.name)
  {
    forall i | 0 <= i < |r|
      ensures IsFirstAuthor(papers, r[i])
    {
      assert r[i] in authors;
      var j :| 0 <= j < |authors| && authors[j] == r[i];
    }
    forall k | 0 <= k < |papers| && CountByAuthor(papers, papers[k].author.name) > 1
      ensures HasName(r, papers[k].author.name)
    {
      var i :| 0 <= i < |authors| && authors[i].name == papers[k].author.name;
      assert authors[i] in r;
      var j :| 0 <= j < |r| && r[j] == authors[i];
    }
  }
}
