# Research-team labs in Dafny

A Dafny model of the in-memory "research team" domain that four C# lab
programs build up step by step:

- **Lab 1**: a `ResearchTeam` with no validation, whose papers sit in an
  array that `AddPapers` grows.
- **Lab 2**: the `Team` base class, with a validating registration-number
  setter and type-aware equality, `Person` and `Paper` with `DeepCopy`, and
  the member and author iterators.
- **Lab 3**: copying `AddMembers`/`AddPapers`, the date sort, and a
  `ResearchTeamCollection<TKey>` keyed by a selector function.
- **Lab 4**: the richest part, a `ResearchTeamCollection<string>` keyed by
  `"<Organization>_<RegistrationNumber>"` that raises `ResearchTeamsChanged`
  on every successful add, remove and replace, and `TeamsJournal` objects
  that subscribe to those events and record them.

Modelling choices:

- Objects are immutable datatypes and operations are pure functions that
  return the new state. A thrown exception is a `Result` failure or an
  `error` field.
- A `DateTime` is a tick count (`nat`), so `default(DateTime)` is 0.
- A dictionary is the sequence of its entries with distinct keys. Its
  enumeration order is taken to be insertion order, and `Remove` deletes in
  place.
- The event's invocation list is a sequence of journal indices, invoked in
  order. A journal subscribed twice is called twice.
- The `Hub` module wires collections and journals together. It is what
  connects a sequence of collection calls to the journals' contents.
- Lab 4's `Main` catches nothing, so an exception thrown by a collection
  call ends the program. `Hub.Run` therefore stops at the first exception
  and makes none of the later calls.

| file | module | covers |
|---|---|---|
| wrappers.dfy | Wrappers | `Option`, `Result`, the two exceptions |
| sequences.dfy | Sequences | order-preserving selection (subsequence) |
| values.dfy | Values | `TimeFrame`, `Person`, `Paper`, reference-aware `operator ==` |
| teams.dfy | Teams | `Team`/`ResearchTeam` state, setter, constructors, `Equals` (labs 2–4) |
| publications.dfy | Publications | `LatestPublication`, date sort, `GetEnumerator`, `MembersWithMultiplePublications` |
| research_teams.dfy | ResearchTeams | lab-3/4 `AddMembers`/`AddPapers`/`DeepCopy`/sort, lab-4 notifying setters |
| lab1.dfy | Lab1 | the lab-1 team |
| lab2.dfy | Lab2 | where lab 2 differs: name-only copies, plain appends, dictionary counting |
| keys.dfy | Keys | `GenerateKeyForTeam` and its injectivity |
| queries.dfy | Queries | the insertion loop and read-only queries both collections share |
| selector_collection.dfy | SelectorCollection | the lab-3 collection |
| journal.dfy | Events, Journal, Notifications | change events, `TeamsJournal`, the invocation list |
| team_collection.dfy | TeamCollection | the lab-4 collection |
| hub.dfy | Hub | collections and journals together |

Facts about lab 4's collection that shape the model:

- There is no `Added` change kind. The `Revision` enumeration has only
  `Remove`, `Replace` and `Property`, and an addition is reported as
  `Property` with the property name `"ResearchTeam added"`.
- There is no single-team `Add`. `AddResearchTeams` takes several teams and
  throws `InvalidOperationException` out of `GetKey` at the first taken key.
  Teams inserted before it in the same call stay inserted, and their events
  have already been raised.
- After `Replace`, a key no longer has to match its team, because `Replace`
  keeps the old key. So only "keys are distinct" is an invariant.
  `TeamCollection.ReplaceKeepsOldKey` shows a state in which two entries
  hold equal teams.
- In lab 4's `AddResearchTeams`, the two `else` branches that print an error
  cannot be reached. `GetKey` has already thrown when the key is present, and
  the generated string key is never null.

## Model

| member | source | states |
|---|---|---|
| Values.SamePersonIgnoresLastName | lab_2_c_sharp/lab_2_c_sharp/Program.cs:40-47 | Person.Equals compares names only: a person equals the same person with any other last name, although the two records differ |
| Values.CopyPerson | lab_3_c_sharp/lab_3_c_sharp/Program.cs:30-33 | the lab-3/4 Person.DeepCopy carries name and last name, so the copy equals the original |
| Values.CopyPaper | lab_3_c_sharp/lab_3_c_sharp/Program.cs:89-92 | Paper.DeepCopy copies title, date and (deeply) the author, so the copy equals the original |
| Values.OperatorEqualsIsNullSafeEquals | lab_2_c_sharp/lab_2_c_sharp/Program.cs:175-187 | for a reflexive Equals, `==` holds exactly when both sides are null or both are objects related by Equals; the same reference is equal, exactly one null is unequal |
| Teams.TeamEqualsFacts | lab_2_c_sharp/lab_2_c_sharp/Program.cs:161-168 | Team.Equals is reflexive, symmetric and transitive, ignores the research topic, and a plain Team never equals a ResearchTeam with the same fields (runtime-type check) |
| Teams.SameTeamIsTeamEquals | lab_4_c_sharp/lab_4_c_sharp/Program.cs:161-168 | between two research teams Equals is exactly equality of organization and registration number |
| Teams.SetRegistrationNumber | lab_2_c_sharp/lab_2_c_sharp/Program.cs:120-131 | succeeds iff the value is positive, storing it and keeping the organization; otherwise ArgumentException and no new state |
| Teams.NewTeam | lab_2_c_sharp/lab_2_c_sharp/Program.cs:134-139 | Team(org, n) exists iff n > 0, and then holds exactly org and n |
| Teams.DefaultTeam | lab_2_c_sharp/lab_2_c_sharp/Program.cs:141-145 | Team() assigns 0 through the setter and therefore always throws ArgumentException |
| Teams.NewResearchTeam | lab_2_c_sharp/lab_2_c_sharp/Program.cs:222-229 | construction succeeds iff the number is positive; the team then has the given fields and empty member and publication lists, else ArgumentException |
| Teams.DefaultResearchTeam | lab_2_c_sharp/lab_2_c_sharp/Program.cs:231-237 | ResearchTeam() chains to Team() and always throws ArgumentException |
| Publications.LatestPublication | lab_3_c_sharp/lab_3_c_sharp/Program.cs:240-255 | null exactly for an empty list; otherwise a paper with maximal date that is the first such in list order (strict `>`) |
| Publications.FirstLatestIsUnique | lab_3_c_sharp/lab_3_c_sharp/Program.cs:240-255 | the "first latest" position is unique, so the returned paper is determined by the list |
| Publications.InsertByDate | lab_3_c_sharp/lab_3_c_sharp/Program.cs:99-102 | inserting into a list sorted by CompareTo (date) keeps it sorted and adds exactly the one paper |
| Publications.SortByDate | lab_3_c_sharp/lab_3_c_sharp/Program.cs:339-342 | the result is in non-decreasing date order and is a permutation of the input |
| Publications.CountByAuthorPositive | lab_3_c_sharp/lab_3_c_sharp/Program.cs:319-323 | an author name has a positive publication count iff some publication's author has that name |
| Publications.MembersWithPublications | lab_2_c_sharp/lab_2_c_sharp/Program.cs:326-335 | GetEnumerator yields exactly the members who author at least one publication, authors compared by name, each as often as it is in the member list; the result is a subsequence of the member list, so member order is kept |
| Publications.FirstAuthorsCover | lab_3_c_sharp/lab_3_c_sharp/Program.cs:321-322 | GroupBy(Author) yields a group for every author name that occurs |
| Publications.FirstAuthorsDistinct | lab_3_c_sharp/lab_3_c_sharp/Program.cs:321-322 | GroupBy(Author) yields no name twice |
| Publications.FirstAuthorsAreFirst | lab_3_c_sharp/lab_3_c_sharp/Program.cs:321-322 | each group's key is the author object of the first paper with that name |
| Publications.MultipleAuthorsFromFirst | lab_3_c_sharp/lab_3_c_sharp/Program.cs:321-330 | filtering the groups on count keeps each remaining author as the author object of its first paper, and every author name with more than one publication survives |
| Publications.KeepFrequent | lab_3_c_sharp/lab_3_c_sharp/Program.cs:324-330 | keeps exactly the candidates whose name has more than one publication, as a subsequence of the candidates (so in their order), and keeps names distinct |
| Publications.MembersWithMultiplePublications | lab_3_c_sharp/lab_3_c_sharp/Program.cs:319-331 | yields each author with more than one publication exactly once (names distinct), only such authors, each as the author object of its first paper |
| ResearchTeams.AddMembers | lab_4_c_sharp/lab_4_c_sharp/Program.cs:335-338 | the member list grows by copies equal to the arguments, in argument order; nothing else changes |
| ResearchTeams.AddPapers | lab_4_c_sharp/lab_4_c_sharp/Program.cs:340-343 | the publication list grows by copies equal to the arguments, in argument order; nothing else changes |
| ResearchTeams.DeepCopy | lab_4_c_sharp/lab_4_c_sharp/Program.cs:315-327 | the copy goes through the validating constructor, so it exists iff the original is a constructible team, and then equals it in every field |
| ResearchTeams.SortPublicationsByDate | lab_4_c_sharp/lab_4_c_sharp/Program.cs:392-395 | publications become a date-sorted permutation of themselves; every other field is unchanged |
| ResearchTeams.SetResearchTopic | lab_4_c_sharp/lab_4_c_sharp/Program.cs:232-243 | the topic takes the value; PropertyChanged("ResearchTopic") is raised iff the value differs; nothing else changes |
| ResearchTeams.SetTimeFrame | lab_4_c_sharp/lab_4_c_sharp/Program.cs:245-256 | the time frame takes the value; PropertyChanged("TimeFrame") is raised iff the value differs; nothing else changes |
| ResearchTeams.SettersAreIdempotent | lab_4_c_sharp/lab_4_c_sharp/Program.cs:232-256 | assigning the current value changes nothing and raises nothing, so a repeated assignment is silent |
| ResearchTeams.ExactlyOneTimeFrame | lab_4_c_sharp/lab_4_c_sharp/Program.cs:310-313 | the indexer is true for exactly one of the three time frames |
| Lab1.NewTeam | lab_1_c_sharp/lab_1_c_sharp/Program.cs:54-61 | the four-argument constructor stores the arguments unchecked and starts with no papers |
| Lab1.DefaultTeamState | lab_1_c_sharp/lab_1_c_sharp/Program.cs:63-70 | the default team has number 0, the default topic and organization strings, no papers and time frame Year only |
| Lab1.ExactlyOneTimeFrame | lab_1_c_sharp/lab_1_c_sharp/Program.cs:123-126 | the lab-1 indexer is true for exactly one time frame |
| Lab1.SetRegistrationNumber | lab_1_c_sharp/lab_1_c_sharp/Program.cs:84-88 | any integer is stored, including zero and negatives; nothing else changes |
| Lab1.ValidationAddedAfterLab1 | lab_1_c_sharp/lab_1_c_sharp/Program.cs:84-88 | a non-positive number lab 1 stores is one the lab-2 setter rejects |
| Lab1.AddPapers | lab_1_c_sharp/lab_1_c_sharp/Program.cs:128-136 | the array grows by the argument count, the old prefix is unchanged and the arguments follow in order (so no arguments change nothing) |
| Lab1.LatestPaper | lab_1_c_sharp/lab_1_c_sharp/Program.cs:102-121 | null without papers; otherwise the first paper with the latest date |
| Lab2.CopyPersonNameOnly | lab_2_c_sharp/lab_2_c_sharp/Program.cs:35-38 | the lab-2 copy equals the original under Person.Equals but carries no last name |
| Lab2.NameOnlyCopyLosesLastName | lab_2_c_sharp/lab_2_c_sharp/Program.cs:35-38 | the copy is identical to the original exactly when the original had no last name |
| Lab2.CopyPaperNameOnly | lab_2_c_sharp/lab_2_c_sharp/Program.cs:96-99 | title and date kept; the author is equal by name and has lost the last name |
| Lab2.AddMembers | lab_2_c_sharp/lab_2_c_sharp/Program.cs:290-296 | the count grows by the argument count; old members kept, arguments follow in order; nothing else changes |
| Lab2.AddPapers | lab_2_c_sharp/lab_2_c_sharp/Program.cs:299-305 | the count grows by the argument count; old papers kept, arguments follow in order; nothing else changes |
| Lab2.DeepCopy | lab_2_c_sharp/lab_2_c_sharp/Program.cs:268-280 | succeeds iff the team is constructible; the copy is Equal, with the same topic, time frame and both counts; members and paper authors equal by name but without last names |
| Lab2.CountAuthors | lab_2_c_sharp/lab_2_c_sharp/Program.cs:340-349 | the counting loop visits the authors in first-appearance order (the GroupBy order of labs 3/4) and builds a dictionary keyed by exactly their names, each mapped to that name's publication count |
| Lab2.MembersWithMultiplePublications | lab_2_c_sharp/lab_2_c_sharp/Program.cs:338-358 | the dictionary-counting loop yields exactly what the GroupBy version of labs 3/4 yields |
| Keys.NatToString | lab_4_c_sharp/lab_4_c_sharp/Program.cs:512 | the decimal rendering is non-empty, all digits, and has two or more digits iff the number is at least 10 |
| Keys.NatToStringDenotes | lab_4_c_sharp/lab_4_c_sharp/Program.cs:512 | the rendering of n is the canonical decimal numeral (no leading zero unless it is "0") whose value is n |
| Keys.IntToString | lab_4_c_sharp/lab_4_c_sharp/Program.cs:512 | the rendering is non-empty, starts with '-' iff the number is negative, and never contains '_' |
| Keys.IntToStringDenotes | lab_4_c_sharp/lab_4_c_sharp/Program.cs:512 | a non-negative number renders as its canonical decimal numeral; a negative one as '-' followed by the canonical numeral of its absolute value |
| Keys.IntToStringInjective | lab_4_c_sharp/lab_4_c_sharp/Program.cs:512 | different registration numbers render differently |
| Keys.KeyOfInjective | lab_4_c_sharp/lab_4_c_sharp/Program.cs:508-513 | two teams get the same "Org_Reg" key iff organization and number both agree, even when organizations contain '_' |
| Keys.KeyOfMatchesSameTeam | lab_4_c_sharp/lab_4_c_sharp/Program.cs:508-513 | two research teams share a derived key iff they are Equal |
| Queries.InsertAll | lab_3_c_sharp/lab_3_c_sharp/Program.cs:375-381 | inserts a prefix of the teams, in order, under their keys; it stops exactly at the first team whose key is present, and keys stay distinct |
| Queries.InsertDistinctIntoEmpty | lab_3_c_sharp/lab_3_c_sharp/Program.cs:375-381 | teams with pairwise different keys all go into an empty dictionary, in order, each under its own key, without a clash |
| Queries.AllPublications | lab_4_c_sharp/lab_4_c_sharp/Program.cs:536 | SelectMany contains every publication of every team and nothing else; it is empty iff no team has a publication |
| Queries.MaxDate | lab_4_c_sharp/lab_4_c_sharp/Program.cs:537 | Max over a non-empty list bounds every date and is attained |
| Queries.LastPublicationDate | lab_4_c_sharp/lab_4_c_sharp/Program.cs:529-539 | default (0) when there are no teams or no publications; otherwise the maximum date over all publications of all teams |
| Queries.TimeFrameGroup | lab_4_c_sharp/lab_4_c_sharp/Program.cs:542-545 | exactly the entries whose time frame is the value; the group is a subsequence of the entries, so their order is kept |
| Queries.TimeFrameGroups | lab_4_c_sharp/lab_4_c_sharp/Program.cs:547-550 | one non-empty group per occurring time frame, keys distinct, each group exactly that frame's entries, every entry covered |
| Queries.GroupsPartitionEntries | lab_4_c_sharp/lab_4_c_sharp/Program.cs:547-550 | every entry is in exactly one group, the one keyed by its own time frame |
| Queries.DefaultTeamsAreConstructed | lab_4_c_sharp/lab_4_c_sharp/Program.cs:450-457 | the three default teams are what the validating constructor builds from the literal arguments |
| SelectorCollection.AddResearchTeams | lab_3_c_sharp/lab_3_c_sharp/Program.cs:375-381 | each team goes in under keySelector(team); the first repeated key throws ArgumentException with earlier teams kept; keys stay distinct; the selector is unchanged |
| SelectorCollection.AddDefaultsToEmpty | lab_3_c_sharp/lab_3_c_sharp/Program.cs:366-373 | with the organization selector on an empty collection: keys Org1, Org2, Org3, time frames Year, TwoYears, Long, no exception |
| Journal.EntryOfIsFaithful | lab_4_c_sharp/lab_4_c_sharp/Program.cs:598-602 | a journal entry determines the event it was copied from |
| Journal.HandleResearchTeamsChanged | lab_4_c_sharp/lab_4_c_sharp/Program.cs:598-602 | appends one entry with the event's four fields; earlier entries are untouched |
| Journal.HandleAll | lab_4_c_sharp/lab_4_c_sharp/Program.cs:590-602 | after a series of events the journal is its old entries followed by one copy per event, in order |
| Journal.HandleAllConcatenates | lab_4_c_sharp/lab_4_c_sharp/Program.cs:590-602 | handling two series in turn equals handling their concatenation: the log only grows at the end |
| Journal.HandleAllKeepsChangeType | lab_4_c_sharp/lab_4_c_sharp/Program.cs:598-602 | when every handled event has one change type, every entry the journal gains has that change type |
| Notifications.OccurrencesPositive | lab_4_c_sharp/lab_4_c_sharp/Program.cs:420-424 | a journal is invoked at least once iff it is on the invocation list |
| Notifications.Subscribe | lab_4_c_sharp/lab_4_c_sharp/Program.cs:422 | `+=` appends the handler: its count rises by one, the others' stay, the old list is a prefix |
| Notifications.Unsubscribe | lab_4_c_sharp/lab_4_c_sharp/Program.cs:423 | `-=` removes one occurrence of a subscribed handler (count down by one, others unchanged) and is a no-op otherwise |
| Notifications.UnsubscribeUndoesSubscribe | lab_4_c_sharp/lab_4_c_sharp/Program.cs:420-424 | `-=` right after `+=` restores the invocation list |
| Notifications.Repeat | lab_4_c_sharp/lab_4_c_sharp/Program.cs:564 | n copies of one entry: what a journal on the list n times receives for one event |
| Notifications.Deliver | lab_4_c_sharp/lab_4_c_sharp/Program.cs:562-565 | raising one event appends it to each journal once per subscription and leaves unsubscribed journals untouched |
| Notifications.DeliverAll | lab_4_c_sharp/lab_4_c_sharp/Program.cs:562-565 | raising a series of events appends, per journal, each event's copies in raising order |
| Notifications.SpreadOnceIsHandleAll | lab_4_c_sharp/lab_4_c_sharp/Program.cs:562-565 | for a journal subscribed once, delivery is exactly HandleResearchTeamsChanged applied to each event in order |
| Notifications.SubscribedJournalRecordsEvents | lab_4_c_sharp/lab_4_c_sharp/Program.cs:562-565 | a journal subscribed once records every raised event once, in order; one not subscribed records nothing |
| TeamCollection.NewCollection | lab_4_c_sharp/lab_4_c_sharp/Program.cs:415-418 | a new collection has the given name, no subscribers and no keys, and satisfies both invariants |
| TeamCollection.AddHandler | lab_4_c_sharp/lab_4_c_sharp/Program.cs:422 | the event's `add` accessor subscribes the journal once more; every other journal's subscription count and the rest of the collection are unchanged |
| TeamCollection.RemoveHandler | lab_4_c_sharp/lab_4_c_sharp/Program.cs:423 | the `remove` accessor drops one subscription of the journal if there is one, leaving every other journal's count and the rest of the collection unchanged, and otherwise changes nothing |
| TeamCollection.RemoveHandlerUndoesAddHandler | lab_4_c_sharp/lab_4_c_sharp/Program.cs:420-424 | removing a handler right after adding it restores the collection |
| TeamCollection.Lookup | lab_4_c_sharp/lab_4_c_sharp/Program.cs:519 | TryGetValue finds a value iff the key is stored, and the pair is in the dictionary |
| TeamCollection.GetTeamByKey | lab_4_c_sharp/lab_4_c_sharp/Program.cs:517-526 | a team iff the key is present (null otherwise), and the pair is stored |
| TeamCollection.GetTeamByKeyIsStored | lab_4_c_sharp/lab_4_c_sharp/Program.cs:517-526 | with distinct keys, GetTeamByKey(key) is rt iff (key, rt) is an entry |
| TeamCollection.AddedEvents | lab_4_c_sharp/lab_4_c_sharp/Program.cs:471-472 | one (name, Property, "ResearchTeam added", reg) event per inserted team, in insertion order |
| TeamCollection.AddResearchTeams | lab_4_c_sharp/lab_4_c_sharp/Program.cs:459-504 | teams go in under "Org_Reg" in order, each with one (name, Property, "ResearchTeam added", reg) event; the first taken key throws InvalidOperationException with earlier teams and events kept; both invariants preserved |
| TeamCollection.LookupAppend | lab_4_c_sharp/lab_4_c_sharp/Program.cs:471 | after Dictionary.Add of a new key, TryGetValue answers the new key with the added team and every other key as before |
| TeamCollection.AddThenGet | lab_4_c_sharp/lab_4_c_sharp/Program.cs:459-472 | adding a team whose key is free raises exactly one added event, GetTeamByKey then returns it, and every other key answers as before |
| TeamCollection.AddDuplicateRejected | lab_4_c_sharp/lab_4_c_sharp/Program.cs:497-501 | adding a team whose key is taken throws InvalidOperationException, changes nothing and raises nothing |
| TeamCollection.FirstEqual | lab_4_c_sharp/lab_4_c_sharp/Program.cs:428 | FirstOrDefault(x.Value == rt) finds the first entry whose team is Equal to rt, or none when there is none |
| TeamCollection.Remove | lab_4_c_sharp/lab_4_c_sharp/Program.cs:426-436 | true iff some stored team is Equal to rt; then the first entry (in dictionary order) whose team is Equal to rt is deleted, the name and subscribers are kept, and one (name, Remove, "", rt's number) event is raised; otherwise no change and no event; keys stay distinct |
| TeamCollection.Replace | lab_4_c_sharp/lab_4_c_sharp/Program.cs:438-448 | true iff some stored team is Equal to rtold; then the first such entry holds rtnew under the old key, the key sequence is unchanged, the name and subscribers are kept, and one (name, Replace, "", rtold's number) event is raised; otherwise no change and no event |
| TeamCollection.StoredKeyMeansEqualTeam | lab_4_c_sharp/lab_4_c_sharp/Program.cs:426-436 | while every team sits under its own key, rt's key is stored iff an Equal team is, so Remove(rt) succeeds iff adding rt would throw |
| TeamCollection.RemoveByKey | lab_4_c_sharp/lab_4_c_sharp/Program.cs:426-436 | while every team sits under its own key, Remove(rt) succeeds iff rt's key is stored, and GetTeamByKey finds nothing under it afterwards |
| TeamCollection.RemoveKeepsOtherKeys | lab_4_c_sharp/lab_4_c_sharp/Program.cs:426-436 | while every team sits under its own key, Remove(rt) leaves every other key answering as before |
| TeamCollection.DeleteLookup | lab_4_c_sharp/lab_4_c_sharp/Program.cs:431 | after Dictionary.Remove of one entry, its key finds nothing and every other key finds what it found before |
| TeamCollection.RemoveUndoesAdd | lab_4_c_sharp/lab_4_c_sharp/Program.cs:426-472 | removing a team just added under a free key restores the collection exactly, raising one Remove event |
| TeamCollection.ReplaceKeepsOldKey | lab_4_c_sharp/lab_4_c_sharp/Program.cs:438-448 | after replacing Org1/1 by Org3/3, "Org1_1" holds the Org3/3 team, "Org3_3" is free, and adding Org3/3 succeeds, leaving two Equal teams stored |
| TeamCollection.AddDefaultsToEmpty | lab_4_c_sharp/lab_4_c_sharp/Program.cs:450-457 | AddDefaults on a new collection throws nothing and stores keys Org1_1, Org2_2, Org3_3, in that order |
| TeamCollection.AddDistinctKeysToEmpty | lab_4_c_sharp/lab_4_c_sharp/Program.cs:459-504 | teams with pairwise different keys all go into a new collection, in order, under their own keys, with one event each and no exception |
| TeamCollection.AddDefaultsEvents | lab_4_c_sharp/lab_4_c_sharp/Program.cs:450-457 | AddDefaults on a new collection raises three added events carrying the collection's name and the numbers 1, 2, 3 |
| Hub.Perform | lab_4_c_sharp/lab_4_c_sharp/Program.cs:426-504 | the collection, events, bool result and exception of one call are exactly those of AddResearchTeams, Remove or Replace; only AddResearchTeams can throw; name and subscribers are kept |
| Hub.EventsNameTheirCollection | lab_4_c_sharp/lab_4_c_sharp/Program.cs:562-565 | every event a call raises carries the name of the collection that raised it |
| Hub.Commit | lab_4_c_sharp/lab_4_c_sharp/Program.cs:562-565 | a call's collection replaces the target, its events go, in raising order, to the target's subscribers, and every other collection is untouched |
| Hub.SubscribeEverywhere | lab_4_c_sharp/lab_4_c_sharp/Program.cs:620-621 | `+=` on every collection: contents and names kept, the journal's count rises by one everywhere and every other journal's is unchanged, so an unsubscribed journal becomes subscribed exactly once everywhere |
| Hub.Run | lab_4_c_sharp/lab_4_c_sharp/Program.cs:612-650 | a series of calls in order, as Main makes them: the first exception (InvalidOperationException) ends the series and the later calls are not made; without one every call is made; each step makes the next call (as Perform states it) on its target collection, replaces that collection, delivers the call's events to that collection's subscribers, and appends the call's events and bool result |
| Hub.RunJournals | lab_4_c_sharp/lab_4_c_sharp/Program.cs:562-602 | after a run, a journal subscribed once to each collection holds its old entries plus one copy of every raised event in raising order; an unsubscribed journal is unchanged |
| Hub.SubscribedJournalSeesRun | lab_4_c_sharp/lab_4_c_sharp/Program.cs:612-650 | a journal Main subscribes to every collection records every event the later calls raise, once each and in order |
| Hub.RemovesRaiseRemoveEvents | lab_4_c_sharp/lab_4_c_sharp/Program.cs:426-436 | a run of Remove calls throws nothing and raises exactly one Remove event per call that returned true |
| Hub.RemoveStep | lab_4_c_sharp/lab_4_c_sharp/Program.cs:426-436 | one Remove call throws nothing and raises one Remove event iff it returns true |
| Hub.RemovesAreJournaled | lab_4_c_sharp/lab_4_c_sharp/Program.cs:426-436 | after N Remove calls, a journal subscribed once everywhere has grown by exactly the number of Removes that returned true, keeps its old entries as a prefix, and every new entry is of change type Remove |

## Left out

- `ToString`, `ToShortString` and all `Console` output: presentation only.
- `DateTime.Now`, the parameterless `Paper()` and `RecentPublications`: these
  read the wall clock. Dates are explicit tick counts.
- The lab-1 array-shape benchmark and every `Main` method: drivers and
  timing, not behaviour. Lab 4's `Main` looks teams up by research topic
  ("Team1"), which never matches an `Org_Reg` key, so its topic changes never
  happen.
- `GetHashCode`: it depends on the runtime's string hashing. Dictionary
  behaviour is modelled by key equality alone.
- `SortPublicationsByName` and `SortPublicationsByAuthor`: they depend on
  culture-aware, case-insensitive string comparison.
- Dictionary enumeration order: the model uses insertion order. The runtime
  may reuse a slot freed by `Remove`, so after a removal the order can
  differ. That affects the queries, `TimeFrameGroup`, and the entry that
  `FirstOrDefault` picks in `Remove` and `Replace` once a `Replace` has left
  two Equal teams stored. Every order-independent property (membership,
  counts, maxima, partition) is unaffected.
- Null arguments (a null team, author or member) and the
  `ArgumentNullException` in `GetKey`: every value in the model exists.
- Shared references and aliasing: there are none in the model. A deep copy
  is equal to its original and cannot be affected by later changes to it.
  The reference shortcut of `operator ==` is modelled separately, in
  `Values.OperatorEquals`.
- The `INameAndCopy.Name` accessors and the `Members`/`Publications`/`Papers`
  getters and setters: these are plain field access.
- `PropertyChanged` subscribers: the setters report which property names they
  raise, and nothing in the labs listens.
- Delegate machinery beyond an ordered invocation list: the source object
  passed to handlers and exceptions thrown by handlers.
- Generic `TKey` in lab 4: `(TKey)(object)` on the generated string succeeds
  only for `string` and the types `string` converts to by reference (such as
  `object` or `IEquatable<string>`). All of those compare keys as strings,
  so the key type is fixed to `string`.
- The lab-2 `Paper` and `Person` `==` on authors in `GetEnumerator` and in the
  dictionary count: these are modelled as name equality, which is what
  `Person.Equals` and `==` reduce to for non-null people.
