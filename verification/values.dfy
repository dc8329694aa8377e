/** The plain value objects every lab uses: the time-frame enumeration,
    people and papers, and the reference-aware `operator ==` that Person and
    Team overload. */
module Values {
  import opened Wrappers

  datatype TimeFrame = Year | TwoYears | Long

  /** A person. `lastName` is None when the C# property was never assigned. */
  datatype Person = Person(name: string, lastName: Option<string>)

  /** A publication. A DateTime is modelled as its tick count, so
      default(DateTime) is 0 and no date is below it. */
  datatype Paper = Paper(name: string, author: Person, date: nat)

  /** Person.Equals: people are the same person when their names agree;
      the last name plays no part. */
  predicate SamePerson(a: Person, b: Person)
  {
    a.name == b.name
  }

  /** Two people who differ only in their last name are still equal. */
  lemma SamePersonIgnoresLastName(a: Person, last: Option<string>)
    ensures SamePerson(a, a.(lastName := last))
    ensures last != a.lastName ==> a != a.(lastName := last)
  {
  }

  /** Person.DeepCopy of labs 3 and 4: a new object with both names. */
  function CopyPerson(p: Person): (r: Person)
    ensures r == p
  {
    Person(p.name, p.lastName)
  }

  /** Paper.DeepCopy of labs 3 and 4: the author is copied as well. */
  function CopyPaper(p: Paper): (r: Paper)
    ensures r == p
  {
    Paper(p.name, CopyPerson(p.author), p.date)
  }

  /** A C# reference: null, or an object together with its identity. */
  datatype Ref<T> = Null | Obj(id: nat, target: T)

  /** Object.ReferenceEquals. */
  predicate SameReference<T>(a: Ref<T>, b: Ref<T>)
  {
    (a.Null? && b.Null?) || (a.Obj? && b.Obj? && a.id == b.id)
  }

  /** Two references read from one heap: one identity names one object. */
  ghost predicate Coherent<T>(a: Ref<T>, b: Ref<T>)
  {
    a.Obj? && b.Obj? && a.id == b.id ==> a.target == b.target
  }

  /** The `operator ==` that Person and Team overload: true for the same
      reference, false when exactly one side is null, otherwise the type's
      Equals. */
  function OperatorEquals<T>(a: Ref<T>, b: Ref<T>, equals: (T, T) -> bool): bool
  {
    if SameReference(a, b) then true
    else if a.Null? || b.Null? then false
    else equals(a.target, b.target)
  }

  /** For a reflexive Equals, the reference shortcut of `operator ==` changes
      nothing: the operator holds exactly when both sides are null or both are
      objects that Equals relates. */
  lemma OperatorEqualsIsNullSafeEquals<T>(a: Ref<T>, b: Ref<T>, equals: (T, T) -> bool)
    requires Coherent(a, b)
    requires forall x :: equals(x, x)
    ensures OperatorEquals(a, b, equals)
        <==> (a.Null? && b.Null?) || (a.Obj? && b.Obj? && equals(a.target, b.target))
  {
    if a.Obj? && b.Obj? && a.id == b.id {
      assert equals(a.target, a.target);
    }
  }
}
