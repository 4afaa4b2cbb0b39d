/** The search box: a case-insensitive substring filter over three text fields. */
module Search {
  import opened Text
  import opened Seqs
  import opened Appointments

  /** The query occurs, ignoring case, in the pet name, the owner name or the notes. */
  predicate Matches(a: Appointment, query: string) {
    var q := Lower(query);
    Includes(Lower(a.petName), q) || Includes(Lower(a.ownerName), q) || Includes(Lower(a.aptNotes), q)
  }

  /** The records of `list` that match `query`, in list order. */
  function Filter(list: seq<Appointment>, query: string): (r: seq<Appointment>)
    ensures forall a :: a in r ==> Matches(a, query)
    ensures forall a :: Matches(a, query) ==> multiset(r)[a] == multiset(list)[a]
    ensures forall a :: !Matches(a, query) ==> a !in r
    ensures IsSubseq(r, list)
  {
    Keep(list, a => Matches(a, query))
  }

  /** A record matches exactly when the lowered query occurs at some position of one of its lowered fields. */
  lemma MatchesIffOccurs(a: Appointment, query: string)
    ensures Matches(a, query) <==>
      exists i :: || OccursAt(Lower(a.petName), Lower(query), i)
                  || OccursAt(Lower(a.ownerName), Lower(query), i)
                  || OccursAt(Lower(a.aptNotes), Lower(query), i)
  {
    IncludesIffOccurs(Lower(a.petName), Lower(query));
    IncludesIffOccurs(Lower(a.ownerName), Lower(query));
    IncludesIffOccurs(Lower(a.aptNotes), Lower(query));
  }

  /** Changing the case of the query does not change what it matches. */
  lemma MatchesIgnoresQueryCase(a: Appointment, query: string)
    ensures Matches(a, query) <==> Matches(a, Lower(query))
  {
    LowerIdempotent(query);
  }

  /** The empty query keeps every record, in order. */
  lemma FilterEmptyQuery(list: seq<Appointment>)
    ensures Filter(list, "") == list
  {
    forall i | 0 <= i < |list|
      ensures Matches(list[i], "")
    {
      IncludesEmpty(Lower(list[i].petName));
    }
    KeepAll(list, a => Matches(a, ""));
  }
}
