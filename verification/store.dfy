/**
 The appointment list and its view settings as plain values: adding and
 deleting records, the filtered and sorted view, and the updates the user
 interface makes to them.
 */
module Store {
  import opened Wrappers
  import opened Seqs
  import opened Appointments
  import opened Search
  import opened Sorting
  import opened Ids

  /** The new record goes at the end; the existing records keep their places. */
  function Add(list: seq<Appointment>, a: Appointment): (r: seq<Appointment>)
    ensures |r| == |list| + 1
    ensures r[..|list|] == list
    ensures r[|list|] == a
  {
    list + [a]
  }

  /** Every record whose identifier differs from `id`, in list order. */
  function Delete(list: seq<Appointment>, id: string): (r: seq<Appointment>)
    ensures forall a :: a in r ==> a.id != id
    ensures forall a: Appointment :: a.id != id ==> multiset(r)[a] == multiset(list)[a]
    ensures IsSubseq(r, list)
  {
    Keep(list, (a: Appointment) => a.id != id)
  }

  /** Deleting an identifier no record has leaves the list as it was. */
  lemma DeleteAbsent(list: seq<Appointment>, id: string)
    requires forall i :: 0 <= i < |list| ==> list[i].id != id
    ensures Delete(list, id) == list
  {
    KeepAll(list, (a: Appointment) => a.id != id);
  }

  /** Adding a record with a new identifier and then deleting that identifier restores the list. */
  lemma AddThenDelete(list: seq<Appointment>, a: Appointment)
    requires forall i :: 0 <= i < |list| ==> list[i].id != a.id
    ensures Delete(Add(list, a), a.id) == list
  {
    KeepSnoc(list, a, (b: Appointment) => b.id != a.id);
    DeleteAbsent(list, a.id);
  }

  /** Adding a record raises `lastId` to its number when that number is larger. */
  lemma LastIdAfterAdd(list: seq<Appointment>, a: Appointment)
    ensures NumericId(a).Some? && NumericId(a).value > LastId(list) ==> LastId(Add(list, a)) == NumericId(a).value
    ensures !(NumericId(a).Some? && NumericId(a).value > LastId(list)) ==> LastId(Add(list, a)) == LastId(list)
  {
    LastIdSnoc(list, a);
  }

  /** Deleting records never raises `lastId`. */
  lemma LastIdAfterDelete(list: seq<Appointment>, id: string)
    ensures LastId(Delete(list, id)) <= LastId(list)
  {
    var r := Delete(list, id);
    LastIdIsMax(list);
    LastIdIsMax(r);
    var m := LastId(r);
    if m != 0 {
      var i :| 0 <= i < |r| && NumericId(r[i]) == Some(m);
      assert r[i] in multiset(r);
      assert r[i] in list;
    }
  }

  /** No two records share an identifier. */
  predicate UniqueIds(list: seq<Appointment>) {
    forall i, j :: 0 <= i < j < |list| ==> list[i].id != list[j].id
  }

  lemma {:induction false} KeepKeepsUnique(list: seq<Appointment>, p: Appointment -> bool)
    requires UniqueIds(list)
    ensures UniqueIds(Keep(list, p))
    decreases |list|
  {
    if |list| > 0 {
      var tail := list[1..];
      assert UniqueIds(tail) by {
        forall i, j | 0 <= i < j < |tail|
          ensures tail[i].id != tail[j].id
        {
          assert tail[i] == list[i + 1] && tail[j] == list[j + 1];
        }
      }
      KeepKeepsUnique(tail, p);
      var rest := Keep(tail, p);
      if p(list[0]) {
        forall j | 0 <= j < |rest|
          ensures list[0].id != rest[j].id
        {
          assert rest[j] in multiset(rest);
          assert rest[j] in tail;
          var k :| 0 <= k < |tail| && tail[k] == rest[j];
          assert list[k + 1] == tail[k];
        }
        ConsKeepsUnique(list[0], rest);
      }
    }
  }

  lemma ConsKeepsUnique(a: Appointment, rest: seq<Appointment>)
    requires UniqueIds(rest)
    requires forall j :: 0 <= j < |rest| ==> a.id != rest[j].id
    ensures UniqueIds([a] + rest)
  {
    var r := [a] + rest;
    forall i, j | 0 <= i < j < |r|
      ensures r[i].id != r[j].id
    {
      assert r[j] == rest[j - 1];
      if i > 0 {
        assert r[i] == rest[i - 1];
      }
    }
  }

  lemma DeleteKeepsUnique(list: seq<Appointment>, id: string)
    requires UniqueIds(list)
    ensures UniqueIds(Delete(list, id))
  {
    KeepKeepsUnique(list, (a: Appointment) => a.id != id);
  }

  /** A record numbered above `lastId` can be added without repeating an identifier. */
  lemma AddAboveLastIdKeepsUnique(list: seq<Appointment>, a: Appointment)
    requires UniqueIds(list)
    requires NumericId(a).Some? && NumericId(a).value > LastId(list)
    ensures UniqueIds(Add(list, a))
  {
    AboveLastIdIsFresh(list, a.id);
    var r := Add(list, a);
    assert forall i :: 0 <= i < |list| ==> r[i] == list[i];
  }

  /**
   The list as displayed: the records matching `query`, each as often as in
   the list, ordered by the lower-cased `sortBy` field.
   */
  function View(list: seq<Appointment>, query: string, sortBy: Field, orderBy: string): (r: seq<Appointment>)
    ensures forall a :: a in r <==> a in list && Matches(a, query)
    ensures forall a :: Matches(a, query) ==> multiset(r)[a] == multiset(list)[a]
    ensures multiset(r) == multiset(Filter(list, query))
    ensures SortedBy(r, sortBy, orderBy)
  {
    var filtered := Filter(list, query);
    var r := Sort(filtered, sortBy, orderBy);
    assert forall a :: a in r <==> a in multiset(filtered);
    r
  }

  /** With the empty query the view is a reordering of the whole list. */
  lemma ViewEmptyQuery(list: seq<Appointment>, sortBy: Field, orderBy: string)
    ensures multiset(View(list, "", sortBy, orderBy)) == multiset(list)
  {
    FilterEmptyQuery(list);
  }

  /** Everything the screen depends on, apart from the loading and error flags of the fetch. */
  datatype State = State(list: seq<Appointment>, query: string, sortBy: Field, orderBy: string)

  /** What the user interface can do to the state. */
  datatype Action =
    | QueryChange(query: string)
    | OrderByChange(orderBy: string)
    | SortByChange(sortBy: Field)
    | SendAppointment(appointment: Appointment)
    | DeleteAppointment(id: string)

  /** Empty list, empty query, ascending by pet name. */
  function Initial(): (s: State)
    ensures |s.list| == 0 && UniqueIds(s.list)
    ensures Displayed(s) == []
  {
    State([], "", PetName, "asc")
  }

  function Displayed(s: State): seq<Appointment> {
    View(s.list, s.query, s.sortBy, s.orderBy)
  }

  /** A setting change sets that setting only; list changes leave the settings alone. */
  function Step(s: State, act: Action): (t: State)
    ensures act.QueryChange? ==> t == State(s.list, act.query, s.sortBy, s.orderBy)
    ensures act.OrderByChange? ==> t == State(s.list, s.query, s.sortBy, act.orderBy)
    ensures act.SortByChange? ==> t == State(s.list, s.query, act.sortBy, s.orderBy)
    ensures act.SendAppointment? || act.DeleteAppointment? ==>
      t.query == s.query && t.sortBy == s.sortBy && t.orderBy == s.orderBy
    ensures act.SendAppointment? ==> t.list == Add(s.list, act.appointment)
    ensures act.DeleteAppointment? ==> t.list == Delete(s.list, act.id)
  {
    match act
    case QueryChange(q) => s.(query := q)
    case OrderByChange(o) => s.(orderBy := o)
    case SortByChange(f) => s.(sortBy := f)
    case SendAppointment(a) => s.(list := Add(s.list, a))
    case DeleteAppointment(id) => s.(list := Delete(s.list, id))
  }

  /** The new record's identifier is numbered above the `lastId` the form was given. */
  predicate FreshlyNumbered(s: State, act: Action) {
    act.SendAppointment? ==>
      NumericId(act.appointment).Some? && NumericId(act.appointment).value > LastId(s.list)
  }

  /** Identifiers stay unique as long as every new record is numbered above `lastId`. */
  lemma StepKeepsUnique(s: State, act: Action)
    requires UniqueIds(s.list) && FreshlyNumbered(s, act)
    ensures UniqueIds(Step(s, act).list)
  {
    match act
    case SendAppointment(a) => AddAboveLastIdKeepsUnique(s.list, a);
    case DeleteAppointment(id) => DeleteKeepsUnique(s.list, id);
    case _ =>
  }
}
