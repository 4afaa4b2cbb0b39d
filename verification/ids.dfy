/**
 The `lastId` handed to the add form: a left fold over the list keeping the
 largest numeric identifier seen, starting from 0. Identifiers without a
 numeric value never compare greater and are passed over.
 */
module Ids {
  import opened Wrappers
  import opened Decimal
  import opened Appointments

  function NumericId(a: Appointment): Option<nat> {
    Parse(a.id)
  }

  /** One step of the fold: the record's number if it is greater than the running maximum. */
  function MaxStep(max: nat, a: Appointment): (m: nat)
    ensures m >= max
    ensures NumericId(a).Some? ==> m >= NumericId(a).value
    ensures m == max || NumericId(a) == Some(m)
  {
    match NumericId(a)
    case Some(n) => if n > max then n else max
    case None => max
  }

  function LastIdFrom(list: seq<Appointment>, acc: nat): nat
    decreases |list|
  {
    if |list| == 0 then acc else LastIdFrom(list[1..], MaxStep(acc, list[0]))
  }

  function LastId(list: seq<Appointment>): nat {
    LastIdFrom(list, 0)
  }

  /** `m` is at least every numeric identifier in `list`, and is 0 or one of them. */
  ghost predicate IsLastId(list: seq<Appointment>, m: nat) {
    && (forall i :: 0 <= i < |list| && NumericId(list[i]).Some? ==> NumericId(list[i]).value <= m)
    && (m == 0 || exists i :: 0 <= i < |list| && NumericId(list[i]) == Some(m))
  }

  lemma {:induction false} LastIdFromBounds(list: seq<Appointment>, acc: nat)
    ensures LastIdFrom(list, acc) >= acc
    ensures forall i :: 0 <= i < |list| && NumericId(list[i]).Some? ==>
      NumericId(list[i]).value <= LastIdFrom(list, acc)
    ensures LastIdFrom(list, acc) == acc ||
      exists i :: 0 <= i < |list| && NumericId(list[i]) == Some(LastIdFrom(list, acc))
    decreases |list|
  {
    if |list| > 0 {
      var tail, step := list[1..], MaxStep(acc, list[0]);
      LastIdFromBounds(tail, step);
      var m := LastIdFrom(list, acc);
      assert m == LastIdFrom(tail, step);
      forall i | 0 <= i < |list| && NumericId(list[i]).Some?
        ensures NumericId(list[i]).value <= m
      {
        if i > 0 {
          assert list[i] == tail[i - 1];
        }
      }
      if m != step {
        var j :| 0 <= j < |tail| && NumericId(tail[j]) == Some(m);
        assert list[j + 1] == tail[j];
      } else if m != acc {
        assert NumericId(list[0]) == Some(m);
      }
    }
  }

  /** The fold computes the largest numeric identifier, or 0 when there is none. */
  lemma LastIdIsMax(list: seq<Appointment>)
    ensures IsLastId(list, LastId(list))
    ensures |list| == 0 ==> LastId(list) == 0
  {
    LastIdFromBounds(list, 0);
  }

  /** Only the fold's answer meets the description. */
  lemma LastIdUnique(list: seq<Appointment>, m: nat)
    requires IsLastId(list, m)
    ensures m == LastId(list)
  {
    LastIdIsMax(list);
    var l := LastId(list);
    if m != 0 {
      var i :| 0 <= i < |list| && NumericId(list[i]) == Some(m);
      assert m <= l;
    }
    if l != 0 {
      var j :| 0 <= j < |list| && NumericId(list[j]) == Some(l);
      assert l <= m;
    }
  }

  lemma {:induction false} LastIdFromSnoc(list: seq<Appointment>, acc: nat, a: Appointment)
    ensures LastIdFrom(list + [a], acc) == MaxStep(LastIdFrom(list, acc), a)
    decreases |list|
  {
    if |list| > 0 {
      assert (list + [a])[1..] == list[1..] + [a];
      LastIdFromSnoc(list[1..], MaxStep(acc, list[0]), a);
    } else {
      assert (list + [a])[1..] == [];
    }
  }

  /** Appending a record takes one more step of the fold. */
  lemma LastIdSnoc(list: seq<Appointment>, a: Appointment)
    ensures LastId(list + [a]) == MaxStep(LastId(list), a)
  {
    LastIdFromSnoc(list, 0, a);
  }

  /** An identifier whose number exceeds `lastId` is not the identifier of any record. */
  lemma AboveLastIdIsFresh(list: seq<Appointment>, id: string)
    requires Parse(id).Some? && Parse(id).value > LastId(list)
    ensures forall i :: 0 <= i < |list| ==> list[i].id != id
  {
    LastIdIsMax(list);
  }

  /** The decimal spelling of `lastId + 1` is a fresh identifier. */
  lemma NextIdIsFresh(list: seq<Appointment>)
    ensures forall i :: 0 <= i < |list| ==> list[i].id != Format(LastId(list) + 1)
  {
    ParseFormat(LastId(list) + 1);
    AboveLastIdIsFresh(list, Format(LastId(list) + 1));
  }
}
