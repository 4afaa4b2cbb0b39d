/** Worked examples of the list operations on small concrete lists. */
module Scenarios {
  import opened Wrappers
  import opened Text
  import opened Decimal
  import opened Appointments
  import opened Search
  import opened Ids
  import opened Store

  function Rex(): Appointment {
    Appointment("1", "Rex", "Alice", "Limping", "2024-01-01")
  }

  function Max(): Appointment {
    Appointment("2", "Max", "Bob", "Checkup", "2024-01-02")
  }

  /** With identifiers "1" and "3" the next identifier is "4"; on an empty list it is "1". */
  lemma NextIdExamples()
    ensures LastId([Rex(), Rex().(id := "3")]) == 3 && Format(LastId([Rex(), Rex().(id := "3")]) + 1) == "4"
    ensures LastId([]) == 0 && Format(LastId([]) + 1) == "1"
  {
    assert Parse("1") == Some(1) by { assert "1"[..0] == []; }
    assert Parse("3") == Some(3) by { assert "3"[..0] == []; }
    var l := [Rex(), Rex().(id := "3")];
    assert MaxStep(0, l[0]) == 1 && MaxStep(1, l[1]) == 3;
    assert l[1..][1..] == [];
    assert LastIdFrom(l, 0) == LastIdFrom(l[1..], 1) == LastIdFrom(l[1..][1..], 3) == 3;
    assert Format(4) == "4" && Format(1) == "1";
  }

  /** A string without the needle's first character does not contain the needle. */
  lemma {:induction false} MissingFirstChar(hay: string, needle: string)
    requires |needle| > 0 && needle[0] !in hay
    ensures !Includes(hay, needle)
    decreases |hay|
  {
    if |needle| <= |hay| {
      assert hay[..|needle|][0] != needle[0];
    }
    if |hay| > 0 {
      MissingFirstChar(hay[1..], needle);
    }
  }

  /** Searching "rex" keeps only the record whose pet is Rex. */
  lemma SearchRexExample()
    ensures Filter([Rex(), Max()], "rex") == [Rex()]
  {
    var q := Lower("rex");
    assert q == "rex";
    assert Matches(Rex(), "rex") by {
      assert Lower("Rex") == "rex";
      assert StartsWith(Lower("Rex"), q);
    }
    assert !Matches(Max(), "rex") by {
      assert Lower("Max") == "max";
      MissingFirstChar(Lower("Max"), q);
      assert Lower("Bob") == "bob";
      MissingFirstChar(Lower("Bob"), q);
      assert Lower("Checkup") == "checkup";
      MissingFirstChar(Lower("Checkup"), q);
    }
    assert [Rex(), Max()][1..] == [Max()];
  }

  /** Deleting "2" from the two-record list leaves the Rex record alone. */
  lemma DeleteExample()
    ensures Delete([Rex(), Max()], "2") == [Rex()]
  {
    assert [Rex(), Max()][1..] == [Max()];
  }
}
