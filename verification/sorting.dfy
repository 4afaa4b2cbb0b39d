/**
 Ordering the filtered list by the lower-cased value of one field, ascending
 when `orderBy` is "asc" and descending for any other value.
 */
module Sorting {
  import opened Text
  import opened Appointments

  function Key(a: Appointment, sortBy: Field): string {
    Lower(Get(a, sortBy))
  }

  /** The sign the comparator's answer is multiplied by. */
  function Direction(orderBy: string): (d: int)
    ensures d == 1 <==> orderBy == "asc"
    ensures d == 1 || d == -1
  {
    if orderBy == "asc" then 1 else -1
  }

  /**
   The comparator as written: -order when `a`'s key is strictly smaller,
   +order otherwise, so it never reports two records as equal.
   */
  function Compare(a: Appointment, b: Appointment, sortBy: Field, orderBy: string): int {
    var order := Direction(orderBy);
    if LexLess(Key(a, sortBy), Key(b, sortBy)) then -1 * order else 1 * order
  }

  /**
   On two records with the same key the comparator as written gives the same
   non-zero answer in both argument orders, and a non-zero answer when a
   record is compared with itself.
   */
  lemma CompareTieInconsistent(a: Appointment, b: Appointment, sortBy: Field, orderBy: string)
    requires Key(a, sortBy) == Key(b, sortBy)
    ensures Compare(a, b, sortBy, orderBy) == Compare(b, a, sortBy, orderBy) == Direction(orderBy)
    ensures Compare(a, a, sortBy, orderBy) != 0
  {
    LexLessIrreflexive(Key(a, sortBy));
  }

  /** `k1` may stand before `k2` in a list ordered in direction `orderBy`. */
  predicate InOrder(k1: string, k2: string, orderBy: string) {
    if orderBy == "asc" then !LexLess(k2, k1) else !LexLess(k1, k2)
  }

  lemma InOrderTotal(k1: string, k2: string, orderBy: string)
    ensures InOrder(k1, k2, orderBy) || InOrder(k2, k1, orderBy)
  {
    if LexLess(k1, k2) {
      LexLessAsymmetric(k1, k2);
    }
  }

  lemma InOrderTransitive(k1: string, k2: string, k3: string, orderBy: string)
    requires InOrder(k1, k2, orderBy) && InOrder(k2, k3, orderBy)
    ensures InOrder(k1, k3, orderBy)
  {
    LexLessTotal(k1, k2);
    LexLessTotal(k2, k3);
    if LexLess(k3, k1) && LexLess(k1, k2) {
      LexLessTransitive(k3, k1, k2);
    }
    if LexLess(k1, k3) && LexLess(k3, k2) {
      LexLessTransitive(k1, k3, k2);
    }
  }

  /** Keys that may stand in either order are equal. */
  lemma InOrderAntisymmetric(k1: string, k2: string, orderBy: string)
    requires InOrder(k1, k2, orderBy) && InOrder(k2, k1, orderBy)
    ensures k1 == k2
  {
    LexLessTotal(k1, k2);
  }

  /**
   The comparator with ties reported as 0, the form the sort contract of the
   language expects of a comparator.
   */
  function ConsistentCompare(a: Appointment, b: Appointment, sortBy: Field, orderBy: string): (c: int)
    ensures c == 0 <==> Key(a, sortBy) == Key(b, sortBy)
    ensures c <= 0 ==> InOrder(Key(a, sortBy), Key(b, sortBy), orderBy)
    ensures c > 0 ==> InOrder(Key(b, sortBy), Key(a, sortBy), orderBy)
    ensures c != 0 ==> c == Compare(a, b, sortBy, orderBy)
  {
    var ka, kb := Key(a, sortBy), Key(b, sortBy);
    if ka == kb then LexLessIrreflexive(ka); 0
    else
      LexLessTotal(ka, kb);
      if LexLess(ka, kb) then LexLessAsymmetric(ka, kb); Compare(a, b, sortBy, orderBy)
      else LexLessAsymmetric(kb, ka); Compare(a, b, sortBy, orderBy)
  }

  /** Swapping the arguments of the corrected comparator negates its answer. */
  lemma ConsistentCompareAntisymmetric(a: Appointment, b: Appointment, sortBy: Field, orderBy: string)
    ensures ConsistentCompare(a, b, sortBy, orderBy) == -ConsistentCompare(b, a, sortBy, orderBy)
  {
    var ka, kb := Key(a, sortBy), Key(b, sortBy);
    LexLessTotal(ka, kb);
    if LexLess(ka, kb) {
      LexLessAsymmetric(ka, kb);
    } else if LexLess(kb, ka) {
      LexLessAsymmetric(kb, ka);
    }
  }

  /** Every record's key may stand before the key of every later record. */
  predicate SortedBy(xs: seq<Appointment>, sortBy: Field, orderBy: string) {
    forall i, j :: 0 <= i < j < |xs| ==> InOrder(Key(xs[i], sortBy), Key(xs[j], sortBy), orderBy)
  }

  /** Inserts `x` into an ordered list, before the first record it should not follow. */
  function Insert(x: Appointment, xs: seq<Appointment>, sortBy: Field, orderBy: string): (r: seq<Appointment>)
    requires SortedBy(xs, sortBy, orderBy)
    ensures multiset(r) == multiset(xs) + multiset{x}
    ensures SortedBy(r, sortBy, orderBy)
    decreases |xs|
  {
    if |xs| == 0 then [x]
    else if ConsistentCompare(x, xs[0], sortBy, orderBy) <= 0 then
      InsertFrontSorted(x, xs, sortBy, orderBy);
      [x] + xs
    else
      var rest := Insert(x, xs[1..], sortBy, orderBy);
      assert xs == [xs[0]] + xs[1..];
      InsertBehindSorted(xs[0], x, xs[1..], rest, sortBy, orderBy);
      [xs[0]] + rest
  }

  lemma InsertFrontSorted(x: Appointment, xs: seq<Appointment>, sortBy: Field, orderBy: string)
    requires SortedBy(xs, sortBy, orderBy) && |xs| > 0
    requires InOrder(Key(x, sortBy), Key(xs[0], sortBy), orderBy)
    ensures SortedBy([x] + xs, sortBy, orderBy)
  {
    var r := [x] + xs;
    forall i, j | 0 <= i < j < |r|
      ensures InOrder(Key(r[i], sortBy), Key(r[j], sortBy), orderBy)
    {
      if i == 0 && j > 1 {
        InOrderTransitive(Key(x, sortBy), Key(xs[0], sortBy), Key(xs[j - 1], sortBy), orderBy);
      }
    }
  }

  lemma InsertBehindSorted(h: Appointment, x: Appointment, tail: seq<Appointment>, rest: seq<Appointment>,
                           sortBy: Field, orderBy: string)
    requires SortedBy([h] + tail, sortBy, orderBy) && SortedBy(rest, sortBy, orderBy)
    requires InOrder(Key(h, sortBy), Key(x, sortBy), orderBy)
    requires multiset(rest) == multiset(tail) + multiset{x}
    ensures SortedBy([h] + rest, sortBy, orderBy)
  {
    var r := [h] + rest;
    forall j | 1 <= j < |r|
      ensures InOrder(Key(h, sortBy), Key(r[j], sortBy), orderBy)
    {
      var y := rest[j - 1];
      assert r[j] == y;
      assert y in rest;
      assert y in multiset(rest);
      if y != x {
        assert y in multiset(tail);
        assert y in tail;
        var k :| 0 <= k < |tail| && tail[k] == y;
        var ht := [h] + tail;
        assert ht[0] == h && ht[k + 1] == y;
        assert InOrder(Key(ht[0], sortBy), Key(ht[k + 1], sortBy), orderBy);
      }
    }
  }

  /** The list reordered by key: a permutation of its input, ordered in direction `orderBy`. */
  function Sort(xs: seq<Appointment>, sortBy: Field, orderBy: string): (r: seq<Appointment>)
    ensures multiset(r) == multiset(xs)
    ensures |r| == |xs|
    ensures SortedBy(r, sortBy, orderBy)
    decreases |xs|
  {
    if |xs| == 0 then []
    else
      assert xs == [xs[0]] + xs[1..];
      var r := Insert(xs[0], Sort(xs[1..], sortBy, orderBy), sortBy, orderBy);
      assert |r| == |multiset(r)|;
      r
  }

  /** Ascending order lists keys non-decreasingly, any other order non-increasingly. */
  lemma SortedByMeaning(xs: seq<Appointment>, sortBy: Field, orderBy: string, i: int, j: int)
    requires SortedBy(xs, sortBy, orderBy) && 0 <= i < j < |xs|
    ensures orderBy == "asc" ==>
      Key(xs[i], sortBy) == Key(xs[j], sortBy) || LexLess(Key(xs[i], sortBy), Key(xs[j], sortBy))
    ensures orderBy != "asc" ==>
      Key(xs[i], sortBy) == Key(xs[j], sortBy) || LexLess(Key(xs[j], sortBy), Key(xs[i], sortBy))
  {
    LexLessTotal(Key(xs[i], sortBy), Key(xs[j], sortBy));
  }

  /** The keys of a list, in list order. */
  function Keys(xs: seq<Appointment>, sortBy: Field): (ks: seq<string>)
    ensures |ks| == |xs|
    ensures forall i :: 0 <= i < |xs| ==> ks[i] == Key(xs[i], sortBy)
  {
    seq(|xs|, i requires 0 <= i < |xs| => Key(xs[i], sortBy))
  }

  /** The list without the record at position `p`. */
  function Drop(ys: seq<Appointment>, p: int): (r: seq<Appointment>)
    requires 0 <= p < |ys|
    ensures |r| == |ys| - 1
  {
    ys[..p] + ys[p + 1..]
  }

  /**
   Any two orderings of the same records that satisfy the sort contract list
   the same keys in the same order: only records with equal keys can trade
   places.
   */
  lemma {:induction false} SortedPermutationsAgreeOnKeys(xs: seq<Appointment>, ys: seq<Appointment>,
                                                         sortBy: Field, orderBy: string)
    requires SortedBy(xs, sortBy, orderBy) && SortedBy(ys, sortBy, orderBy)
    requires multiset(xs) == multiset(ys)
    ensures Keys(xs, sortBy) == Keys(ys, sortBy)
    decreases |xs|
  {
    if |xs| == 0 {
      assert |ys| == |multiset(ys)| == 0;
    } else {
      var p := FindHead(xs, ys);
      HeadsShareKey(xs, ys, p, sortBy, orderBy);
      DropMatchingHeads(xs, ys, p);
      DropOneSorted(ys, p, sortBy, orderBy);
      DropOneSorted(xs, 0, sortBy, orderBy);
      SortedPermutationsAgreeOnKeys(Drop(xs, 0), Drop(ys, p), sortBy, orderBy);
      KeysAfterDrop(ys, p, sortBy);
      KeysAfterDrop(xs, 0, sortBy);
    }
  }

  lemma FindHead(xs: seq<Appointment>, ys: seq<Appointment>) returns (p: int)
    requires multiset(xs) == multiset(ys) && |xs| > 0
    ensures 0 <= p < |ys| && ys[p] == xs[0]
  {
    assert xs[0] in multiset(ys);
    p :| 0 <= p < |ys| && ys[p] == xs[0];
  }

  lemma DropMatchingHeads(xs: seq<Appointment>, ys: seq<Appointment>, p: int)
    requires multiset(xs) == multiset(ys)
    requires |xs| > 0 && 0 <= p < |ys| && ys[p] == xs[0]
    ensures multiset(Drop(xs, 0)) == multiset(Drop(ys, p))
  {
    assert xs == [xs[0]] + xs[1..];
    assert Drop(xs, 0) == xs[1..];
    assert ys == ys[..p] + ([xs[0]] + ys[p + 1..]);
    assert multiset(xs) == multiset{xs[0]} + multiset(xs[1..]);
    assert multiset(ys) == multiset(ys[..p]) + multiset{xs[0]} + multiset(ys[p + 1..]);
    assert multiset(ys[..p] + ys[p + 1..]) == multiset(ys[..p]) + multiset(ys[p + 1..]);
    assert multiset(xs[1..]) == multiset(xs) - multiset{xs[0]};
    assert multiset(ys[..p] + ys[p + 1..]) == multiset(ys) - multiset{xs[0]};
  }

  /** The first records of two ordered permutations have the same key, and so does everything up to `p`. */
  lemma HeadsShareKey(xs: seq<Appointment>, ys: seq<Appointment>, p: int, sortBy: Field, orderBy: string)
    requires SortedBy(xs, sortBy, orderBy) && SortedBy(ys, sortBy, orderBy)
    requires multiset(xs) == multiset(ys)
    requires |xs| > 0 && 0 <= p < |ys| && ys[p] == xs[0]
    ensures forall i :: 0 <= i <= p ==> Key(ys[i], sortBy) == Key(xs[0], sortBy)
  {
    var kx, ky := Key(xs[0], sortBy), Key(ys[0], sortBy);
    assert ys[0] in multiset(xs);
    var q :| 0 <= q < |xs| && xs[q] == ys[0];
    LexLessIrreflexive(kx);
    assert InOrder(kx, ky, orderBy) by {
      if q > 0 {
        assert InOrder(Key(xs[0], sortBy), Key(xs[q], sortBy), orderBy);
      }
    }
    assert InOrder(ky, kx, orderBy) by {
      if p > 0 {
        assert InOrder(Key(ys[0], sortBy), Key(ys[p], sortBy), orderBy);
      }
    }
    InOrderAntisymmetric(kx, ky, orderBy);
    SortedBetweenEqualKeys(ys, p, sortBy, orderBy);
  }

  /** In an ordered list whose first and `p`-th keys agree, every key in between agrees too. */
  lemma SortedBetweenEqualKeys(ys: seq<Appointment>, p: int, sortBy: Field, orderBy: string)
    requires SortedBy(ys, sortBy, orderBy) && 0 <= p < |ys|
    requires Key(ys[0], sortBy) == Key(ys[p], sortBy)
    ensures forall i :: 0 <= i <= p ==> Key(ys[i], sortBy) == Key(ys[p], sortBy)
  {
    forall i | 0 < i < p
      ensures Key(ys[i], sortBy) == Key(ys[p], sortBy)
    {
      assert InOrder(Key(ys[0], sortBy), Key(ys[i], sortBy), orderBy);
      assert InOrder(Key(ys[i], sortBy), Key(ys[p], sortBy), orderBy);
      InOrderAntisymmetric(Key(ys[i], sortBy), Key(ys[p], sortBy), orderBy);
    }
  }

  /** Dropping the record at `p` from a list whose first `p + 1` keys agree removes one copy of that key. */
  lemma KeysAfterDrop(ys: seq<Appointment>, p: int, sortBy: Field)
    requires 0 <= p < |ys|
    requires forall i :: 0 <= i <= p ==> Key(ys[i], sortBy) == Key(ys[p], sortBy)
    ensures Keys(ys, sortBy) == [Key(ys[p], sortBy)] + Keys(Drop(ys, p), sortBy)
  {
    var ys' := Drop(ys, p);
    var lhs, rhs := Keys(ys, sortBy), [Key(ys[p], sortBy)] + Keys(ys', sortBy);
    forall i | 0 < i < |ys|
      ensures lhs[i] == rhs[i]
    {
      if i <= p {
        assert ys'[i - 1] == ys[i - 1];
      } else {
        assert ys'[i - 1] == ys[i];
      }
    }
  }

  /** Dropping one record from an ordered list leaves it ordered. */
  lemma DropOneSorted(ys: seq<Appointment>, p: int, sortBy: Field, orderBy: string)
    requires SortedBy(ys, sortBy, orderBy) && 0 <= p < |ys|
    ensures SortedBy(Drop(ys, p), sortBy, orderBy)
  {
    var r := Drop(ys, p);
    forall i, j | 0 <= i < j < |r|
      ensures InOrder(Key(r[i], sortBy), Key(r[j], sortBy), orderBy)
    {
      var i', j' := if i < p then i else i + 1, if j < p then j else j + 1;
      assert r[i] == ys[i'] && r[j] == ys[j'];
    }
  }
}
