/** What sort.Slice gives: the same elements, none before one it should follow. */
module Sorting {
  import opened Text
  import opened Document

  /** Not being before is transitive, as sort.Slice asks of its comparison. */
  ghost predicate Ranks<T(!new)>(before: (T, T) -> bool) {
    && (forall a, b :: before(a, b) ==> !before(b, a))
    && (forall a, b, c :: !before(b, a) && !before(c, b) ==> !before(c, a))
  }

  ghost predicate Sorted<T(!new)>(before: (T, T) -> bool, s: seq<T>) {
    forall i, j :: 0 <= i < j < |s| ==> !before(s[j], s[i])
  }

  function Insert<T>(before: (T, T) -> bool, x: T, s: seq<T>): (r: seq<T>)
    ensures multiset(r) == multiset(s) + multiset{x}
  {
    if s == [] then [x]
    else if before(x, s[0]) then [x] + s
    else
      assert s == [s[0]] + s[1..];
      [s[0]] + Insert(before, x, s[1..])
  }

  function SortBy<T>(before: (T, T) -> bool, s: seq<T>): (r: seq<T>)
    ensures multiset(r) == multiset(s)
  {
    if s == [] then []
    else
      assert s == [s[0]] + s[1..];
      Insert(before, s[0], SortBy(before, s[1..]))
  }

  lemma {:induction false} InsertSorts<T(!new)>(before: (T, T) -> bool, x: T, s: seq<T>)
    requires Ranks(before) && Sorted(before, s)
    ensures Sorted(before, Insert(before, x, s))
  {
    if s != [] && before(x, s[0]) {
      forall j | 0 <= j < |s| ensures !before(s[j], x) {
        assert !before(s[0], x) && (j == 0 || !before(s[j], s[0]));
      }
    } else if s != [] {
      var rest := Insert(before, x, s[1..]);
      InsertSorts(before, x, s[1..]);
      forall j | 0 <= j < |rest| ensures !before(rest[j], s[0]) {
        assert rest[j] in multiset(rest);
        if rest[j] != x {
          assert rest[j] in multiset(s[1..]);
          var k :| 0 <= k < |s[1..]| && s[1..][k] == rest[j];
          assert s[k + 1] == rest[j];
        }
      }
    }
  }

  lemma {:induction false} SortBySorts<T(!new)>(before: (T, T) -> bool, s: seq<T>)
    requires Ranks(before)
    ensures Sorted(before, SortBy(before, s))
  {
    if s != [] {
      SortBySorts(before, s[1..]);
      InsertSorts(before, s[0], SortBy(before, s[1..]));
    }
  }

  lemma LessRanks()
    ensures Ranks(Less)
  {
    forall a, b ensures Less(a, b) ==> !Less(b, a) {
      LessTotal(a, b);
    }
    forall a, b, c | !Less(b, a) && !Less(c, b) ensures !Less(c, a) {
      LessTotal(b, a);
      LessTotal(c, b);
      if Less(c, a) && Less(a, b) {
        LessTransitive(c, a, b);
      }
    }
  }

  lemma BeforeRanks()
    ensures Ranks(Before)
  {
    LessRanks();
    forall a: Ref, b: Ref, c: Ref | !Before(b, a) && !Before(c, b) ensures !Before(c, a) {
      assert !Less(b.ToString(), a.ToString()) && !Less(c.ToString(), b.ToString());
    }
  }

  lemma SameMembers<T>(s: seq<T>, r: seq<T>)
    requires multiset(s) == multiset(r)
    ensures |s| == |r|
    ensures forall x :: x in s <==> x in r
    ensures Distinct(s) <==> Distinct(r)
  {
    assert |s| == |multiset(s)| && |r| == |multiset(r)|;
    forall x ensures x in s <==> x in r {
      assert x in s <==> x in multiset(s);
      assert x in r <==> x in multiset(r);
    }
    DistinctIsOnce(s);
    DistinctIsOnce(r);
  }

  ghost predicate Distinct<T>(s: seq<T>) {
    forall i, j :: 0 <= i < j < |s| ==> s[i] != s[j]
  }

  lemma {:induction false} DistinctIsOnce<T>(s: seq<T>)
    ensures Distinct(s) <==> forall x :: x in multiset(s) ==> multiset(s)[x] == 1
  {
    if s != [] {
      var init, last := s[..|s| - 1], s[|s| - 1];
      DistinctIsOnce(init);
      assert s == init + [last];
      assert multiset(s) == multiset(init) + multiset{last};
      if Distinct(s) {
        assert Distinct(init);
        assert last !in init;
        assert last !in multiset(init);
      } else if Distinct(init) {
        assert last in init by {
          var i, j :| 0 <= i < j < |s| && s[i] == s[j];
          assert s[i] == init[i];
        }
        assert last in multiset(init);
        assert multiset(s)[last] >= 2;
      } else {
        var x :| x in multiset(init) && multiset(init)[x] != 1;
        assert x in multiset(s) && multiset(s)[x] != 1;
      }
    }
  }

  ghost predicate Total<T(!new)>(before: (T, T) -> bool) {
    forall a, b :: before(a, b) || before(b, a) || a == b
  }

  lemma BeforeIsTotal()
    ensures Total(Before)
  {
    forall a: Ref, b: Ref ensures Before(a, b) || Before(b, a) || a == b {
      BeforeTotal(a, b);
    }
  }

  /** Where no two elements tie, sorting has one outcome. */
  lemma {:induction false} SortedUnique<T(!new)>(before: (T, T) -> bool, s: seq<T>, r: seq<T>)
    requires Ranks(before) && Total(before)
    requires multiset(s) == multiset(r) && Sorted(before, s) && Sorted(before, r)
    ensures s == r
  {
    SameMembers(s, r);
    if s != [] {
      SameFirst(before, s, r);
      SameTail(s, r);
      SortedUnique(before, s[1..], r[1..]);
    }
  }

  lemma SameFirst<T(!new)>(before: (T, T) -> bool, s: seq<T>, r: seq<T>)
    requires Ranks(before) && Total(before)
    requires s != [] && r != [] && r[0] in s && s[0] in r && Sorted(before, s) && Sorted(before, r)
    ensures s[0] == r[0]
  {
    var i :| 0 <= i < |s| && s[i] == r[0];
    var j :| 0 <= j < |r| && r[j] == s[0];
    assert !before(r[0], s[0]) && !before(s[0], r[0]);
  }

  lemma SameTail<T>(s: seq<T>, r: seq<T>)
    requires s != [] && r != [] && s[0] == r[0] && multiset(s) == multiset(r)
    ensures multiset(s[1..]) == multiset(r[1..])
    ensures s[1..] == r[1..] ==> s == r
  {
    assert s == [s[0]] + s[1..] && r == [r[0]] + r[1..];
    assert multiset(s[1..]) == multiset(s) - multiset{s[0]};
    assert multiset(r[1..]) == multiset(r) - multiset{r[0]};
  }
}
