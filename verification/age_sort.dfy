/** The reordering done by the sort handler: `toSorted` with the comparator
    `a.age - b.age` (ascending) or `b.age - a.age` (descending). ECMA-262
    requires toSorted to be stable (section 23.1.3.34 of ECMAScript 2023), so
    any conforming implementation returns what the stable insertion sort
    below returns. */
module AgeSort {
  import opened Records

  /** The comparator is only modelled on numeric ages. */
  predicate AgesNumeric(s: seq<User>) {
    forall u :: u in s ==> u.age.Num?
  }

  /** The comparator handed to toSorted: negative when `a` belongs before `b`. */
  function Compare(a: User, b: User, asc: bool): int
    requires a.age.Num? && b.age.Num?
  {
    if asc then a.age.n - b.age.n else b.age.n - a.age.n
  }

  /** The comparator puts a younger record first for 'asc' and an older one
      first for 'desc', ties exactly records of equal age, and is
      antisymmetric. */
  lemma CompareMeaning(a: User, b: User, asc: bool)
    requires a.age.Num? && b.age.Num?
    ensures Compare(a, b, asc) < 0 <==> (if asc then a.age.n < b.age.n else a.age.n > b.age.n)
    ensures Compare(a, b, asc) == 0 <==> a.age == b.age
    ensures Compare(b, a, asc) == -Compare(a, b, asc)
  {
  }

  /** No pair of records is out of order under the comparator. */
  predicate Sorted(s: seq<User>, asc: bool)
    requires AgesNumeric(s)
  {
    forall i, j :: 0 <= i < j < |s| ==> Compare(s[i], s[j], asc) <= 0
  }

  /** The records of `s` with age `a`, in their order. */
  function WithAge(s: seq<User>, a: Value): seq<User> {
    if s == [] then []
    else (if s[0].age == a then [s[0]] else []) + WithAge(s[1..], a)
  }

  /** Puts `x` in front of the first record it does not sort after. */
  function Insert(x: User, s: seq<User>, asc: bool): (r: seq<User>)
    requires x.age.Num? && AgesNumeric(s)
    ensures |r| == |s| + 1
    ensures forall u :: u in r <==> u == x || u in s
  {
    if s == [] then [x]
    else if Compare(x, s[0], asc) <= 0 then [x] + s
    else
      assert s == [s[0]] + s[1..];
      [s[0]] + Insert(x, s[1..], asc)
  }

  /** `users.toSorted(comparator)`: a new list holding the same records. */
  function ToSorted(s: seq<User>, asc: bool): (r: seq<User>)
    requires AgesNumeric(s)
    ensures |r| == |s|
    ensures forall u :: u in r <==> u in s
  {
    if s == [] then []
    else
      assert s == [s[0]] + s[1..];
      Insert(s[0], ToSorted(s[1..], asc), asc)
  }

  lemma {:induction false} InsertPermutes(x: User, s: seq<User>, asc: bool)
    requires x.age.Num? && AgesNumeric(s)
    ensures multiset(Insert(x, s, asc)) == multiset(s) + multiset{x}
  {
    if s != [] && Compare(x, s[0], asc) > 0 {
      InsertPermutes(x, s[1..], asc);
      assert s == [s[0]] + s[1..];
    }
  }

  lemma {:induction false} InsertSorted(x: User, s: seq<User>, asc: bool)
    requires x.age.Num? && AgesNumeric(s) && Sorted(s, asc)
    ensures AgesNumeric(Insert(x, s, asc)) && Sorted(Insert(x, s, asc), asc)
  {
    var r := Insert(x, s, asc);
    if s != [] && Compare(x, s[0], asc) > 0 {
      var rest := Insert(x, s[1..], asc);
      InsertSorted(x, s[1..], asc);
      forall j | 0 <= j < |rest| ensures Compare(s[0], rest[j], asc) <= 0 {
        assert rest[j] in rest;
        if rest[j] != x {
          var k :| 1 <= k < |s| && s[k] == rest[j];
        }
      }
      forall i, j | 0 <= i < j < |r| ensures Compare(r[i], r[j], asc) <= 0 {
        if i > 0 {
          assert r[i] == rest[i - 1] && r[j] == rest[j - 1];
        }
      }
    }
  }

  lemma WithAgeCons(y: User, t: seq<User>, a: Value)
    ensures WithAge([y] + t, a) == (if y.age == a then [y] else []) + WithAge(t, a)
  {
    assert ([y] + t)[0] == y && ([y] + t)[1..] == t;
  }

  lemma SortedTail(s: seq<User>, asc: bool)
    requires AgesNumeric(s) && Sorted(s, asc) && s != []
    ensures AgesNumeric(s[1..]) && Sorted(s[1..], asc)
  {
    forall i, j | 0 <= i < j < |s| - 1 ensures Compare(s[1..][i], s[1..][j], asc) <= 0 {
      assert s[1..][i] == s[i + 1] && s[1..][j] == s[j + 1];
    }
  }

  /** Insertion keeps the records of every age in the order they had, with
      `x` in front of those that share its age. */
  lemma {:induction false} InsertWithAge(x: User, s: seq<User>, asc: bool, a: Value)
    requires x.age.Num? && AgesNumeric(s) && Sorted(s, asc)
    ensures WithAge(Insert(x, s, asc), a) == (if x.age == a then [x] else []) + WithAge(s, a)
  {
    if s == [] {
      WithAgeCons(x, [], a);
      assert [x] + [] == [x];
    } else if Compare(x, s[0], asc) <= 0 {
      WithAgeCons(x, s, a);
    } else {
      SortedTail(s, asc);
      InsertWithAge(x, s[1..], asc, a);
      InsertWithAgeStep(x, s, asc, a);
    }
  }

  lemma InsertWithAgeStep(x: User, s: seq<User>, asc: bool, a: Value)
    requires x.age.Num? && AgesNumeric(s) && s != [] && AgesNumeric(s[1..])
    requires Compare(x, s[0], asc) > 0
    requires WithAge(Insert(x, s[1..], asc), a) == (if x.age == a then [x] else []) + WithAge(s[1..], a)
    ensures WithAge(Insert(x, s, asc), a) == (if x.age == a then [x] else []) + WithAge(s, a)
  {
    var rest := Insert(x, s[1..], asc);
    assert Insert(x, s, asc) == [s[0]] + rest;
    WithAgeCons(s[0], rest, a);
    WithAgeCons(s[0], s[1..], a);
    assert s == [s[0]] + s[1..];
    if x.age == a {
      assert s[0].age != a;
    }
  }

  lemma {:induction false} InsertDistinct(x: User, s: seq<User>, asc: bool)
    requires x.age.Num? && AgesNumeric(s)
    requires DistinctIds(s) && !HasId(s, x.id)
    ensures DistinctIds(Insert(x, s, asc))
  {
    var r := Insert(x, s, asc);
    if s != [] && Compare(x, s[0], asc) > 0 {
      var rest := Insert(x, s[1..], asc);
      InsertDistinct(x, s[1..], asc);
      forall j | 0 <= j < |rest| ensures rest[j].id != s[0].id {
        assert rest[j] in rest;
        if rest[j] != x {
          var k :| 1 <= k < |s| && s[k] == rest[j];
        }
      }
      forall i, j | 0 <= i < j < |r| ensures r[i].id != r[j].id {
        if i > 0 {
          assert r[i] == rest[i - 1] && r[j] == rest[j - 1];
        }
      }
    } else if s != [] {
      forall i, j | 0 <= i < j < |r| ensures r[i].id != r[j].id {
        if i > 0 {
          assert r[i] == s[i - 1] && r[j] == s[j - 1];
        }
      }
    }
  }

  lemma {:induction false} ToSortedPermutes(s: seq<User>, asc: bool)
    requires AgesNumeric(s)
    ensures multiset(ToSorted(s, asc)) == multiset(s)
  {
    if s != [] {
      ToSortedPermutes(s[1..], asc);
      InsertPermutes(s[0], ToSorted(s[1..], asc), asc);
      assert s == [s[0]] + s[1..];
    }
  }

  lemma {:induction false} ToSortedSorted(s: seq<User>, asc: bool)
    requires AgesNumeric(s)
    ensures AgesNumeric(ToSorted(s, asc)) && Sorted(ToSorted(s, asc), asc)
  {
    if s != [] {
      ToSortedSorted(s[1..], asc);
      InsertSorted(s[0], ToSorted(s[1..], asc), asc);
    }
  }

  lemma {:induction false} ToSortedStable(s: seq<User>, asc: bool, a: Value)
    requires AgesNumeric(s)
    ensures WithAge(ToSorted(s, asc), a) == WithAge(s, a)
  {
    if s != [] {
      var t := ToSorted(s[1..], asc);
      ToSortedStable(s[1..], asc, a);
      ToSortedSorted(s[1..], asc);
      InsertWithAge(s[0], t, asc, a);
      WithAgeCons(s[0], s[1..], a);
      assert s == [s[0]] + s[1..];
    }
  }

  /** What toSorted promises: a permutation of the input, non-decreasing by
      age for the ascending comparator and non-increasing for the descending
      one, and stable: the records of each age keep their relative order. */
  lemma ToSortedCorrect(s: seq<User>, asc: bool)
    requires AgesNumeric(s)
    ensures var r := ToSorted(s, asc);
      multiset(r) == multiset(s) &&
      AgesNumeric(r) && Sorted(r, asc) &&
      (asc ==> forall i, j :: 0 <= i < j < |r| ==> r[i].age.n <= r[j].age.n) &&
      (!asc ==> forall i, j :: 0 <= i < j < |r| ==> r[i].age.n >= r[j].age.n) &&
      (forall a :: WithAge(r, a) == WithAge(s, a))
  {
    ToSortedPermutes(s, asc);
    ToSortedSorted(s, asc);
    forall a ensures WithAge(ToSorted(s, asc), a) == WithAge(s, a) {
      ToSortedStable(s, asc, a);
    }
  }

  /** Sorting never makes two records share an id. */
  lemma {:induction false} ToSortedDistinct(s: seq<User>, asc: bool)
    requires AgesNumeric(s) && DistinctIds(s)
    ensures DistinctIds(ToSorted(s, asc))
  {
    if s != [] {
      var t := ToSorted(s[1..], asc);
      ToSortedDistinct(s[1..], asc);
      forall i | 0 <= i < |t| ensures t[i].id != s[0].id {
        assert t[i] in s[1..];
      }
      InsertDistinct(s[0], t, asc);
    }
  }

  lemma ToSortedCons(x: User, s: seq<User>, asc: bool)
    requires x.age.Num? && AgesNumeric(s)
    ensures AgesNumeric([x] + s)
    ensures ToSorted([x] + s, asc) == Insert(x, ToSorted(s, asc), asc)
  {
    assert ([x] + s)[0] == x && ([x] + s)[1..] == s;
  }

  lemma InsertCons(x: User, y: User, s: seq<User>, asc: bool)
    requires x.age.Num? && y.age.Num? && AgesNumeric(s)
    ensures AgesNumeric([y] + s)
    ensures Insert(x, [y] + s, asc) ==
      if Compare(x, y, asc) <= 0 then [x, y] + s else [y] + Insert(x, s, asc)
  {
    assert ([y] + s)[0] == y && ([y] + s)[1..] == s;
  }

  /** Ages 30, 25, 30, 20 sort ascending to 20, 25, 30, 30, the two
      30-year-olds in their original order. */
  lemma SortAscendingExample(a: User, b: User, c: User, d: User)
    requires a.age == Num(30) && b.age == Num(25) && c.age == Num(30) && d.age == Num(20)
    ensures ToSorted([a, b, c, d], true) == [d, b, a, c]
  {
    ToSortedCons(d, [], true);
    assert [d] + [] == [d];
    InsertCons(c, d, [], true);
    ToSortedCons(c, [d], true);
    assert [c] + [d] == [c, d];
    InsertCons(b, d, [c], true);
    InsertCons(b, c, [], true);
    ToSortedCons(b, [c, d], true);
    assert [b] + [c, d] == [b, c, d];
    InsertCons(a, d, [b, c], true);
    InsertCons(a, b, [c], true);
    InsertCons(a, c, [], true);
    ToSortedCons(a, [b, c, d], true);
    assert [a] + [b, c, d] == [a, b, c, d];
  }

  /** Sorting that result descending gives 30, 30, 25, 20, the two
      30-year-olds keeping the order they had. */
  lemma SortDescendingExample(a: User, b: User, c: User, d: User)
    requires a.age == Num(30) && b.age == Num(25) && c.age == Num(30) && d.age == Num(20)
    ensures ToSorted([d, b, a, c], false) == [a, c, b, d]
  {
    ToSortedCons(c, [], false);
    assert [c] + [] == [c];
    InsertCons(a, c, [], false);
    ToSortedCons(a, [c], false);
    assert [a] + [c] == [a, c];
    InsertCons(b, a, [c], false);
    InsertCons(b, c, [], false);
    ToSortedCons(b, [a, c], false);
    assert [b] + [a, c] == [b, a, c];
    InsertCons(d, a, [c, b], false);
    InsertCons(d, c, [b], false);
    InsertCons(d, b, [], false);
    ToSortedCons(d, [b, a, c], false);
    assert [d] + [b, a, c] == [d, b, a, c];
  }
}
