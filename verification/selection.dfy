/** The two selection handlers: toggling one id, and the select-all checkbox,
    which compares the number of selected ids with the number of rows. */
module Selection {
  import opened Records

  /** handleSelectItem: `itemId` changes membership, every other id keeps its. */
  function Toggled(selected: set<int>, itemId: int): (r: set<int>)
    ensures itemId in r <==> itemId !in selected
    ensures forall y :: y != itemId ==> (y in r <==> y in selected)
  {
    if itemId in selected then selected - {itemId} else selected + {itemId}
  }

  /** handleSelectAll: when as many ids are selected as there are rows the
      selection is cleared; otherwise it becomes the ids of all rows. */
  function ToggledAll(selected: set<int>, users: seq<User>): (r: set<int>)
    ensures |selected| == |users| ==> r == {}
    ensures |selected| != |users| ==> forall x :: x in r <==> HasId(users, x)
  {
    if |selected| == |users| then {} else Ids(users)
  }

  /** Toggling the same id twice restores the selection. */
  lemma ToggledTwice(selected: set<int>, itemId: int)
    ensures Toggled(Toggled(selected, itemId), itemId) == selected
  {
  }

  /** A subset as large as its superset is the superset. */
  lemma SubsetOfSameSize(a: set<int>, b: set<int>)
    requires a <= b && |a| == |b|
    ensures a == b
  {
    var d := b - a;
    assert b == a + d && a * d == {};
    assert |b| == |a| + |d|;
  }

  /** Clicking select-all on a partial selection selects every row; with
      distinct ids that makes the counts equal, so a second click clears. */
  lemma SelectAllThenClear(selected: set<int>, users: seq<User>)
    requires DistinctIds(users)
    requires |selected| != |users|
    ensures ToggledAll(selected, users) == Ids(users)
    ensures ToggledAll(ToggledAll(selected, users), users) == {}
  {
    IdsCount(users);
  }

  /** While the selection holds only ids of listed rows and ids are distinct,
      the count test means exactly "every row is selected". */
  lemma CountTestMeansAllSelected(selected: set<int>, users: seq<User>)
    requires DistinctIds(users)
    requires selected <= Ids(users)
    ensures |selected| == |users| <==> selected == Ids(users)
  {
    IdsCount(users);
    if |selected| == |users| {
      SubsetOfSameSize(selected, Ids(users));
    }
  }

  /** Removing a row does not unselect its id, and a stale id fools the count
      test: with rows 1 and 2 and the selection {1, 3}, select-all clears
      the selection although row 2 was never selected. */
  lemma StaleIdDefeatsCountTest()
    ensures var users := [User(1, "Ana", Num(30), "Peru"), User(2, "Lee", Num(25), "Chile")];
      var selected := {1, 3};
      |selected| == |users| && 2 !in selected && ToggledAll(selected, users) == {}
  {
    var selected: set<int> := {1, 3};
    assert selected == {1} + {3};
  }
}
