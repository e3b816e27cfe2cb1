/** The state of the App component and its event handlers. The three state
    slots are fields; each handler replaces one or two of them, and every
    handler keeps the ids of the rows distinct. */
module Table {
  import opened Records
  import opened AgeSort
  import opened Selection

  /** How an edit ends: the row was updated, or looking up a missing id
      raised a TypeError and nothing changed. */
  datatype Outcome = Done | TypeError

  class RecordTable {
    /** internalUsers: the rows, in display order. */
    var users: seq<User>
    /** sortOrder: true for 'asc', false for 'desc'. */
    var asc: bool
    /** selectedItems: the ids whose checkbox is ticked. */
    var selected: set<int>

    ghost predicate Valid()
      reads this
    {
      DistinctIds(users)
    }

    /** The initial state: no rows, ascending order, nothing selected. */
    constructor ()
      ensures Valid()
      ensures users == [] && asc && selected == {}
    {
      users := [];
      asc := true;
      selected := {};
    }

    /** handleRemoveItem: keeps the rows whose id differs. The selection is
        left alone, so the removed id may stay selected. */
    method RemoveItem(id: int)
      requires Valid()
      modifies this
      ensures Valid()
      ensures users == Without(old(users), id)
      ensures !HasId(users, id)
      ensures asc == old(asc) && selected == old(selected)
    {
      WithoutDistinct(users, id);
      users := Without(users, id);
    }

    /** The callback of the initial fetch: `setInternalUsers(data)` replaces
        the rows with the fetched list, whose ages are numbers. */
    method Load(data: seq<User>)
      requires Valid()
      requires DistinctIds(data)
      modifies this
      ensures Valid()
      ensures users == data
      ensures asc == old(asc) && selected == old(selected)
    {
      users := data;
    }

    /** handleFormSubmit: appends one row built from the form's values. An
        input element's value is text, so the age is stored as text. The id
        is supplied by the caller and must not be in use. */
    method SubmitForm(freshId: int, name: string, age: string, country: string)
      requires Valid()
      requires !HasId(users, freshId)
      modifies this
      ensures Valid()
      ensures |users| == |old(users)| + 1
      ensures users[..|old(users)|] == old(users)
      ensures users[|old(users)|] == User(freshId, name, Text(age), country)
      ensures asc == old(asc) && selected == old(selected)
    {
      users := users + [User(freshId, name, Text(age), country)];
    }

    /** handleSortByAge: sorts with the direction held before the call, then
        flips the direction for the next click. */
    method SortByAge()
      requires Valid()
      requires AgesNumeric(users)
      modifies this
      ensures Valid()
      ensures users == ToSorted(old(users), old(asc))
      ensures asc == !old(asc) && selected == old(selected)
    {
      var order := asc;
      asc := !asc;
      ToSortedDistinct(users, order);
      users := ToSorted(users, order);
    }

    /** handleFieldChange: writes the edit text into one column of the row
        holding `itemId`. When no row holds it, findIndex gives -1 and the
        property lookup on the missing row throws. */
    method ChangeField(itemId: int, field: Field, value: Input) returns (outcome: Outcome)
      requires Valid()
      modifies this
      ensures Valid()
      ensures outcome == TypeError <==> !HasId(old(users), itemId)
      ensures outcome == TypeError ==> users == old(users)
      ensures outcome == Done ==>
        var k := FindIndex(old(users), itemId);
        0 <= k < |users| == |old(users)| &&
        users[k] == SetField(old(users)[k], field, EditText(value)) &&
        forall j :: 0 <= j < |users| && j != k ==> users[j] == old(users)[j]
      ensures asc == old(asc) && selected == old(selected)
    {
      var idx := FindIndex(users, itemId);
      if idx < 0 {
        return TypeError;
      }
      var temp := users;
      temp := temp[idx := SetField(temp[idx], field, EditText(value))];
      users := temp;
      outcome := Done;
    }

    /** handleSelectItem: copies the selection and adds or deletes `itemId`. */
    method SelectItem(itemId: int)
      requires Valid()
      modifies this
      ensures Valid()
      ensures selected == Toggled(old(selected), itemId)
      ensures users == old(users) && asc == old(asc)
    {
      var temp := selected;
      if itemId in selected {
        temp := temp - {itemId};
      } else {
        temp := temp + {itemId};
      }
      selected := temp;
    }

    /** handleSelectAll: clears the selection when its size equals the number
        of rows, and selects every row otherwise. */
    method SelectAll()
      requires Valid()
      modifies this
      ensures Valid()
      ensures selected == ToggledAll(old(selected), old(users))
      ensures users == old(users) && asc == old(asc)
    {
      if |selected| == |users| {
        selected := {};
      } else {
        selected := Ids(users);
      }
    }
  }

  /** Load one row, add one through the form, then load two rows with
      numeric ages, sort and remove one: the state after each step follows
      from the handlers' contracts. */
  method LoadAddSortRemove() {
    var ana := User(1, "Ana", Num(30), "Peru");
    var lee := User(2, "Lee", Num(25), "Chile");
    var table := new RecordTable();
    table.Load([ana]);
    table.SubmitForm(2, "Lee", "25", "Chile");
    assert table.users == [ana, User(2, "Lee", Text("25"), "Chile")];
    table.Load([ana, lee]);
    table.SortByAge();
    ToSortedCons(lee, [], true);
    assert [lee] + [] == [lee];
    InsertCons(ana, lee, [], true);
    ToSortedCons(ana, [lee], true);
    assert [ana] + [lee] == [ana, lee];
    assert table.users == [lee, ana] && !table.asc;
    table.RemoveItem(1);
    assert Without([ana], 1) == [];
    assert table.users == [lee];
  }

  /** A removed row's id stays selected and later makes select-all clear the
      selection although one row is not selected. */
  method StaleSelection() {
    var rows := [User(1, "Ana", Num(30), "Peru"), User(2, "Lee", Num(25), "Chile"), User(3, "Kim", Num(41), "Korea")];
    var table := new RecordTable();
    table.Load(rows);
    table.SelectItem(3);
    table.RemoveItem(3);
    WithoutOne(rows, 3, 2);
    table.SelectItem(1);
    assert table.selected == {1, 3} && |table.users| == 2;
    table.SelectAll();
    assert table.selected == {};
  }
}
