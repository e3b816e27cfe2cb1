/** The rows of the table and the list operations the handlers apply to them:
    `findIndex` by id, `filter` by id, the id set, and the single-cell update
    of an inline edit. */
module Records {
  import opened StringTrim

  /** A cell value. Records arrive with a numeric age, but an inline edit
      stores trimmed text into whichever cell was edited, age included. */
  datatype Value = Num(n: int) | Text(s: string)

  datatype User = User(id: int, name: string, age: Value, country: string)

  /** The editable columns. */
  datatype Field = Name | Age | Country

  /** What an edited cell hands to the edit handler: its text content (a
      string or null), or a number. */
  datatype Input = Str(s: string) | Number(n: int) | Null

  predicate HasId(s: seq<User>, id: int) {
    exists i :: 0 <= i < |s| && s[i].id == id
  }

  /** No two records share an id. */
  predicate DistinctIds(s: seq<User>) {
    forall i, j :: 0 <= i < j < |s| ==> s[i].id != s[j].id
  }

  /** `r` is `s` with some elements left out and the rest in their order. */
  predicate IsSubsequence(r: seq<User>, s: seq<User>) {
    if r == [] then true
    else if s == [] then false
    else (r[0] == s[0] && IsSubsequence(r[1..], s[1..])) || IsSubsequence(r, s[1..])
  }

  /** Array.prototype.findIndex on the id: the first index holding `id`, or -1. */
  function FindIndex(s: seq<User>, id: int): (r: int)
    ensures -1 <= r < |s|
    ensures r == -1 <==> !HasId(s, id)
    ensures 0 <= r ==> s[r].id == id && forall j :: 0 <= j < r ==> s[j].id != id
  {
    if s == [] then -1
    else if s[0].id == id then 0
    else
      var k := FindIndex(s[1..], id);
      assert HasId(s[1..], id) ==> HasId(s, id) by {
        if HasId(s[1..], id) {
          var i :| 0 <= i < |s[1..]| && s[1..][i].id == id;
          assert s[i + 1].id == id;
        }
      }
      assert HasId(s, id) ==> HasId(s[1..], id) by {
        if HasId(s, id) {
          var i :| 0 <= i < |s| && s[i].id == id;
          assert s[1..][i - 1].id == id;
        }
      }
      if k == -1 then -1 else k + 1
  }

  /** `filter((item) => item.id !== id)`: every record whose id differs, in
      their order, each with all its occurrences. */
  function Without(s: seq<User>, id: int): (r: seq<User>)
    ensures forall u {:trigger multiset(r)[u]} :: multiset(r)[u] == if u.id == id then 0 else multiset(s)[u]
    ensures IsSubsequence(r, s)
    ensures !HasId(r, id)
  {
    if s == [] then []
    else
      assert s == [s[0]] + s[1..];
      var rest := Without(s[1..], id);
      if s[0].id == id then rest
      else
        assert ([s[0]] + rest)[1..] == rest;
        [s[0]] + rest
  }

  /** `new Set(users.map(item => item.id))`. */
  function Ids(s: seq<User>): (r: set<int>)
    ensures forall x :: x in r <==> HasId(s, x)
  {
    if s == [] then {}
    else
      var rest := Ids(s[1..]);
      assert forall x :: HasId(s, x) <==> x == s[0].id || HasId(s[1..], x) by {
        forall x ensures HasId(s, x) <==> x == s[0].id || HasId(s[1..], x) {
          if HasId(s[1..], x) {
            var i :| 0 <= i < |s[1..]| && s[1..][i].id == x;
            assert s[i + 1].id == x;
          }
          if HasId(s, x) && x != s[0].id {
            var i :| 0 <= i < |s| && s[i].id == x;
            assert s[1..][i - 1].id == x;
          }
        }
      }
      {s[0].id} + rest
  }

  /** The value shown in one column of a record. */
  function FieldValue(u: User, f: Field): Value {
    match f
    case Name => Text(u.name)
    case Age => u.age
    case Country => Text(u.country)
  }

  /** `record[field] = text`: the named column now holds the text; the id and
      the other columns are as before. */
  function SetField(u: User, f: Field, text: string): (r: User)
    ensures r.id == u.id
    ensures FieldValue(r, f) == Text(text)
    ensures forall g :: g != f ==> FieldValue(r, g) == FieldValue(u, g)
  {
    match f
    case Name => u.(name := text)
    case Age => u.(age := Text(text))
    case Country => u.(country := text)
  }

  /** The text an edit stores, `typeof value === 'string' ? value.trim() : ''`:
      trimmed, empty for null or a number, and for a string empty exactly when
      the string is all white space. */
  function EditText(v: Input): (r: string)
    ensures Trimmed(r)
    ensures !v.Str? ==> r == []
    ensures v.Str? ==> |r| <= |v.s| && (r == [] <==> AllWhiteSpace(v.s))
  {
    if v.Str? then
      TrimSplits(v.s);
      Trim(v.s)
    else ""
  }

  /** Two records with the same id and the same value in every column are
      the same record, so SetField's contract fixes its result. */
  lemma SameFieldsSameUser(u: User, w: User)
    requires u.id == w.id
    requires forall f :: FieldValue(u, f) == FieldValue(w, f)
    ensures u == w
  {
    assert FieldValue(u, Name) == FieldValue(w, Name);
    assert FieldValue(u, Age) == FieldValue(w, Age);
    assert FieldValue(u, Country) == FieldValue(w, Country);
  }

  /** With distinct ids, findIndex finds the one row holding the id. */
  lemma FindIndexUnique(s: seq<User>, id: int, j: int)
    requires DistinctIds(s)
    requires 0 <= j < |s| && s[j].id == id
    ensures FindIndex(s, id) == j
  {
  }

  /** The edit text for a string is the trimmed string, and null (or a
      number) clears the cell. */
  lemma EditTextExamples()
    ensures EditText(Str("  France  ")) == "France"
    ensures EditText(Null) == ""
  {
    assert "  France  " == "  " + "France" + "  ";
    TrimUnique("  ", "France", "  ");
  }

  lemma {:induction false} WithoutAbsent(s: seq<User>, id: int)
    requires !HasId(s, id)
    ensures Without(s, id) == s
  {
    if s != [] {
      WithoutAbsent(s[1..], id);
    }
  }

  /** Removing the same id a second time changes nothing. */
  lemma WithoutIdempotent(s: seq<User>, id: int)
    ensures Without(Without(s, id), id) == Without(s, id)
  {
    WithoutAbsent(Without(s, id), id);
  }

  /** With distinct ids, removing the id found at index k removes exactly
      that one record. */
  lemma {:induction false} WithoutOne(s: seq<User>, id: int, k: int)
    requires DistinctIds(s)
    requires 0 <= k < |s| && s[k].id == id
    ensures Without(s, id) == s[..k] + s[k + 1..]
  {
    var t := s[1..];
    if k == 0 {
      assert !HasId(t, id);
      WithoutAbsent(t, id);
    } else {
      WithoutOne(t, id, k - 1);
      WithoutKeeps(s, id, k);
    }
  }

  lemma WithoutKeeps(s: seq<User>, id: int, k: int)
    requires 0 < k < |s| && s[0].id != id
    requires Without(s[1..], id) == s[1..][..k - 1] + s[1..][k..]
    ensures Without(s, id) == s[..k] + s[k + 1..]
  {
    var t := s[1..];
    assert s[..k] + s[k + 1..] == [s[0]] + (t[..k - 1] + t[k..]) by {
      assert s[..k] == [s[0]] + t[..k - 1];
      assert s[k + 1..] == t[k..];
    }
  }

  lemma {:induction false} WithoutDistinct(s: seq<User>, id: int)
    requires DistinctIds(s)
    ensures DistinctIds(Without(s, id))
  {
    if s != [] {
      WithoutDistinct(s[1..], id);
      var rest := Without(s[1..], id);
      if s[0].id != id {
        var r := [s[0]] + rest;
        forall i, j | 0 <= i < j < |r| ensures r[i].id != r[j].id {
          if i == 0 {
            assert r[j] == rest[j - 1];
            assert rest[j - 1] in multiset(rest);
            assert rest[j - 1] in s[1..];
          }
        }
      }
    }
  }

  /** With distinct ids the id set has one element per record. */
  lemma {:induction false} IdsCount(s: seq<User>)
    requires DistinctIds(s)
    ensures |Ids(s)| == |s|
  {
    if s != [] {
      IdsCount(s[1..]);
    }
  }
}
