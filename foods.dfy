/**
 * The menu item record and the pure list operations the dashboard builds its
 * new `foods` list from: JavaScript's `findIndex`, the copy-and-overwrite of one
 * slot, and `filter` by id.
 */
module Foods {

  /** One menu entry (`IFoodPlate`). The price stays text: it is never parsed. */
  datatype Food = Food(
    id: int,
    name: string,
    image: string,
    price: string,
    description: string,
    available: bool)

  /** What the add and edit forms hand over: a food without `id` and `available`. */
  datatype Draft = Draft(name: string, image: string, price: string, description: string)

  /** Body of the create request: the server assigns the id. */
  datatype NewFood = NewFood(
    name: string,
    image: string,
    price: string,
    description: string,
    available: bool)

  /** A replace request: `PUT /foods/{id}` with a whole record as body. */
  datatype PutRequest = PutRequest(id: int, body: Food)

  /** The fields of a record that the forms edit. */
  function DraftOf(f: Food): Draft
  {
    Draft(f.name, f.image, f.price, f.description)
  }

  /** The create request sent for a draft: the draft's four fields, with `available` forced on. */
  function CreateBody(d: Draft): (b: NewFood)
    ensures b.available
    ensures Draft(b.name, b.image, b.price, b.description) == d
  {
    NewFood(d.name, d.image, d.price, d.description, true)
  }

  /**
   * The record sent by the edit form: identity and availability come from the
   * record being edited, everything else from the draft.
   */
  function UpdateBody(editing: Food, d: Draft): (f: Food)
    ensures f.id == editing.id && f.available == editing.available
    ensures DraftOf(f) == d
    ensures d == DraftOf(editing) ==> f == editing
  {
    Food(editing.id, d.name, d.image, d.price, d.description, editing.available)
  }

  /** Some record in the list carries this id. */
  predicate HasId(foods: seq<Food>, id: int)
  {
    exists i :: 0 <= i < |foods| && foods[i].id == id
  }

  /** No two records in the list share an id. */
  predicate UniqueIds(foods: seq<Food>)
  {
    forall i, j :: 0 <= i < j < |foods| ==> foods[i].id != foods[j].id
  }

  /**
   * `foods.findIndex(item => item.id === id)`: the first index whose record has
   * the id, or -1 when there is none.
   */
  function FindIndex(foods: seq<Food>, id: int): (i: int)
    ensures -1 <= i < |foods|
    ensures i == -1 <==> !HasId(foods, id)
    ensures 0 <= i ==> foods[i].id == id
    ensures 0 <= i ==> forall j :: 0 <= j < i ==> foods[j].id != id
    decreases |foods|
  {
    if |foods| == 0 then -1
    else if foods[0].id == id then 0
    else
      var k := FindIndex(foods[1..], id);
      if k == -1 then -1 else k + 1
  }

  /**
   * The list after `updated = [...foods]; updated[FindIndex(foods, id)] = x`.
   * Writing at index -1 touches no element of a JavaScript array, so an absent
   * id leaves the list as it was.
   */
  function ReplaceById(foods: seq<Food>, id: int, x: Food): (r: seq<Food>)
    ensures |r| == |foods|
    ensures !HasId(foods, id) ==> r == foods
    ensures HasId(foods, id) ==> r[FindIndex(foods, id)] == x
    ensures forall k :: 0 <= k < |foods| && k != FindIndex(foods, id) ==> r[k] == foods[k]
  {
    var i := FindIndex(foods, id);
    if i == -1 then foods else foods[i := x]
  }

  /** With unique ids, replacing by id swaps out exactly the record with that id, wherever it is. */
  lemma ReplaceByIdUnique(foods: seq<Food>, id: int, x: Food)
    requires UniqueIds(foods)
    ensures forall k :: 0 <= k < |foods| ==>
      ReplaceById(foods, id, x)[k] == (if foods[k].id == id then x else foods[k])
  {
  }

  /**
   * Replacing a record by one that carries the same id keeps the ids unique
   * (the server answers a `PUT /foods/{id}` with that record).
   */
  lemma ReplaceByIdKeepsUnique(foods: seq<Food>, id: int, x: Food)
    requires UniqueIds(foods)
    requires x.id == id
    ensures UniqueIds(ReplaceById(foods, id, x))
  {
  }

  /** `foods.filter(food => food.id !== id)`. */
  function RemoveId(foods: seq<Food>, id: int): (r: seq<Food>)
    ensures |r| <= |foods|
    ensures forall f :: f in r <==> f in foods && f.id != id
    decreases |foods|
  {
    if |foods| == 0 then []
    else (if foods[0].id != id then [foods[0]] else []) + RemoveId(foods[1..], id)
  }

  /** Filtering a list that lacks the id gives back the same list. */
  lemma {:induction false} RemoveIdAbsent(foods: seq<Food>, id: int)
    requires !HasId(foods, id)
    ensures RemoveId(foods, id) == foods
    decreases |foods|
  {
    if |foods| > 0 {
      assert foods[0].id != id;
      assert !HasId(foods[1..], id);
      RemoveIdAbsent(foods[1..], id);
      assert foods == [foods[0]] + foods[1..];
    }
  }

  /** Filtering distributes over concatenation: the survivors keep their order. */
  lemma {:induction false} RemoveIdConcat(a: seq<Food>, b: seq<Food>, id: int)
    ensures RemoveId(a + b, id) == RemoveId(a, id) + RemoveId(b, id)
    decreases |a|
  {
    if |a| == 0 {
      assert a + b == b;
    } else {
      assert (a + b)[1..] == a[1..] + b;
      RemoveIdConcat(a[1..], b, id);
    }
  }

  /**
   * `r` is `s` with some entries dropped: matching `r` against `s` from the
   * front, every entry of `r` is found, in order.
   */
  ghost predicate IsSubsequence(r: seq<Food>, s: seq<Food>)
    decreases |s|
  {
    r == [] || (s != [] && if r[0] == s[0] then IsSubsequence(r[1..], s[1..]) else IsSubsequence(r, s[1..]))
  }

  /** Deleting never reorders: the surviving records form a subsequence of the old list. */
  lemma {:induction false} RemoveIdIsSubsequence(foods: seq<Food>, id: int)
    ensures IsSubsequence(RemoveId(foods, id), foods)
    decreases |foods|
  {
    if |foods| > 0 {
      var r := RemoveId(foods, id);
      var rest := RemoveId(foods[1..], id);
      RemoveIdIsSubsequence(foods[1..], id);
      if foods[0].id != id {
        assert r == [foods[0]] + rest;
        assert r[1..] == rest;
      } else {
        assert r == rest;
        if r != [] {
          assert r[0] in r;
        }
      }
    }
  }

  /** Deleting keeps the ids unique. */
  lemma {:induction false} RemoveIdKeepsUnique(foods: seq<Food>, id: int)
    requires UniqueIds(foods)
    ensures UniqueIds(RemoveId(foods, id))
    decreases |foods|
  {
    if |foods| > 0 {
      var rest := RemoveId(foods[1..], id);
      assert UniqueIds(foods[1..]) by {
        forall i, j | 0 <= i < j < |foods[1..]| ensures foods[1..][i].id != foods[1..][j].id {
          assert foods[1..][i] == foods[i + 1] && foods[1..][j] == foods[j + 1];
        }
      }
      RemoveIdKeepsUnique(foods[1..], id);
      if foods[0].id != id {
        var r := [foods[0]] + rest;
        assert RemoveId(foods, id) == r;
        forall j | 0 < j < |r| ensures r[0].id != r[j].id {
          assert r[j] in rest;
          assert r[j] in foods[1..];
          var k :| 0 <= k < |foods[1..]| && foods[1..][k] == r[j];
          assert foods[k + 1] == r[j];
        }
      }
    }
  }

  /**
   * With unique ids, deleting a present id removes exactly the one record at
   * `FindIndex` and leaves the rest in order.
   */
  lemma RemoveIdUnique(foods: seq<Food>, id: int)
    requires UniqueIds(foods)
    requires HasId(foods, id)
    ensures RemoveId(foods, id) == foods[..FindIndex(foods, id)] + foods[FindIndex(foods, id) + 1..]
    ensures |RemoveId(foods, id)| == |foods| - 1
  {
    var i := FindIndex(foods, id);
    forall k | 0 <= k < |foods| && k != i ensures foods[k].id != id {
      if k > i {
        assert foods[i].id != foods[k].id;
      }
    }
    RemoveIdAt(foods, i, id);
  }

  /** When the record at `i` is the only one with the id, deleting the id drops exactly slot `i`. */
  lemma RemoveIdAt(foods: seq<Food>, i: int, id: int)
    requires 0 <= i < |foods| && foods[i].id == id
    requires forall k :: 0 <= k < |foods| && k != i ==> foods[k].id != id
    ensures RemoveId(foods, id) == foods[..i] + foods[i + 1..]
  {
    var before, after := foods[..i], foods[i + 1..];
    assert !HasId(before, id) by {
      forall k | 0 <= k < |before| ensures before[k].id != id {
        assert before[k] == foods[k];
      }
    }
    assert !HasId(after, id) by {
      forall k | 0 <= k < |after| ensures after[k].id != id {
        assert after[k] == foods[i + 1 + k];
      }
    }
    RemoveIdSplit(before, foods[i], after, id);
    assert foods == before + [foods[i]] + after;
  }

  /** Filtering `before + [x] + after` for `x`'s id, when only `x` has it, drops just `x`. */
  lemma RemoveIdSplit(before: seq<Food>, x: Food, after: seq<Food>, id: int)
    requires x.id == id && !HasId(before, id) && !HasId(after, id)
    ensures RemoveId(before + [x] + after, id) == before + after
  {
    assert RemoveId([x], id) == [] by {
      assert [x][1..] == [];
    }
    RemoveIdConcat(before, [x], id);
    RemoveIdAbsent(before, id);
    assert RemoveId(before + [x], id) == before;
    RemoveIdConcat(before + [x], after, id);
    RemoveIdAbsent(after, id);
  }

  /** Appending a record whose id is new keeps the ids unique. */
  lemma AppendKeepsUnique(foods: seq<Food>, x: Food)
    requires UniqueIds(foods)
    requires !HasId(foods, x.id)
    ensures UniqueIds(foods + [x])
  {
  }
}
