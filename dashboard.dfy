/**
 * The `Dashboard` component's state and handlers. Each handler takes the
 * server's answer as a parameter (`None` or `ok == false` when the request
 * failed), returns the request it sends, and updates `foods` and `editingFood`
 * the way the component does once the request has resolved.
 */
module DashboardPage {
  import opened Wrappers
  import opened Foods
  import Sync

  /**
   * `[...foods]` followed by `updated[index] = x`: copy the list into a fresh
   * array and overwrite one slot. An index of -1 (what `findIndex` returns for
   * a missing id) names no element, so then nothing is overwritten.
   */
  method CopyAndWrite(foods: seq<Food>, index: int, x: Food) returns (r: seq<Food>)
    requires -1 <= index < |foods|
    ensures |r| == |foods|
    ensures 0 <= index ==> r[index] == x
    ensures forall k :: 0 <= k < |foods| && k != index ==> r[k] == foods[k]
  {
    var updated := new Food[|foods|](k requires 0 <= k < |foods| => foods[k]);
    if 0 <= index {
      updated[index] := x;
    }
    r := updated[..];
  }

  class Dashboard {
    /** The list shown on the page, in server order then creation order. */
    var foods: seq<Food>
    /** The record open in the edit form; empty until one is chosen. */
    var editingFood: Option<Food>

    /** Both pieces of state as one value. */
    function State(): Sync.State
      reads this
    {
      Sync.State(foods, editingFood)
    }

    /** The component mounts with an empty list and an empty editing slot. */
    constructor ()
      ensures State() == Sync.Initial()
    {
      foods := [];
      editingFood := None;
    }

    /** `loadFoods`: on success the fetched list replaces `foods`, in the server's order. */
    method LoadFoods(list: Option<seq<Food>>)
      modifies this
      ensures State() == Sync.Step(old(State()), Sync.Loaded(list))
      ensures foods == if list.Some? then list.value else old(foods)
      ensures editingFood == old(editingFood)
    {
      if list.Some? {
        foods := list.value;
      }
    }

    /**
     * `handleAddFood`: sends the draft with `available` forced on; on success
     * appends the server's record, on failure leaves `foods` as it was.
     */
    method HandleAddFood(draft: Draft, created: Option<Food>) returns (request: NewFood)
      modifies this
      ensures request.available
      ensures Draft(request.name, request.image, request.price, request.description) == draft
      ensures State() == Sync.Step(old(State()), Sync.Added(draft, created))
      ensures created.Some? ==>
        && |foods| == |old(foods)| + 1
        && foods[..|old(foods)|] == old(foods)
        && foods[|old(foods)|] == created.value
      ensures created.None? ==> foods == old(foods)
      ensures editingFood == old(editingFood)
    {
      request := CreateBody(draft);
      if created.Some? {
        foods := foods + [created.value];
      }
    }

    /**
     * `handleUpdateFood`: sends the editing record's id and availability with
     * the draft's fields, addressed to the editing record's id; on success the
     * first record with that id is replaced by the server's record.
     */
    method HandleUpdateFood(draft: Draft, updated: Option<Food>) returns (request: Option<PutRequest>)
      modifies this
      ensures request.Some? <==> old(editingFood).Some?
      ensures request.Some? ==>
        && request.value.id == old(editingFood).value.id
        && request.value.body.id == old(editingFood).value.id
        && request.value.body.available == old(editingFood).value.available
        && DraftOf(request.value.body) == draft
      ensures State() == Sync.Step(old(State()), Sync.Updated(draft, updated))
      ensures editingFood == old(editingFood)
    {
      if editingFood.None? {
        request := None;
        return;
      }
      var target := editingFood.value;
      request := Some(PutRequest(target.id, UpdateBody(target, draft)));
      if updated.Some? {
        var index := FindIndex(foods, target.id);
        var next := CopyAndWrite(foods, index, updated.value);
        assert next == ReplaceById(foods, target.id, updated.value);
        foods := next;
      }
    }

    /**
     * `handleChangeAvailable`: sends the record exactly as given (the caller
     * has already flipped `available`); on success the first record with its
     * id is replaced by the server's record.
     */
    method HandleChangeAvailable(food: Food, updated: Option<Food>) returns (request: PutRequest)
      modifies this
      ensures request == PutRequest(food.id, food)
      ensures State() == Sync.Step(old(State()), Sync.AvailabilityChanged(food, updated))
      ensures updated.Some? && HasId(old(foods), food.id) ==>
        foods == old(foods)[FindIndex(old(foods), food.id) := updated.value]
      ensures updated.None? || !HasId(old(foods), food.id) ==> foods == old(foods)
      ensures editingFood == old(editingFood)
    {
      request := PutRequest(food.id, food);
      if updated.Some? {
        var index := FindIndex(foods, food.id);
        var next := CopyAndWrite(foods, index, updated.value);
        assert next == ReplaceById(foods, food.id, updated.value);
        foods := next;
      }
    }

    /**
     * `handleDeleteFood`: sends a delete for the id; on success keeps only the
     * records whose id differs, in their order.
     */
    method HandleDeleteFood(id: int, ok: bool) returns (request: int)
      modifies this
      ensures request == id
      ensures State() == Sync.Step(old(State()), Sync.Deleted(id, ok))
      ensures forall f :: f in foods <==> f in old(foods) && (ok ==> f.id != id)
      ensures !ok ==> foods == old(foods)
      ensures editingFood == old(editingFood)
    {
      request := id;
      if ok {
        foods := RemoveId(foods, id);
      }
    }

    /** `handleEditFood`: puts the record in the editing slot; the list is untouched. */
    method HandleEditFood(food: Food)
      modifies this
      ensures editingFood == Some(food)
      ensures foods == old(foods)
      ensures State() == Sync.Step(old(State()), Sync.EditStarted(food))
    {
      editingFood := Some(food);
    }
  }
}
