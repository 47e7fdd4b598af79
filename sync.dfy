/**
 * The dashboard's state transitions as pure functions: what `foods` and
 * `editingFood` become after each handler, given the server's answer. A failed
 * request is an answer of `None` (or `ok == false` for a delete).
 */
module Sync {
  import opened Wrappers
  import opened Foods

  /** The two pieces of component state: the list and the editing slot. */
  datatype State = State(foods: seq<Food>, editing: Option<Food>)

  /** One completed handler call, carrying the server's answer. */
  datatype Event =
    | Loaded(list: Option<seq<Food>>)
    | Added(draft: Draft, created: Option<Food>)
    | Updated(draft: Draft, updated: Option<Food>)
    | AvailabilityChanged(food: Food, updated: Option<Food>)
    | Deleted(id: int, ok: bool)
    | EditStarted(food: Food)

  /** The component's state before anything has loaded. */
  function Initial(): (s: State)
    ensures s.foods == [] && s.editing.None?
  {
    State([], None)
  }

  /** The server's answer says the request failed. */
  predicate Failed(e: Event)
  {
    match e
    case Loaded(list) => list.None?
    case Added(_, created) => created.None?
    case Updated(_, updated) => updated.None?
    case AvailabilityChanged(_, updated) => updated.None?
    case Deleted(_, ok) => !ok
    case EditStarted(_) => false
  }

  /** The state after one handler call. */
  function Step(s: State, e: Event): (t: State)
    ensures Failed(e) ==> t == s
    ensures e.EditStarted? ==> t.foods == s.foods && t.editing == Some(e.food)
    ensures !e.EditStarted? ==> t.editing == s.editing
  {
    match e
    case Loaded(list) =>
      if list.Some? then s.(foods := list.value) else s
    case Added(_, created) =>
      if created.Some? then s.(foods := s.foods + [created.value]) else s
    case Updated(_, updated) =>
      if updated.Some? && s.editing.Some? then s.(foods := ReplaceById(s.foods, s.editing.value.id, updated.value))
      else s
    case AvailabilityChanged(food, updated) =>
      if updated.Some? then s.(foods := ReplaceById(s.foods, food.id, updated.value)) else s
    case Deleted(id, ok) =>
      if ok then s.(foods := RemoveId(s.foods, id)) else s
    case EditStarted(food) =>
      s.(editing := Some(food))
  }

  /** The state after a sequence of handler calls, in order. */
  function Run(s: State, es: seq<Event>): State
    decreases |es|
  {
    if es == [] then s else Run(Step(s, es[0]), es[1..])
  }

  /**
   * The server behaves like a store keyed by id: a list it sends has unique ids,
   * a created record gets an id not already shown, and a replaced record keeps
   * the id it was addressed by.
   */
  predicate ConsistentReply(s: State, e: Event)
  {
    match e
    case Loaded(list) => list.Some? ==> UniqueIds(list.value)
    case Added(_, created) => created.Some? ==> !HasId(s.foods, created.value.id)
    case Updated(_, updated) =>
      updated.Some? && s.editing.Some? ==> updated.value.id == s.editing.value.id
    case AvailabilityChanged(food, updated) => updated.Some? ==> updated.value.id == food.id
    case Deleted(_, _) => true
    case EditStarted(_) => true
  }

  /** Every reply in the run is consistent with the state it arrives in. */
  predicate ConsistentRun(s: State, es: seq<Event>)
    decreases |es|
  {
    es == [] || (ConsistentReply(s, es[0]) && ConsistentRun(Step(s, es[0]), es[1..]))
  }

  /** Add on success: one more record, the old ones untouched in front, the server's record last. */
  lemma AddAppends(s: State, d: Draft, created: Food)
    ensures var t := Step(s, Added(d, Some(created)));
      && |t.foods| == |s.foods| + 1
      && t.foods[..|s.foods|] == s.foods
      && t.foods[|s.foods|] == created
  {
  }

  /** Delete on success: no record with the id survives, and an absent id changes nothing. */
  lemma DeleteRemoves(s: State, id: int)
    ensures var t := Step(s, Deleted(id, true));
      && !HasId(t.foods, id)
      && IsSubsequence(t.foods, s.foods)
      && (!HasId(s.foods, id) ==> t == s)
  {
    var t := Step(s, Deleted(id, true));
    RemoveIdIsSubsequence(s.foods, id);
    if !HasId(s.foods, id) {
      RemoveIdAbsent(s.foods, id);
    }
    assert !HasId(t.foods, id) by {
      forall k | 0 <= k < |t.foods| ensures t.foods[k].id != id {
        assert t.foods[k] in t.foods;
      }
    }
  }

  /** One handler call with a consistent reply keeps the ids in the list unique. */
  lemma StepKeepsUnique(s: State, e: Event)
    requires UniqueIds(s.foods)
    requires ConsistentReply(s, e)
    ensures UniqueIds(Step(s, e).foods)
  {
    match e
    case Loaded(_) =>
    case Added(_, created) =>
      if created.Some? {
        AppendKeepsUnique(s.foods, created.value);
      }
    case Updated(_, updated) =>
      if updated.Some? && s.editing.Some? {
        ReplaceByIdKeepsUnique(s.foods, s.editing.value.id, updated.value);
      }
    case AvailabilityChanged(food, updated) =>
      if updated.Some? {
        ReplaceByIdKeepsUnique(s.foods, food.id, updated.value);
      }
    case Deleted(id, ok) =>
      if ok {
        RemoveIdKeepsUnique(s.foods, id);
      }
    case EditStarted(_) =>
  }

  /**
   * Identity uniqueness: over any run of handler calls whose replies are
   * consistent, the list never holds two records with the same id.
   */
  lemma {:induction false} RunKeepsUnique(s: State, es: seq<Event>)
    requires UniqueIds(s.foods)
    requires ConsistentRun(s, es)
    ensures UniqueIds(Run(s, es).foods)
    decreases |es|
  {
    if es != [] {
      StepKeepsUnique(s, es[0]);
      RunKeepsUnique(Step(s, es[0]), es[1..]);
    }
  }

  /** Failed requests leave the state alone however many of them there are. */
  lemma {:induction false} FailedRunUnchanged(s: State, es: seq<Event>)
    requires forall i :: 0 <= i < |es| ==> Failed(es[i])
    ensures Run(s, es) == s
    decreases |es|
  {
    if es != [] {
      assert Failed(es[0]);
      FailedRunUnchanged(s, es[1..]);
    }
  }
}
