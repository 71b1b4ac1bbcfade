/**
 The store invariant `Valid` (primary keys distinct, at most one guest row
 per user and event, every id below the id counter) is preserved by every
 mutating route, on success and on failure.
 */
module Invariants {
  import opened Optional
  import opened Rows
  import opened Store
  import opened Ledger
  import opened Locks
  import opened Lifecycle

  /** Rows rewritten in place without touching their keys keep their keys distinct. */
  lemma SameKeys<T, K>(xs: seq<T>, ys: seq<T>, key: T -> K)
    requires DistinctBy(xs, key)
    requires |xs| == |ys| && forall j :: 0 <= j < |xs| ==> key(ys[j]) == key(xs[j])
    ensures DistinctBy(ys, key)
  {
  }

  /** Appending a row whose key no existing row has keeps the keys distinct. */
  lemma AppendFresh<T, K>(xs: seq<T>, x: T, key: T -> K)
    requires DistinctBy(xs, key)
    requires forall j :: 0 <= j < |xs| ==> key(xs[j]) != key(x)
    ensures DistinctBy(xs + [x], key)
  {
    var ys := xs + [x];
    forall i, j | 0 <= i < j < |ys|
      ensures key(ys[i]) != key(ys[j])
    {
      if j < |xs| {
        assert ys[i] == xs[i] && ys[j] == xs[j];
      } else {
        assert ys[i] == xs[i];
      }
    }
  }

  /** A selection of item rows keeps every item invariant. */
  lemma SelectItemsValid(s: Store, p: OrderItem -> bool)
    requires Valid(s)
    ensures Valid(s.(items := Select(s.items, p)))
  {
    SelectDistinct(s.items, p, ItemKey);
    var items' := Select(s.items, p);
    forall i | 0 <= i < |items'|
      ensures items'[i].id < s.nextId
    {
      assert items'[i] in s.items;
    }
  }

  /** The write half of an add keeps the store valid, whether it merges or inserts. */
  lemma UpsertPreservesValid(s: Store, row: OrderItem)
    requires Valid(s)
    requires row.id == s.nextId && !row.locked
    ensures Valid(Upsert(s, row).store)
  {
    match FirstIndex(s.items, MergesWith(row.eventId, row.guestId, row.menuId, row.customName.GetOr("")))
    case Some(k) =>
      SameKeys(s.items, Upsert(s, row).store.items, ItemKey);
    case None =>
      AppendFresh(s.items, row, ItemKey);
  }

  lemma AddPreservesValid(s: Store, caller: Id, req: AddRequest)
    requires Valid(s)
    ensures Valid(AddOrderItem(s, caller, req).store)
  {
    if AddOrderItem(s, caller, req).reply.Success? {
      var e := req.eventId.value;
      var t := Target(caller, req.userId);
      var name := ResolveName(s.events, s.menu, e, req.menuId, req.customName).value;
      var row := OrderItem(s.nextId, e, t, req.menuId, Some(name), req.quantity.value, req.price.value, false);
      assert AddOrderItem(s, caller, req) == Upsert(s, row);
      UpsertPreservesValid(s, row);
    }
  }

  lemma UpdatePreservesValid(s: Store, caller: Id, req: UpdateRequest)
    requires Valid(s)
    ensures Valid(UpdateOrderItem(s, caller, req).store)
  {
    var r := UpdateOrderItem(s, caller, req);
    if r.reply.Success? {
      SameKeys(s.items, r.store.items, ItemKey);
    }
  }

  lemma RemovePreservesValid(s: Store, caller: Id, orderItemId: Option<Id>)
    requires Valid(s)
    ensures Valid(RemoveOrderItem(s, caller, orderItemId).store)
  {
    if RemoveOrderItem(s, caller, orderItemId).reply.Success? {
      SelectItemsValid(s, LacksId(orderItemId.value));
    }
  }

  lemma ResetPreservesValid(s: Store, caller: Id, req: ResetRequest)
    requires Valid(s)
    ensures Valid(ResetOrder(s, caller, req).store)
  {
    if ResetOrder(s, caller, req).reply.Success? {
      SelectItemsValid(s, NotOwned(req.eventId.value, Target(caller, req.userId)));
    }
  }

  /** Rows numbered from the id counter on, appended to a valid store that advances its counter past them, keep it valid. */
  lemma AppendRowsValid(s: Store, rows: seq<OrderItem>, n: nat)
    requires Valid(s)
    requires |rows| == n && forall j :: 0 <= j < n ==> rows[j].id == s.nextId + j
    ensures Valid(s.(items := s.items + rows, nextId := s.nextId + n))
  {
    var items' := s.items + rows;
    forall i, j | 0 <= i < j < |items'|
      ensures ItemKey(items'[i]) != ItemKey(items'[j])
    {
      if j < |s.items| {
        assert items'[i] == s.items[i] && items'[j] == s.items[j];
      } else if i < |s.items| {
        assert items'[i] == s.items[i] && items'[j] == rows[j - |s.items|];
      } else {
        assert items'[i] == rows[i - |s.items|] && items'[j] == rows[j - |s.items|];
      }
    }
    forall i | 0 <= i < |items'|
      ensures items'[i].id < s.nextId + n
    {
      if i >= |s.items| {
        assert items'[i] == rows[i - |s.items|];
      }
    }
  }

  lemma SubmitPreservesValid(s: Store, caller: Id, req: SubmitRequest)
    requires Valid(s)
    ensures Valid(SubmitOrder(s, caller, req).store)
  {
    if SubmitFieldsGiven(req) && MayActFor(s.guests, req.eventId.value, caller, Target(caller, req.userId)) {
      var e := req.eventId.value;
      var t := Target(caller, req.userId);
      match EventRestaurant(s.events, e)
      case None =>
        SelectItemsValid(s, NotOwned(e, t));
      case Some(restaurant) =>
        InsertAfterClearValid(s, e, t, restaurant, req.items.value);
    }
  }

  /** The insert loop, run on the store with the user's order deleted, keeps the invariant. */
  lemma InsertAfterClearValid(s: Store, e: Id, t: Id, restaurant: Id, xs: seq<SubmitItem>)
    requires Valid(s)
    ensures Valid(InsertItems(s.(items := Select(s.items, NotOwned(e, t))), e, t, restaurant, xs, 0).store)
  {
    var cleared := s.(items := Select(s.items, NotOwned(e, t)));
    SelectItemsValid(s, NotOwned(e, t));
    var n := AcceptedCount(cleared.menu, restaurant, xs);
    var rows := RowsFor(cleared.nextId, e, t, xs[..n]);
    AppendRowsValid(cleared, rows, n);
    var r := InsertItems(cleared, e, t, restaurant, xs, 0);
    assert r.store == cleared.(items := cleared.items + rows, nextId := cleared.nextId + n);
  }

  lemma LockGuestPreservesValid(s: Store, caller: Id, req: LockGuestRequest)
    requires Valid(s)
    ensures Valid(LockGuest(s, caller, req).store)
  {
    var r := LockGuest(s, caller, req);
    if r.reply.Success? {
      assert forall j :: 0 <= j < |s.guests| ==> r.store.guests[j].(locked := s.guests[j].locked) == s.guests[j];
      SameKeys(s.items, r.store.items, ItemKey);
      SameKeys(s.guests, r.store.guests, GuestKey);
      SameKeys(s.guests, r.store.guests, MembershipKey);
    }
  }

  lemma LockOrderItemPreservesValid(s: Store, caller: Id, req: LockItemRequest)
    requires Valid(s)
    ensures Valid(LockOrderItem(s, caller, req).store)
  {
    var r := LockOrderItem(s, caller, req);
    if r.reply.Success? {
      SameKeys(s.items, r.store.items, ItemKey);
    }
  }

  lemma LockEventPreservesValid(s: Store, caller: Id, req: LockEventRequest)
    requires Valid(s)
    ensures Valid(LockEvent(s, caller, req).store)
  {
    var r := LockEvent(s, caller, req);
    if r.reply.Success? {
      SameKeys(s.events, r.store.events, EventKey);
    }
  }

  lemma CreatePreservesValid(s: Store, caller: Id, req: CreateRequest, draws: seq<int>)
    requires Valid(s)
    requires RandomDraws(draws) && EventuallyFree(s.events, draws)
    ensures Valid(CreateEvent(s, caller, req, draws).store)
  {
    var r := CreateEvent(s, caller, req, draws);
    if r.reply.Success? {
      var id := s.nextId;
      var event := r.store.events[|s.events|];
      var organiser := Guest(id + 1, id, caller, Organiser, false);
      assert r.store.events == s.events + [event];
      AppendFresh(s.events, event, EventKey);
      AppendFresh(s.guests, organiser, GuestKey);
      AppendFresh(s.guests, organiser, MembershipKey);
    }
  }

  /** Appending a fresh guest row for a user not yet in the event keeps the store valid. */
  lemma JoinedGuestValid(s: Store, g: Guest)
    requires Valid(s)
    requires g.id == s.nextId && g.eventId < s.nextId
    requires forall j :: 0 <= j < |s.guests| ==> MembershipKey(s.guests[j]) != MembershipKey(g)
    ensures Valid(s.(guests := s.guests + [g], nextId := s.nextId + 1))
  {
    AppendFresh(s.guests, g, GuestKey);
    AppendFresh(s.guests, g, MembershipKey);
  }

  /** A user with no guest row in an event has no membership key for it. */
  lemma NoMembership(guests: seq<Guest>, event: Id, user: Id)
    requires RoleIn(guests, event, user).None?
    ensures forall j :: 0 <= j < |guests| ==> MembershipKey(guests[j]) != (event, user)
  {
    forall j | 0 <= j < |guests|
      ensures MembershipKey(guests[j]) != (event, user)
    {
      assert !IsGuest(event, user)(guests[j]);
    }
  }

  lemma JoinPreservesValid(s: Store, caller: Id, code: Option<string>)
    requires Valid(s)
    ensures Valid(JoinEvent(s, caller, code).store)
  {
    if GivenText(code) {
      match FirstIndex(s.events, OpenWithCode(code.value))
      case None =>
      case Some(k) =>
        var event := s.events[k].id;
        if RoleIn(s.guests, event, caller).None? {
          NoMembership(s.guests, event, caller);
          JoinedGuestValid(s, Guest(s.nextId, event, caller, Ordinary, false));
        }
    }
  }
}
