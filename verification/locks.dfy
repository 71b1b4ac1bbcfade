/**
 The lock controller: the lock_event, lock_guest and lock_order_item
 routes. Three independently stored flags; the guest lock also writes the
 flag of every existing item of that guest in that event.
 */
module Locks {
  import opened Optional
  import opened Rows
  import opened Store

  function SetItemLock(v: bool): OrderItem -> OrderItem
  {
    (it: OrderItem) => it.(locked := v)
  }

  function SetGuestLock(v: bool): Guest -> Guest
  {
    (g: Guest) => g.(locked := v)
  }

  function SetEventLock(v: bool): Event -> Event
  {
    (e: Event) => e.(locked := v)
  }

  // ---------------------------------------------------------------------
  // lock_guest

  /** `guestId` is the target's USER id, as the route's queries use it. */
  datatype LockGuestRequest = LockGuestRequest(eventId: Option<Id>, guestId: Option<Id>, locked: Option<bool>)

  /** Truthy ids and a boolean `locked`. */
  predicate LockGuestGiven(req: LockGuestRequest)
  {
    Given(req.eventId) && Given(req.guestId) && req.locked.Some?
  }

  function LockGuest(s: Store, caller: Id, req: LockGuestRequest): (r: Outcome<()>)
    ensures !LockGuestGiven(req) ==> r == Outcome(Failure(MissingFields), s)
    ensures LockGuestGiven(req) && !Manages(RoleIn(s.guests, req.eventId.value, caller)) ==>
              r == Outcome(Failure(UnauthorisedAction), s)
    ensures LockGuestGiven(req) && Manages(RoleIn(s.guests, req.eventId.value, caller))
            && RoleIn(s.guests, req.eventId.value, req.guestId.value).None? ==>
              r == Outcome(Failure(GuestNotFound), s)
    ensures r.reply.Failure? ==> r.store == s
    ensures r.reply.Success? <==>
              && LockGuestGiven(req)
              && Manages(RoleIn(s.guests, req.eventId.value, caller))
              && RoleIn(s.guests, req.eventId.value, req.guestId.value).Some?
    ensures r.reply.Success? ==>
              var e := req.eventId.value;
              var u := req.guestId.value;
              var v := req.locked.value;
              && r.store.restaurants == s.restaurants
              && r.store.users == s.users
              && r.store.events == s.events
              && r.store.menu == s.menu
              && r.store.nextId == s.nextId
              && |r.store.items| == |s.items|
              && |r.store.guests| == |s.guests|
              && (forall j :: 0 <= j < |s.items| ==>
                    && r.store.items[j].(locked := s.items[j].locked) == s.items[j]
                    && r.store.items[j].locked == if Owned(e, u)(s.items[j]) then v else s.items[j].locked)
              && (forall j :: 0 <= j < |s.guests| ==>
                    && r.store.guests[j].(locked := s.guests[j].locked) == s.guests[j]
                    && r.store.guests[j].locked == if IsGuest(e, u)(s.guests[j]) then v else s.guests[j].locked)
  {
    if !LockGuestGiven(req) then Outcome(Failure(MissingFields), s)
    else
      var e := req.eventId.value;
      var u := req.guestId.value;
      var v := req.locked.value;
      if !Manages(RoleIn(s.guests, e, caller)) then Outcome(Failure(UnauthorisedAction), s)
      else if RoleIn(s.guests, e, u).None? then Outcome(Failure(GuestNotFound), s)
      else
        Outcome(Success(()), s.(items := Update(s.items, Owned(e, u), SetItemLock(v)),
                                guests := Update(s.guests, IsGuest(e, u), SetGuestLock(v))))
  }

  /** Locking a guest twice is the same as locking once. */
  lemma LockGuestIdempotent(s: Store, caller: Id, req: LockGuestRequest)
    requires LockGuest(s, caller, req).reply.Success?
    ensures var s1 := LockGuest(s, caller, req).store;
            LockGuest(s1, caller, req) == Outcome(Success(()), s1)
  {
    var e := req.eventId.value;
    var s1 := LockGuest(s, caller, req).store;
    GuestLockKeepsRoles(s.guests, s1.guests, e, caller);
    GuestLockKeepsRoles(s.guests, s1.guests, e, req.guestId.value);
    var s2 := LockGuest(s1, caller, req).store;
    assert s2.items == s1.items;
    assert s2.guests == s1.guests;
  }

  /**
   Locking with `v` and then with the value every touched flag had before
   restores the store exactly: lock then unlock of an unlocked guest gives
   back the original.
   */
  lemma LockGuestUndo(s: Store, caller: Id, req: LockGuestRequest, w: bool)
    requires LockGuest(s, caller, req).reply.Success?
    requires forall j :: 0 <= j < |s.items| && Owned(req.eventId.value, req.guestId.value)(s.items[j]) ==> s.items[j].locked == w
    requires forall j :: 0 <= j < |s.guests| && IsGuest(req.eventId.value, req.guestId.value)(s.guests[j]) ==> s.guests[j].locked == w
    ensures LockGuest(LockGuest(s, caller, req).store, caller, req.(locked := Some(w))) == Outcome(Success(()), s)
  {
    var e := req.eventId.value;
    var u := req.guestId.value;
    var v := req.locked.value;
    var s1 := LockGuest(s, caller, req).store;
    GuestLockKeepsRoles(s.guests, s1.guests, e, caller);
    GuestLockKeepsRoles(s.guests, s1.guests, e, u);
    ItemLocksRestored(s.items, e, u, v, w);
    GuestLocksRestored(s.guests, e, u, v, w);
  }

  /** Writing `v` and then `w` to lock flags that were `w` leaves the items as they were. */
  lemma ItemLocksRestored(items: seq<OrderItem>, e: Id, u: Id, v: bool, w: bool)
    requires forall j :: 0 <= j < |items| && Owned(e, u)(items[j]) ==> items[j].locked == w
    ensures Update(Update(items, Owned(e, u), SetItemLock(v)), Owned(e, u), SetItemLock(w)) == items
  {
    var items' := Update(Update(items, Owned(e, u), SetItemLock(v)), Owned(e, u), SetItemLock(w));
    forall j | 0 <= j < |items|
      ensures items'[j] == items[j]
    {
    }
  }

  /** Writing `v` and then `w` to lock flags that were `w` leaves the guest rows as they were. */
  lemma GuestLocksRestored(guests: seq<Guest>, e: Id, u: Id, v: bool, w: bool)
    requires forall j :: 0 <= j < |guests| && IsGuest(e, u)(guests[j]) ==> guests[j].locked == w
    ensures Update(Update(guests, IsGuest(e, u), SetGuestLock(v)), IsGuest(e, u), SetGuestLock(w)) == guests
  {
    var guests' := Update(Update(guests, IsGuest(e, u), SetGuestLock(v)), IsGuest(e, u), SetGuestLock(w));
    forall j | 0 <= j < |guests|
      ensures guests'[j] == guests[j]
    {
    }
  }

  /** Writing lock flags on guest rows changes nobody's role. */
  lemma GuestLockKeepsRoles(guests: seq<Guest>, guests': seq<Guest>, e: Id, u: Id)
    requires |guests'| == |guests|
    requires forall j :: 0 <= j < |guests| ==> guests'[j].(locked := guests[j].locked) == guests[j]
    ensures RoleIn(guests', e, u) == RoleIn(guests, e, u)
  {
    assert forall j :: 0 <= j < |guests| ==> guests'[j].role == guests[j].role && IsGuest(e, u)(guests'[j]) == IsGuest(e, u)(guests[j]);
    FirstIndexAgree(guests', IsGuest(e, u), guests, IsGuest(e, u));
  }

  // ---------------------------------------------------------------------
  // lock_order_item

  datatype LockItemRequest = LockItemRequest(eventId: Option<Id>, orderItemId: Option<Id>, locked: Option<bool>)

  predicate LockItemGiven(req: LockItemRequest)
  {
    Given(req.eventId) && Given(req.orderItemId) && req.locked.Some?
  }

  /** `SELECT id FROM order_item WHERE id = item AND event_id = event` is non-empty. */
  predicate ItemInEvent(items: seq<OrderItem>, item: Id, event: Id)
  {
    exists j :: 0 <= j < |items| && items[j].id == item && items[j].eventId == event
  }

  function LockOrderItem(s: Store, caller: Id, req: LockItemRequest): (r: Outcome<()>)
    ensures !LockItemGiven(req) ==> r == Outcome(Failure(MissingFields), s)
    ensures LockItemGiven(req) && !Manages(RoleIn(s.guests, req.eventId.value, caller)) ==>
              r == Outcome(Failure(UnauthorisedAction), s)
    ensures LockItemGiven(req) && Manages(RoleIn(s.guests, req.eventId.value, caller))
            && !ItemInEvent(s.items, req.orderItemId.value, req.eventId.value) ==>
              r == Outcome(Failure(ItemNotFound), s)
    ensures r.reply.Failure? ==> r.store == s
    ensures r.reply.Success? <==>
              && LockItemGiven(req)
              && Manages(RoleIn(s.guests, req.eventId.value, caller))
              && ItemInEvent(s.items, req.orderItemId.value, req.eventId.value)
    ensures r.reply.Success? ==>
              && OnlyItemsChanged(s, r.store)
              && r.store.nextId == s.nextId
              && |r.store.items| == |s.items|
              && forall j :: 0 <= j < |s.items| ==>
                   && r.store.items[j].(locked := s.items[j].locked) == s.items[j]
                   && r.store.items[j].locked == if s.items[j].id == req.orderItemId.value then req.locked.value else s.items[j].locked
  {
    if !LockItemGiven(req) then Outcome(Failure(MissingFields), s)
    else
      var e := req.eventId.value;
      var id := req.orderItemId.value;
      if !Manages(RoleIn(s.guests, e, caller)) then Outcome(Failure(UnauthorisedAction), s)
      else if !ItemInEvent(s.items, id, e) then Outcome(Failure(ItemNotFound), s)
      else Outcome(Success(()), s.(items := Update(s.items, HasId(id), SetItemLock(req.locked.value))))
  }

  /** Locking an item twice is the same as locking it once. */
  lemma LockOrderItemIdempotent(s: Store, caller: Id, req: LockItemRequest)
    requires LockOrderItem(s, caller, req).reply.Success?
    ensures var s1 := LockOrderItem(s, caller, req).store;
            LockOrderItem(s1, caller, req) == Outcome(Success(()), s1)
  {
    var s1 := LockOrderItem(s, caller, req).store;
    var j :| 0 <= j < |s.items| && s.items[j].id == req.orderItemId.value && s.items[j].eventId == req.eventId.value;
    assert s1.items[j].id == req.orderItemId.value && s1.items[j].eventId == req.eventId.value;
    var s2 := LockOrderItem(s1, caller, req).store;
    assert s2.items == s1.items;
  }

  /** Locking and then unlocking (or the reverse) an item restores the store when the item's flag was the second value. */
  lemma LockOrderItemUndo(s: Store, caller: Id, req: LockItemRequest, w: bool)
    requires LockOrderItem(s, caller, req).reply.Success?
    requires forall j :: 0 <= j < |s.items| && s.items[j].id == req.orderItemId.value ==> s.items[j].locked == w
    ensures LockOrderItem(LockOrderItem(s, caller, req).store, caller, req.(locked := Some(w))) == Outcome(Success(()), s)
  {
    var s1 := LockOrderItem(s, caller, req).store;
    var j :| 0 <= j < |s.items| && s.items[j].id == req.orderItemId.value && s.items[j].eventId == req.eventId.value;
    assert s1.items[j].id == req.orderItemId.value && s1.items[j].eventId == req.eventId.value;
    var s2 := LockOrderItem(s1, caller, req.(locked := Some(w))).store;
    assert s2.items == s.items;
  }

  // ---------------------------------------------------------------------
  // lock_event

  datatype LockEventRequest = LockEventRequest(eventId: Option<Id>, locked: Option<bool>)

  predicate LockEventGiven(req: LockEventRequest)
  {
    Given(req.eventId) && req.locked.Some?
  }

  function LockEvent(s: Store, caller: Id, req: LockEventRequest): (r: Outcome<()>)
    ensures !LockEventGiven(req) ==> r == Outcome(Failure(MissingFields), s)
    ensures r.reply.Failure? ==> r.store == s
    ensures r.reply.Success? <==> LockEventGiven(req) && RoleIn(s.guests, req.eventId.value, caller) == Some(Organiser)
    ensures r.reply.Failure? && LockEventGiven(req) ==> r.reply == Failure(UnauthorisedAction)
    ensures r.reply.Success? ==>
              && r.store.(events := s.events) == s
              && |r.store.events| == |s.events|
              && forall j :: 0 <= j < |s.events| ==>
                   && r.store.events[j].(locked := s.events[j].locked) == s.events[j]
                   && r.store.events[j].locked == if s.events[j].id == req.eventId.value then req.locked.value else s.events[j].locked
  {
    if !LockEventGiven(req) then Outcome(Failure(MissingFields), s)
    else
      var e := req.eventId.value;
      if RoleIn(s.guests, e, caller) != Some(Organiser) then Outcome(Failure(UnauthorisedAction), s)
      else Outcome(Success(()), s.(events := Update(s.events, EventHasId(e), SetEventLock(req.locked.value))))
  }
}
