/**
 The event lock is a flag that only join_event and create_event act on
 (create_event in its open-event and free-code queries);
 get_event_details and get_user_events, which are not part of this model,
 return it without branching on it. lock_event changes nothing but event
 lock flags, and add, update, remove, reset and submit
 give the same reply and write the same rows whatever those flags say, so
 locking an event does not freeze its orders; it only closes the event to
 joining.
 */
module EventLockFacts {
  import opened Optional
  import opened Rows
  import opened Store
  import opened Ledger
  import opened Locks
  import opened Lifecycle

  /** `events'` is `events` with at most the lock flags changed. */
  predicate LocksOnly(events: seq<Event>, events': seq<Event>)
  {
    && |events'| == |events|
    && forall j :: 0 <= j < |events| ==> events'[j].(locked := events[j].locked) == events[j]
  }

  /** lock_event, successful or not, changes nothing but event lock flags. */
  lemma LockEventTouchesLocksOnly(s: Store, caller: Id, req: LockEventRequest)
    ensures var s' := LockEvent(s, caller, req).store;
            s'.(events := s.events) == s && LocksOnly(s.events, s'.events)
  {
    var s' := LockEvent(s, caller, req).store;
    forall j | 0 <= j < |s.events|
      ensures s'.events[j].(locked := s.events[j].locked) == s.events[j]
    {
    }
  }

  /** An event's restaurant does not depend on lock flags. */
  lemma SameRestaurant(events: seq<Event>, events': seq<Event>, event: Id)
    requires LocksOnly(events, events')
    ensures EventRestaurant(events', event) == EventRestaurant(events, event)
  {
    forall j | 0 <= j < |events'|
      ensures EventHasId(event)(events'[j]) == EventHasId(event)(events[j])
    {
      assert events'[j].id == events'[j].(locked := events[j].locked).id;
    }
    FirstIndexAgree(events', EventHasId(event), events, EventHasId(event));
    match FirstIndex(events, EventHasId(event))
    case None =>
    case Some(i) =>
      assert events'[i].restaurantId == events'[i].(locked := events[i].locked).restaurantId;
  }

  /** Resolving an added item's name does not depend on lock flags. */
  lemma SameName(events: seq<Event>, events': seq<Event>, menu: seq<MenuRow>, event: Id, menuId: Option<Id>, customName: Option<string>)
    requires LocksOnly(events, events')
    ensures ResolveName(events', menu, event, menuId, customName) == ResolveName(events, menu, event, menuId, customName)
  {
    if Given(menuId) {
      SameRestaurant(events, events', event);
      FirstIndexAgree(menu, ServedAt(events', event, menuId.value), menu, ServedAt(events, event, menuId.value));
    }
  }

  /** add_order_item never reads the event lock: same reply, same rows written. */
  lemma AddIgnoresEventLock(s: Store, events': seq<Event>, caller: Id, req: AddRequest)
    requires LocksOnly(s.events, events')
    ensures var r := AddOrderItem(s.(events := events'), caller, req);
            var r0 := AddOrderItem(s, caller, req);
            r.reply == r0.reply && r.store == r0.store.(events := events')
  {
    var e := req.eventId.GetOr(0);
    SameName(s.events, events', s.menu, e, req.menuId, req.customName);
    if AddFieldsValid(req) && MayActFor(s.guests, e, caller, Target(caller, req.userId)) {
      match ResolveName(s.events, s.menu, e, req.menuId, req.customName)
      case Failure(_) =>
      case Success(name) =>
        var row := OrderItem(s.nextId, e, Target(caller, req.userId), req.menuId, Some(name), req.quantity.value, req.price.value, false);
        UpsertIgnoresEvents(s, events', row);
    }
  }

  /** The write half of an add touches only item rows and the id counter. */
  lemma UpsertIgnoresEvents(s: Store, events': seq<Event>, row: OrderItem)
    requires row.id == s.nextId && !row.locked
    ensures var r := Upsert(s.(events := events'), row);
            r.reply == Upsert(s, row).reply && r.store == Upsert(s, row).store.(events := events')
  {
  }

  /** update_order_item never reads the event lock: same reply, same rows written. */
  lemma UpdateIgnoresEventLock(s: Store, events': seq<Event>, caller: Id, req: UpdateRequest)
    requires LocksOnly(s.events, events')
    ensures var r := UpdateOrderItem(s.(events := events'), caller, req);
            var r0 := UpdateOrderItem(s, caller, req);
            r.reply == r0.reply && r.store == r0.store.(events := events')
  {
  }

  /** remove_order_item never reads the event lock: same reply, same rows deleted. */
  lemma RemoveIgnoresEventLock(s: Store, events': seq<Event>, caller: Id, orderItemId: Option<Id>)
    requires LocksOnly(s.events, events')
    ensures var r := RemoveOrderItem(s.(events := events'), caller, orderItemId);
            var r0 := RemoveOrderItem(s, caller, orderItemId);
            r.reply == r0.reply && r.store == r0.store.(events := events')
  {
  }

  /** reset_order never reads the event lock: same reply, same rows deleted. */
  lemma ResetIgnoresEventLock(s: Store, events': seq<Event>, caller: Id, req: ResetRequest)
    requires LocksOnly(s.events, events')
    ensures var r := ResetOrder(s.(events := events'), caller, req);
            var r0 := ResetOrder(s, caller, req);
            r.reply == r0.reply && r.store == r0.store.(events := events')
  {
  }

  /** submit_order reads the event only for its restaurant, never its lock: same reply, same rows written. */
  lemma SubmitIgnoresEventLock(s: Store, events': seq<Event>, caller: Id, req: SubmitRequest)
    requires LocksOnly(s.events, events')
    ensures var r := SubmitOrder(s.(events := events'), caller, req);
            var r0 := SubmitOrder(s, caller, req);
            r.reply == r0.reply && r.store == r0.store.(events := events')
  {
    SameRestaurant(s.events, events', req.eventId.GetOr(0));
  }

  /**
   Once its organiser locks the only open event with a code, joining with
   that code answers EVENT_NOT_FOUND.
   */
  lemma JoinAfterLock(s: Store, organiser: Id, caller: Id, code: string, k: nat)
    requires |code| > 0
    requires k < |s.events| && s.events[k].code == Some(code) && s.events[k].id != 0
    requires forall j :: 0 <= j < |s.events| && j != k ==> !OpenWithCode(code)(s.events[j])
    requires RoleIn(s.guests, s.events[k].id, organiser) == Some(Organiser)
    ensures var locked := LockEvent(s, organiser, LockEventRequest(Some(s.events[k].id), Some(true)));
            && locked.reply.Success?
            && JoinEvent(locked.store, caller, Some(code)).reply == Failure(EventNotFound)
  {
    var events := LockEvent(s, organiser, LockEventRequest(Some(s.events[k].id), Some(true))).store.events;
    forall j | 0 <= j < |events|
      ensures !OpenWithCode(code)(events[j])
    {
      if s.events[j].id != s.events[k].id {
        assert events[j] == events[j].(locked := s.events[j].locked);
      }
    }
  }
}
