/**
 Properties of the ledger routes that relate several requests: repeated
 adds accumulate in one row, a locked row still absorbs an add, reset is
 idempotent, and the item owner's role (not the caller's) decides update
 and remove.
 */
module LedgerFacts {
  import opened Optional
  import opened Rows
  import opened Store
  import opened Ledger

  /** The request is well formed, permitted, and its name resolves. */
  predicate AddAccepted(s: Store, caller: Id, req: AddRequest)
  {
    && AddFieldsValid(req)
    && MayActFor(s.guests, req.eventId.value, caller, Target(caller, req.userId))
    && ResolveName(s.events, s.menu, req.eventId.value, req.menuId, req.customName).Success?
  }

  /** The row a first add of `req` inserts. */
  function FirstRow(s: Store, caller: Id, req: AddRequest): OrderItem
    requires AddAccepted(s, caller, req)
  {
    OrderItem(s.nextId, req.eventId.value, Target(caller, req.userId), req.menuId,
              Some(ResolveName(s.events, s.menu, req.eventId.value, req.menuId, req.customName).value),
              req.quantity.value, req.price.value, false)
  }

  /** Every item id is below the id counter, so a fresh row's id is unique. */
  predicate IdsBelowCounter(s: Store)
  {
    forall j :: 0 <= j < |s.items| ==> s.items[j].id < s.nextId
  }

  /** `s` with `row` appended, its quantity now `m`, and the id counter moved past it. */
  function Grown(s: Store, row: OrderItem, m: int): Store
  {
    s.(items := s.items + [row.(quantity := m)], nextId := s.nextId + 1)
  }

  /** No row of an order that holds none of (event, user)'s items matches a selection of theirs. */
  lemma NoMatchInEmptyOrder(items: seq<OrderItem>, e: Id, t: Id, menuId: Option<Id>, name: string)
    requires OrderOf(items, e, t) == []
    ensures forall j :: 0 <= j < |items| ==> !MergesWith(e, t, menuId, name)(items[j])
  {
    forall j | 0 <= j < |items|
      ensures !MergesWith(e, t, menuId, name)(items[j])
    {
      assert items[j] in items;
    }
  }

  /** The first add into an empty order inserts `FirstRow`. */
  lemma AddFirst(s: Store, caller: Id, req: AddRequest)
    requires AddAccepted(s, caller, req)
    requires OrderOf(s.items, req.eventId.value, Target(caller, req.userId)) == []
    ensures AddOrderItem(s, caller, req).store == Grown(s, FirstRow(s, caller, req), req.quantity.value)
  {
    var e := req.eventId.value;
    var t := Target(caller, req.userId);
    var name := ResolveName(s.events, s.menu, e, req.menuId, req.customName).value;
    NoMatchInEmptyOrder(s.items, e, t, req.menuId, name);
    assert FirstIndex(s.items, MergesWith(e, t, req.menuId, name)).None?;
    assert FirstRow(s, caller, req).(quantity := req.quantity.value) == FirstRow(s, caller, req);
  }

  /** After `m` adds the accumulated row is the first match of the selection. */
  lemma AccumulatedRowIsFirstMatch(s: Store, caller: Id, req: AddRequest, m: int)
    requires AddAccepted(s, caller, req)
    requires OrderOf(s.items, req.eventId.value, Target(caller, req.userId)) == []
    ensures var name := ResolveName(s.events, s.menu, req.eventId.value, req.menuId, req.customName).value;
            var items := s.items + [FirstRow(s, caller, req).(quantity := m)];
            FirstIndex(items, MergesWith(req.eventId.value, Target(caller, req.userId), req.menuId, name)) == Some(|s.items|)
  {
    var e := req.eventId.value;
    var t := Target(caller, req.userId);
    var name := ResolveName(s.events, s.menu, e, req.menuId, req.customName).value;
    var items := s.items + [FirstRow(s, caller, req).(quantity := m)];
    NoMatchInEmptyOrder(s.items, e, t, req.menuId, name);
    forall j | 0 <= j < |s.items|
      ensures !MergesWith(e, t, req.menuId, name)(items[j])
    {
      assert items[j] == s.items[j];
    }
    assert MergesWith(e, t, req.menuId, name)(items[|s.items|]);
  }

  /** An accepted add whose selection first matches row `k` rewrites the rows carrying that row's id. */
  lemma AddMergeStep(s: Store, caller: Id, req: AddRequest, k: nat)
    requires AddAccepted(s, caller, req)
    requires var name := ResolveName(s.events, s.menu, req.eventId.value, req.menuId, req.customName).value;
             FirstIndex(s.items, MergesWith(req.eventId.value, Target(caller, req.userId), req.menuId, name)) == Some(k)
    ensures k < |s.items|
    ensures var r := AddOrderItem(s, caller, req).store;
            && OnlyItemsChanged(s, r)
            && r.nextId == s.nextId
            && r.items == Update(s.items, HasId(s.items[k].id), Bump(s.items[k].quantity + req.quantity.value, req.price.value))
  {
  }

  /** Bumping the last row by its id, when no earlier row carries that id, rewrites only that row. */
  lemma BumpLast(items: seq<OrderItem>, row: OrderItem, q: int, p: Cents)
    requires forall j :: 0 <= j < |items| ==> items[j].id != row.id
    ensures Update(items + [row], HasId(row.id), Bump(q, p)) == items + [row.(quantity := q, price := p)]
  {
    var all := items + [row];
    var items' := Update(all, HasId(row.id), Bump(q, p));
    forall j | 0 <= j < |items|
      ensures items'[j] == items[j]
    {
      assert all[j] == items[j];
    }
  }

  /** The rows after another add of the same selection: its quantity goes to the accumulated row. */
  lemma AddAgainRows(s: Store, caller: Id, req: AddRequest, m: int, items: seq<OrderItem>)
    requires IdsBelowCounter(s)
    requires AddAccepted(s, caller, req)
    requires items == s.items + [FirstRow(s, caller, req).(quantity := m)]
    ensures var row := FirstRow(s, caller, req);
            Update(items, HasId(items[|s.items|].id), Bump(items[|s.items|].quantity + req.quantity.value, req.price.value))
            == s.items + [row.(quantity := m + req.quantity.value)]
  {
    var q := req.quantity.value;
    var row := FirstRow(s, caller, req);
    var last := row.(quantity := m);
    assert items[|s.items|] == last;
    BumpLast(s.items, last, m + q, req.price.value);
    assert last.(quantity := m + q, price := req.price.value) == row.(quantity := m + q);
  }

  /** Another add of the same selection merges into the accumulated row, the last one. */
  lemma AddAgainMerges(s: Store, caller: Id, req: AddRequest, m: int)
    requires AddAccepted(s, caller, req)
    requires OrderOf(s.items, req.eventId.value, Target(caller, req.userId)) == []
    ensures var t := Grown(s, FirstRow(s, caller, req), m);
            var r := AddOrderItem(t, caller, req).store;
            && OnlyItemsChanged(t, r)
            && r.nextId == t.nextId
            && r.items == Update(t.items, HasId(t.items[|s.items|].id),
                                 Bump(t.items[|s.items|].quantity + req.quantity.value, req.price.value))
  {
    var t := Grown(s, FirstRow(s, caller, req), m);
    assert AddAccepted(t, caller, req);
    AccumulatedRowIsFirstMatch(s, caller, req, m);
    AddMergeStep(t, caller, req, |s.items|);
  }

  /** One more add of the same selection adds its quantity to the accumulated row. */
  lemma AddAgain(s: Store, caller: Id, req: AddRequest, m: int)
    requires IdsBelowCounter(s)
    requires AddAccepted(s, caller, req)
    requires OrderOf(s.items, req.eventId.value, Target(caller, req.userId)) == []
    ensures var row := FirstRow(s, caller, req);
            AddOrderItem(Grown(s, row, m), caller, req).store == Grown(s, row, m + req.quantity.value)
  {
    var t := Grown(s, FirstRow(s, caller, req), m);
    AddAgainMerges(s, caller, req, m);
    AddAgainRows(s, caller, req, m, t.items);
  }

  /** `after` is the store once the add request has been applied to `before`. */
  predicate AddsTo(before: Store, after: Store, caller: Id, req: AddRequest)
  {
    after == AddOrderItem(before, caller, req).store
  }

  /** `run` is the sequence of stores seen while sending the same add request again and again. */
  predicate AddRun(run: seq<Store>, caller: Id, req: AddRequest)
  {
    forall i :: 0 <= i < |run| - 1 ==> AddsTo(run[i], run[i + 1], caller, req)
  }

  /**
   Adding the same selection `n` times to an order that holds none of the
   target's items leaves one row, the first one inserted, whose quantity is
   `n` times the requested quantity; nothing else changes but the id counter.
   */
  lemma RepeatedAdd(s: Store, caller: Id, req: AddRequest, run: seq<Store>)
    requires IdsBelowCounter(s)
    requires AddAccepted(s, caller, req)
    requires OrderOf(s.items, req.eventId.value, Target(caller, req.userId)) == []
    requires AddRun(run, caller, req) && |run| >= 2 && run[0] == s
    ensures var n := |run| - 1;
            var row := FirstRow(s, caller, req);
            var s' := run[n];
            && OnlyItemsChanged(s, s')
            && s'.nextId == s.nextId + 1
            && s'.items == s.items + [row.(quantity := n * req.quantity.value)]
            && OrderOf(s'.items, req.eventId.value, Target(caller, req.userId)) == [row.(quantity := n * req.quantity.value)]
  {
    var q := req.quantity.value;
    var row := FirstRow(s, caller, req);
    assert AddsTo(run[0], run[1], caller, req);
    AddFirst(s, caller, req);
    var i := 1;
    while i < |run| - 1
      invariant 1 <= i <= |run| - 1
      invariant run[i] == Grown(s, row, i * q)
    {
      assert AddsTo(run[i], run[i + 1], caller, req);
      AddAgain(s, caller, req, i * q);
      assert i * q + q == (i + 1) * q;
      i := i + 1;
    }
    OrderOfAccumulated(s, caller, req, (|run| - 1) * q);
  }

  /** With the accumulated row appended, it is the whole of the target's order. */
  lemma OrderOfAccumulated(s: Store, caller: Id, req: AddRequest, m: int)
    requires AddAccepted(s, caller, req)
    requires OrderOf(s.items, req.eventId.value, Target(caller, req.userId)) == []
    ensures OrderOf(s.items + [FirstRow(s, caller, req).(quantity := m)], req.eventId.value, Target(caller, req.userId))
            == [FirstRow(s, caller, req).(quantity := m)]
  {
    SelectAppend(s.items, [FirstRow(s, caller, req).(quantity := m)], Owned(req.eventId.value, Target(caller, req.userId)));
  }

  /**
   The merge never reads the lock flag: when the first matching row is
   locked, the add still succeeds and that row (still locked) absorbs the
   quantity and takes the new price.
   */
  lemma AddMergesIntoLockedRow(s: Store, caller: Id, req: AddRequest, k: nat)
    requires AddAccepted(s, caller, req)
    requires var name := ResolveName(s.events, s.menu, req.eventId.value, req.menuId, req.customName).value;
             && k < |s.items|
             && MergesWith(req.eventId.value, Target(caller, req.userId), req.menuId, name)(s.items[k])
             && forall j :: 0 <= j < k ==> !MergesWith(req.eventId.value, Target(caller, req.userId), req.menuId, name)(s.items[j])
    requires s.items[k].locked
    ensures var r := AddOrderItem(s, caller, req);
            && r.reply == Success(s.items[k].id)
            && r.store.items[k] == s.items[k].(quantity := s.items[k].quantity + req.quantity.value, price := req.price.value)
            && r.store.items[k].locked
  {
  }

  /** Resetting an order twice is the same as resetting it once. */
  lemma ResetIdempotent(s: Store, caller: Id, req: ResetRequest)
    requires ResetOrder(s, caller, req).reply.Success?
    ensures var s1 := ResetOrder(s, caller, req).store;
            ResetOrder(s1, caller, req) == Outcome(Success(()), s1)
  {
    SelectTwice(s.items, NotOwned(req.eventId.value, Target(caller, req.userId)));
  }

  /** A permitted reset of an order that is already empty succeeds and changes nothing. */
  lemma ResetEmptyOrder(s: Store, caller: Id, req: ResetRequest)
    requires Given(req.eventId) && MayActFor(s.guests, req.eventId.value, caller, Target(caller, req.userId))
    requires OrderOf(s.items, req.eventId.value, Target(caller, req.userId)) == []
    ensures ResetOrder(s, caller, req) == Outcome(Success(()), s)
  {
    var e := req.eventId.value;
    var t := Target(caller, req.userId);
    forall i | 0 <= i < |s.items|
      ensures NotOwned(e, t)(s.items[i])
    {
      assert s.items[i] in s.items;
    }
    SelectAll(s.items, NotOwned(e, t));
  }

  /**
   The permission of update and remove reads the OWNER's guest row: an
   unlocked item owned by an organiser or co-host may be edited by any
   caller, even one with no guest row in the event.
   */
  lemma UpdateOfManagersItemByAnyone(s: Store, caller: Id, req: UpdateRequest, k: nat)
    requires UpdateFieldsValid(req)
    requires FirstJoinedAt(s, req.orderItemId.value, k)
    requires !s.items[k].locked
    requires Manages(RoleIn(s.guests, s.items[k].eventId, s.items[k].guestId))
    ensures UpdateOrderItem(s, caller, req).reply.Success?
    ensures RemoveOrderItem(s, caller, req.orderItemId).reply.Success?
  {
    FindItemAt(s, req.orderItemId.value, k);
  }

  /**
   ... and an organiser may not edit an ordinary guest's item: the caller's
   own role is never read.
   */
  lemma UpdateOfGuestItemByOrganiser(s: Store, caller: Id, req: UpdateRequest, k: nat)
    requires UpdateFieldsValid(req)
    requires FirstJoinedAt(s, req.orderItemId.value, k)
    requires !s.items[k].locked && s.items[k].guestId != caller
    requires RoleIn(s.guests, s.items[k].eventId, s.items[k].guestId) == Some(Ordinary)
    ensures UpdateOrderItem(s, caller, req) == Outcome(Failure(UnauthorisedAction), s)
    ensures RemoveOrderItem(s, caller, req.orderItemId) == Outcome(Failure(UnauthorisedAction), s)
  {
    FindItemAt(s, req.orderItemId.value, k);
  }

  /** A locked item refuses update and remove whoever the caller is, with the store unchanged. */
  lemma LockedItemRefused(s: Store, caller: Id, req: UpdateRequest, k: nat)
    requires UpdateFieldsValid(req)
    requires FirstJoinedAt(s, req.orderItemId.value, k)
    requires s.items[k].locked
    ensures UpdateOrderItem(s, caller, req) == Outcome(Failure(ItemLocked), s)
    ensures RemoveOrderItem(s, caller, req.orderItemId) == Outcome(Failure(ItemLocked), s)
  {
    FindItemAt(s, req.orderItemId.value, k);
  }

  /**
   Update assigns: a permitted update sent twice succeeds both times and
   leaves the rows as one update does.
   */
  lemma UpdateIdempotent(s: Store, caller: Id, req: UpdateRequest, k: nat)
    requires UpdateFieldsValid(req)
    requires FirstJoinedAt(s, req.orderItemId.value, k)
    requires !s.items[k].locked
    requires s.items[k].guestId == caller || Manages(RoleIn(s.guests, s.items[k].eventId, s.items[k].guestId))
    ensures var s1 := UpdateOrderItem(s, caller, req);
            && s1.reply.Success?
            && UpdateOrderItem(s1.store, caller, req) == Outcome(Success(()), s1.store)
  {
    var id := req.orderItemId.value;
    FindItemAt(s, id, k);
    var s1 := UpdateOrderItem(s, caller, req).store;
    forall j | 0 <= j < |s.items|
      ensures Joined(s1.guests, id)(s1.items[j]) == Joined(s.guests, id)(s.items[j])
    {
    }
    assert FirstJoinedAt(s1, id, k);
    FindItemAt(s1, id, k);
    assert s1.items == Update(s.items, HasId(id), SetFields(req.quantity, req.price));
    SetFieldsTwice(s.items, id, req.quantity, req.price);
  }

  /** Assigning the same fields to the same rows a second time changes nothing. */
  lemma SetFieldsTwice(items: seq<OrderItem>, id: Id, quantity: Option<int>, price: Option<Cents>)
    ensures var once := Update(items, HasId(id), SetFields(quantity, price));
            Update(once, HasId(id), SetFields(quantity, price)) == once
  {
    var once := Update(items, HasId(id), SetFields(quantity, price));
    var twice := Update(once, HasId(id), SetFields(quantity, price));
    forall j | 0 <= j < |items|
      ensures twice[j] == once[j]
    {
    }
  }
}
