/**
 The order-item ledger: the add_order_item, update_order_item,
 remove_order_item, reset_order and submit_order routes, each a transition
 from (caller, request, store) to (response, store). The caller is the user
 id from the verified token.
 */
module Ledger {
  import opened Optional
  import opened Rows
  import opened Text
  import opened Store

  // ---------------------------------------------------------------------
  // add_order_item

  datatype AddRequest = AddRequest(
    userId: Option<Id>,
    eventId: Option<Id>,
    menuId: Option<Id>,
    customName: Option<string>,
    quantity: Option<int>,
    price: Option<Cents>)

  /** The first guard: `event_id`, `quantity` and `price_at_time` are all truthy (so 0 counts as missing). */
  predicate AddFieldsGiven(req: AddRequest)
  {
    Given(req.eventId) && Given(req.quantity) && Given(req.price)
  }

  /** The request passes every check made before the store is read. */
  predicate AddFieldsValid(req: AddRequest)
  {
    AddFieldsGiven(req) && req.quantity.value > 0 && req.price.value >= 0
  }

  /** A menu row with id `menuId` whose restaurant is the event's restaurant (the menu/event join). */
  function ServedAt(events: seq<Event>, event: Id, menuId: Id): MenuRow -> bool
  {
    (m: MenuRow) => m.id == menuId && EventRestaurant(events, event) == Some(m.restaurantId)
  }

  /** The name an added item is filed under: the menu row's name, or the custom name as sent. */
  function ResolveName(events: seq<Event>, menu: seq<MenuRow>, event: Id, menuId: Option<Id>, customName: Option<string>): (r: Reply<string>)
    ensures r == Failure(InvalidMenuItem) <==>
              Given(menuId) && forall k :: 0 <= k < |menu| ==> !ServedAt(events, event, menuId.value)(menu[k])
    ensures r == Failure(MissingFields) <==> !Given(menuId) && !GivenText(customName)
    ensures r.Success? && Given(menuId) ==>
              exists k :: 0 <= k < |menu| && ServedAt(events, event, menuId.value)(menu[k]) && menu[k].itemName == r.value
    ensures r.Success? && !Given(menuId) ==> customName == Some(r.value) && |r.value| > 0
    ensures r.Success? <==>
              || (Given(menuId) && exists k :: 0 <= k < |menu| && ServedAt(events, event, menuId.value)(menu[k]))
              || (!Given(menuId) && GivenText(customName))
    ensures r.Success? || r == Failure(InvalidMenuItem) || r == Failure(MissingFields)
  {
    if Given(menuId) then
      match FirstIndex(menu, ServedAt(events, event, menuId.value))
      case None => Failure(InvalidMenuItem)
      case Some(k) => Success(menu[k].itemName)
    else if GivenText(customName) then Success(customName.value)
    else Failure(MissingFields)
  }

  /**
   The existing-row query: same event and user, and either the same non-null
   menu id, or equal `LOWER(TRIM(...))` names when the request or the row has
   no menu id. A null custom name never compares equal.
   */
  function MergesWith(event: Id, user: Id, menuId: Option<Id>, name: string): OrderItem -> bool
  {
    (it: OrderItem) =>
      && it.eventId == event
      && it.guestId == user
      && (|| (menuId.Some? && it.menuId == menuId)
          || (&& it.customName.Some?
              && NameKey(it.customName.value) == NameKey(name)
              && (menuId.None? || it.menuId.None?)))
  }

  /** No existing row matches, and one fresh unlocked row was appended. */
  predicate Inserted(s: Store, s': Store, id: Id, row: OrderItem)
  {
    && (forall j :: 0 <= j < |s.items| ==> !MergesWith(row.eventId, row.guestId, row.menuId, row.customName.GetOr(""))(s.items[j]))
    && id == s.nextId == row.id
    && !row.locked
    && s'.nextId == s.nextId + 1
    && s'.items == s.items + [row]
  }

  /**
   Row `k` is the first row matching the selection; every row carrying its id
   now has quantity `items[k].quantity + q` and price `p` (lock flag and all
   else as before), and no other row changed.
   */
  predicate Merged(s: Store, s': Store, id: Id, k: nat, matches: OrderItem -> bool, q: int, p: Cents)
  {
    && k < |s.items|
    && s.items[k].id == id
    && matches(s.items[k])
    && (forall j :: 0 <= j < k ==> !matches(s.items[j]))
    && s'.nextId == s.nextId
    && |s'.items| == |s.items|
    && forall j :: 0 <= j < |s.items| ==>
         s'.items[j] == if s.items[j].id == id then s.items[j].(quantity := s.items[k].quantity + q, price := p) else s.items[j]
  }

  function Bump(q: int, p: Cents): OrderItem -> OrderItem
  {
    (it: OrderItem) => it.(quantity := q, price := p)
  }

  /**
   The effect of a successful add of `row`: either it was inserted, or the
   first row matching it (same event and owner, same menu item or same
   normalised custom name) absorbed its quantity and price.
   */
  predicate Added(s: Store, s': Store, id: Id, row: OrderItem)
  {
    var matches := MergesWith(row.eventId, row.guestId, row.menuId, row.customName.GetOr(""));
    match FirstIndex(s.items, matches)
    case None => Inserted(s, s', id, row)
    case Some(k) => Merged(s, s', id, k, matches, row.quantity, row.price)
  }

  /** Bumping every row that carries the first match's id is a merge into that row. */
  lemma MergedByUpdate(s: Store, k: nat, row: OrderItem)
    requires FirstIndex(s.items, MergesWith(row.eventId, row.guestId, row.menuId, row.customName.GetOr(""))) == Some(k)
    ensures var existing := s.items[k];
            Added(s, s.(items := Update(s.items, HasId(existing.id), Bump(existing.quantity + row.quantity, row.price))), existing.id, row)
  {
    var existing := s.items[k];
    var s' := s.(items := Update(s.items, HasId(existing.id), Bump(existing.quantity + row.quantity, row.price)));
    assert Merged(s, s', existing.id, k, MergesWith(row.eventId, row.guestId, row.menuId, row.customName.GetOr("")), row.quantity, row.price);
  }

  /** Appending a fresh unlocked row when no row matches it is an insert. */
  lemma InsertedWhenNoMatch(s: Store, row: OrderItem)
    requires row.id == s.nextId && !row.locked
    requires FirstIndex(s.items, MergesWith(row.eventId, row.guestId, row.menuId, row.customName.GetOr(""))).None?
    ensures Added(s, s.(items := s.items + [row], nextId := s.nextId + 1), row.id, row)
  {
  }

  function AddOrderItem(s: Store, caller: Id, req: AddRequest): (r: Outcome<Id>)
    ensures !AddFieldsGiven(req) ==> r == Outcome(Failure(MissingFields), s)
    ensures AddFieldsGiven(req) && req.quantity.value <= 0 ==> r == Outcome(Failure(InvalidQuantity), s)
    ensures AddFieldsGiven(req) && req.quantity.value > 0 && req.price.value < 0 ==> r == Outcome(Failure(InvalidPrice), s)
    ensures AddFieldsValid(req) && !MayActFor(s.guests, req.eventId.value, caller, Target(caller, req.userId)) ==>
              r == Outcome(Failure(UnauthorisedAction), s)
    ensures AddFieldsValid(req) && MayActFor(s.guests, req.eventId.value, caller, Target(caller, req.userId))
            && ResolveName(s.events, s.menu, req.eventId.value, req.menuId, req.customName).Failure? ==>
              r == Outcome(Failure(ResolveName(s.events, s.menu, req.eventId.value, req.menuId, req.customName).code), s)
    ensures r.reply.Failure? ==> r.store == s
    ensures r.reply.Success? ==> OnlyItemsChanged(s, r.store)
    ensures r.reply.Success? <==>
              && AddFieldsValid(req)
              && MayActFor(s.guests, req.eventId.value, caller, Target(caller, req.userId))
              && ResolveName(s.events, s.menu, req.eventId.value, req.menuId, req.customName).Success?
    ensures r.reply.Success? ==>
              var e := req.eventId.value;
              var t := Target(caller, req.userId);
              var name := ResolveName(s.events, s.menu, e, req.menuId, req.customName).value;
              Added(s, r.store, r.reply.value, OrderItem(s.nextId, e, t, req.menuId, Some(name), req.quantity.value, req.price.value, false))
  {
    var target := Target(caller, req.userId);
    if !AddFieldsGiven(req) then Outcome(Failure(MissingFields), s)
    else if req.quantity.value <= 0 then Outcome(Failure(InvalidQuantity), s)
    else if req.price.value < 0 then Outcome(Failure(InvalidPrice), s)
    else
      var event := req.eventId.value;
      if target != caller && !Manages(RoleIn(s.guests, event, caller)) then Outcome(Failure(UnauthorisedAction), s)
      else match ResolveName(s.events, s.menu, event, req.menuId, req.customName)
        case Failure(c) => Outcome(Failure(c), s)
        case Success(name) =>
          var q := req.quantity.value;
          var p := req.price.value;
          Upsert(s, OrderItem(s.nextId, event, target, req.menuId, Some(name), q, p, false))
  }

  /**
   The write half of an add, once the request is validated and the name
   resolved: merge into the first matching row, or insert `row`.
   */
  function Upsert(s: Store, row: OrderItem): (r: Outcome<Id>)
    requires row.id == s.nextId && !row.locked
    ensures r.reply.Success? && OnlyItemsChanged(s, r.store)
    ensures Added(s, r.store, r.reply.value, row)
  {
    match FirstIndex(s.items, MergesWith(row.eventId, row.guestId, row.menuId, row.customName.GetOr("")))
    case Some(k) =>
      var existing := s.items[k];
      var items' := Update(s.items, HasId(existing.id), Bump(existing.quantity + row.quantity, row.price));
      MergedByUpdate(s, k, row);
      Outcome(Success(existing.id), s.(items := items'))
    case None =>
      InsertedWhenNoMatch(s, row);
      Outcome(Success(row.id), s.(items := s.items + [row], nextId := s.nextId + 1))
  }

  // ---------------------------------------------------------------------
  // update_order_item and remove_order_item

  /** Rows with id `id` whose owner has a guest row in the item's event (the inner join on guest). */
  function Joined(guests: seq<Guest>, id: Id): OrderItem -> bool
  {
    (it: OrderItem) => it.id == id && RoleIn(guests, it.eventId, it.guestId).Some?
  }

  /**
   The item lookup of update and remove: the first joined row with that id,
   and the role read from the OWNER's guest row.
   */
  function FindItem(s: Store, id: Id): (r: Option<(nat, Role)>)
    ensures r.None? <==>
              forall i :: 0 <= i < |s.items| && s.items[i].id == id ==> RoleIn(s.guests, s.items[i].eventId, s.items[i].guestId).None?
    ensures r.Some? ==>
              && r.value.0 < |s.items|
              && s.items[r.value.0].id == id
              && RoleIn(s.guests, s.items[r.value.0].eventId, s.items[r.value.0].guestId) == Some(r.value.1)
  {
    match FirstIndex(s.items, Joined(s.guests, id))
    case None => None
    case Some(k) => Some((k, RoleIn(s.guests, s.items[k].eventId, s.items[k].guestId).value))
  }

  /** Row `k` is the first row with id `id` whose owner is a guest of its event: the row the lookup of update and remove returns. */
  predicate FirstJoinedAt(s: Store, id: Id, k: nat)
  {
    && k < |s.items|
    && Joined(s.guests, id)(s.items[k])
    && forall j :: 0 <= j < k ==> !Joined(s.guests, id)(s.items[j])
  }

  /** The lookup finds exactly the first joined row, with its owner's role. */
  lemma FindItemAt(s: Store, id: Id, k: nat)
    requires FirstJoinedAt(s, id, k)
    ensures FindItem(s, id) == Some((k, RoleIn(s.guests, s.items[k].eventId, s.items[k].guestId).value))
  {
    FirstIndexAt(s.items, Joined(s.guests, id), k);
  }

  /** The permission test of update and remove: the caller owns the item, or the OWNER's role is organiser or co-host. */
  predicate MayEdit(s: Store, caller: Id, found: (nat, Role))
    requires found.0 < |s.items|
  {
    s.items[found.0].guestId == caller || Manages(Some(found.1))
  }

  datatype UpdateRequest = UpdateRequest(orderItemId: Option<Id>, quantity: Option<int>, price: Option<Cents>)

  /** `order_item_id` truthy, and a quantity sent (0 included) or a truthy price. */
  predicate UpdateFieldsGiven(req: UpdateRequest)
  {
    Given(req.orderItemId) && (req.quantity.Some? || Given(req.price))
  }

  predicate UpdateFieldsValid(req: UpdateRequest)
  {
    && UpdateFieldsGiven(req)
    && (req.quantity.Some? ==> req.quantity.value > 0)
    && (req.price.Some? ==> req.price.value >= 0)
  }

  function SetFields(quantity: Option<int>, price: Option<Cents>): OrderItem -> OrderItem
  {
    (it: OrderItem) => it.(quantity := quantity.GetOr(it.quantity), price := price.GetOr(it.price))
  }

  function UpdateOrderItem(s: Store, caller: Id, req: UpdateRequest): (r: Outcome<()>)
    ensures !UpdateFieldsGiven(req) ==> r == Outcome(Failure(MissingFields), s)
    ensures UpdateFieldsGiven(req) && req.quantity.Some? && req.quantity.value <= 0 ==> r == Outcome(Failure(InvalidQuantity), s)
    ensures UpdateFieldsGiven(req) && (req.quantity.Some? ==> req.quantity.value > 0) && req.price.Some? && req.price.value < 0 ==>
              r == Outcome(Failure(InvalidPrice), s)
    ensures r.reply.Failure? ==> r.store == s
    ensures UpdateFieldsValid(req) ==> (r.reply == Failure(ItemNotFound) <==> FindItem(s, req.orderItemId.value).None?)
    ensures r.reply == Failure(ItemLocked) <==>
              && UpdateFieldsValid(req)
              && FindItem(s, req.orderItemId.value).Some?
              && s.items[FindItem(s, req.orderItemId.value).value.0].locked
    ensures r.reply.Success? <==>
              && UpdateFieldsValid(req)
              && FindItem(s, req.orderItemId.value).Some?
              && !s.items[FindItem(s, req.orderItemId.value).value.0].locked
              && MayEdit(s, caller, FindItem(s, req.orderItemId.value).value)
    ensures r.reply.Success? ==>
              && OnlyItemsChanged(s, r.store)
              && r.store.nextId == s.nextId
              && |r.store.items| == |s.items|
              && forall j :: 0 <= j < |s.items| ==>
                   r.store.items[j] == if s.items[j].id == req.orderItemId.value
                                       then s.items[j].(quantity := req.quantity.GetOr(s.items[j].quantity),
                                                        price := req.price.GetOr(s.items[j].price))
                                       else s.items[j]
  {
    if !UpdateFieldsGiven(req) then Outcome(Failure(MissingFields), s)
    else if req.quantity.Some? && req.quantity.value <= 0 then Outcome(Failure(InvalidQuantity), s)
    else if req.price.Some? && req.price.value < 0 then Outcome(Failure(InvalidPrice), s)
    else
      var id := req.orderItemId.value;
      match FindItem(s, id)
      case None => Outcome(Failure(ItemNotFound), s)
      case Some(found) =>
        if s.items[found.0].locked then Outcome(Failure(ItemLocked), s)
        else if !MayEdit(s, caller, found) then Outcome(Failure(UnauthorisedAction), s)
        else Outcome(Success(()), s.(items := Update(s.items, HasId(id), SetFields(req.quantity, req.price))))
  }

  function LacksId(id: Id): OrderItem -> bool
  {
    (it: OrderItem) => it.id != id
  }

  function RemoveOrderItem(s: Store, caller: Id, orderItemId: Option<Id>): (r: Outcome<()>)
    ensures !Given(orderItemId) ==> r == Outcome(Failure(MissingFields), s)
    ensures r.reply.Failure? ==> r.store == s
    ensures Given(orderItemId) ==> (r.reply == Failure(ItemNotFound) <==> FindItem(s, orderItemId.value).None?)
    ensures r.reply == Failure(ItemLocked) <==>
              Given(orderItemId) && FindItem(s, orderItemId.value).Some? && s.items[FindItem(s, orderItemId.value).value.0].locked
    ensures r.reply.Success? <==>
              && Given(orderItemId)
              && FindItem(s, orderItemId.value).Some?
              && !s.items[FindItem(s, orderItemId.value).value.0].locked
              && MayEdit(s, caller, FindItem(s, orderItemId.value).value)
    ensures r.reply.Success? ==>
              && OnlyItemsChanged(s, r.store)
              && r.store.nextId == s.nextId
              && |r.store.items| < |s.items|
              && forall it :: it in r.store.items <==> it in s.items && it.id != orderItemId.value
  {
    if !Given(orderItemId) then Outcome(Failure(MissingFields), s)
    else
      var id := orderItemId.value;
      match FindItem(s, id)
      case None => Outcome(Failure(ItemNotFound), s)
      case Some(found) =>
        if s.items[found.0].locked then Outcome(Failure(ItemLocked), s)
        else if !MayEdit(s, caller, found) then Outcome(Failure(UnauthorisedAction), s)
        else
          var items' := Select(s.items, LacksId(id));
          assert |items'| < |s.items| by {
            SelectShrinks(s.items, LacksId(id), found.0);
          }
          Outcome(Success(()), s.(items := items'))
  }

  /** Dropping a row that exists makes the table shorter. */
  lemma {:induction false} SelectShrinks(xs: seq<OrderItem>, p: OrderItem -> bool, k: nat)
    requires k < |xs| && !p(xs[k])
    ensures |Select(xs, p)| < |xs|
  {
    if k > 0 {
      SelectShrinks(xs[1..], p, k - 1);
    }
  }

  // ---------------------------------------------------------------------
  // reset_order

  datatype ResetRequest = ResetRequest(userId: Option<Id>, eventId: Option<Id>)

  function ResetOrder(s: Store, caller: Id, req: ResetRequest): (r: Outcome<()>)
    ensures !Given(req.eventId) ==> r == Outcome(Failure(MissingFields), s)
    ensures Given(req.eventId) && !MayActFor(s.guests, req.eventId.value, caller, Target(caller, req.userId)) ==>
              r == Outcome(Failure(UnauthorisedAction), s)
    ensures r.reply.Failure? ==> r.store == s
    ensures r.reply.Success? <==>
              Given(req.eventId) && MayActFor(s.guests, req.eventId.value, caller, Target(caller, req.userId))
    ensures r.reply.Success? ==>
              var e := req.eventId.value;
              var t := Target(caller, req.userId);
              && OnlyItemsChanged(s, r.store)
              && r.store.nextId == s.nextId
              && OrderOf(r.store.items, e, t) == []
              && forall it :: it in r.store.items <==> it in s.items && !(it.eventId == e && it.guestId == t)
  {
    if !Given(req.eventId) then Outcome(Failure(MissingFields), s)
    else
      var event := req.eventId.value;
      var target := Target(caller, req.userId);
      if target != caller && !Manages(RoleIn(s.guests, event, caller)) then Outcome(Failure(UnauthorisedAction), s)
      else
        var items' := Select(s.items, NotOwned(event, target));
        ClearedOrder(s.items, event, target);
        Outcome(Success(()), s.(items := items'))
  }

  // ---------------------------------------------------------------------
  // submit_order

  datatype SubmitItem = SubmitItem(menuId: Option<Id>, customName: Option<string>, quantity: Option<int>, price: Option<Cents>)

  /** `items` is None when the body's `items` is not an array. */
  datatype SubmitRequest = SubmitRequest(userId: Option<Id>, eventId: Option<Id>, items: Option<seq<SubmitItem>>)

  /** The per-item checks of the insert loop, in order: INVALID_ITEM, then INVALID_MENU_ITEM. */
  function CheckItem(menu: seq<MenuRow>, restaurant: Id, x: SubmitItem): (r: Option<Code>)
    ensures r == Some(InvalidItem) <==>
              (!Given(x.menuId) && !GivenText(x.customName)) || x.quantity.None? || x.price.None?
    ensures r == Some(InvalidMenuItem) <==>
              && (Given(x.menuId) || GivenText(x.customName))
              && x.quantity.Some? && x.price.Some?
              && Given(x.menuId) && !OnMenu(menu, x.menuId.value, restaurant)
    ensures r.None? || r == Some(InvalidItem) || r == Some(InvalidMenuItem)
  {
    if (!Given(x.menuId) && !GivenText(x.customName)) || x.quantity.None? || x.price.None? then Some(InvalidItem)
    else if Given(x.menuId) && !OnMenu(menu, x.menuId.value, restaurant) then Some(InvalidMenuItem)
    else None
  }

  function Rejected(menu: seq<MenuRow>, restaurant: Id): SubmitItem -> bool
  {
    (x: SubmitItem) => CheckItem(menu, restaurant, x).Some?
  }

  /** How many items pass their checks before the first that fails (all of them when none fails). */
  function AcceptedCount(menu: seq<MenuRow>, restaurant: Id, xs: seq<SubmitItem>): (n: nat)
    ensures n <= |xs|
    ensures forall j :: 0 <= j < n ==> CheckItem(menu, restaurant, xs[j]).None?
    ensures n < |xs| ==> CheckItem(menu, restaurant, xs[n]).Some?
  {
    match FirstIndex(xs, Rejected(menu, restaurant))
    case None => |xs|
    case Some(k) => k
  }

  /** The row inserted for an item: `menu_id || null`, and a null custom name whenever a menu id is set. */
  function RowFor(id: Id, event: Id, user: Id, x: SubmitItem): OrderItem
  {
    OrderItem(id, event, user,
              if Given(x.menuId) then x.menuId else None,
              if Given(x.menuId) then None else x.customName,
              x.quantity.GetOr(0), x.price.GetOr(0), false)
  }

  /** The rows for `xs`, with consecutive ids from `start`. */
  function RowsFor(start: Id, event: Id, user: Id, xs: seq<SubmitItem>): seq<OrderItem>
  {
    seq(|xs|, j requires 0 <= j < |xs| => RowFor(start + j, event, user, xs[j]))
  }

  lemma RowsForOwned(start: Id, event: Id, user: Id, xs: seq<SubmitItem>)
    ensures forall j :: 0 <= j < |xs| ==> RowsFor(start, event, user, xs)[j].eventId == event
    ensures forall j :: 0 <= j < |xs| ==> RowsFor(start, event, user, xs)[j].guestId == user
  {
  }

  /** The amount a submitted list is worth: the sum of quantity times price over its items. */
  function SubmittedTotal(xs: seq<SubmitItem>): Cents
  {
    if |xs| == 0 then 0 else xs[0].quantity.GetOr(0) * xs[0].price.GetOr(0) + SubmittedTotal(xs[1..])
  }

  /** The insert loop: each item is checked, then inserted, adding to the running total. */
  function InsertItems(s: Store, event: Id, user: Id, restaurant: Id, xs: seq<SubmitItem>, total: Cents): (r: Outcome<Cents>)
    decreases |xs|
    ensures OnlyItemsChanged(s, r.store)
    ensures var n := AcceptedCount(s.menu, restaurant, xs);
            && r.store.items == s.items + RowsFor(s.nextId, event, user, xs[..n])
            && r.store.nextId == s.nextId + n
            && (r.reply.Success? <==> n == |xs|)
            && (r.reply.Success? ==> r.reply.value == total + SubmittedTotal(xs))
            && (r.reply.Failure? ==> Some(r.reply.code) == CheckItem(s.menu, restaurant, xs[n]))
  {
    if |xs| == 0 then Outcome(Success(total), s)
    else match CheckItem(s.menu, restaurant, xs[0])
      case Some(c) => Outcome(Failure(c), s)
      case None =>
        var row := RowFor(s.nextId, event, user, xs[0]);
        var s1 := s.(items := s.items + [row], nextId := s.nextId + 1);
        var r := InsertItems(s1, event, user, restaurant, xs[1..], total + Subtotal(row));
        InsertItemsStep(s, event, user, restaurant, xs);
        r
  }

  lemma InsertItemsStep(s: Store, event: Id, user: Id, restaurant: Id, xs: seq<SubmitItem>)
    requires |xs| > 0 && CheckItem(s.menu, restaurant, xs[0]).None?
    ensures AcceptedCount(s.menu, restaurant, xs) == AcceptedCount(s.menu, restaurant, xs[1..]) + 1
    ensures var n := AcceptedCount(s.menu, restaurant, xs[1..]);
            s.items + RowsFor(s.nextId, event, user, xs[..n + 1])
            == (s.items + [RowFor(s.nextId, event, user, xs[0])]) + RowsFor(s.nextId + 1, event, user, xs[1..][..n])
  {
    var n := AcceptedCount(s.menu, restaurant, xs[1..]);
    var a := RowsFor(s.nextId, event, user, xs[..n + 1]);
    var b := RowsFor(s.nextId + 1, event, user, xs[1..][..n]);
    assert a == [RowFor(s.nextId, event, user, xs[0])] + b;
  }

  /** Whether the request is well formed: a truthy event id and a non-empty items array. */
  predicate SubmitFieldsGiven(req: SubmitRequest)
  {
    Given(req.eventId) && req.items.Some? && |req.items.value| > 0
  }

  function SubmitOrder(s: Store, caller: Id, req: SubmitRequest): (r: Outcome<Cents>)
    ensures !SubmitFieldsGiven(req) ==> r == Outcome(Failure(MissingFields), s)
    ensures SubmitFieldsGiven(req) && !MayActFor(s.guests, req.eventId.value, caller, Target(caller, req.userId)) ==>
              r == Outcome(Failure(UnauthorisedAction), s)
    ensures SubmitFieldsGiven(req) && MayActFor(s.guests, req.eventId.value, caller, Target(caller, req.userId)) ==>
              var e := req.eventId.value;
              var t := Target(caller, req.userId);
              var xs := req.items.value;
              && OnlyItemsChanged(s, r.store)
              && (forall it :: it in s.items && !(it.eventId == e && it.guestId == t) ==> it in r.store.items)
              && (forall it :: it in r.store.items ==> it in s.items || (it.eventId == e && it.guestId == t))
              && (EventRestaurant(s.events, e).None? ==>
                    r.reply == Failure(EventNotFound) && OrderOf(r.store.items, e, t) == [])
              && (EventRestaurant(s.events, e).Some? ==>
                    var n := AcceptedCount(s.menu, EventRestaurant(s.events, e).value, xs);
                    && OrderOf(r.store.items, e, t) == RowsFor(s.nextId, e, t, xs[..n])
                    && (r.reply.Success? <==> n == |xs|)
                    && (r.reply.Success? ==> r.reply.value == SubmittedTotal(xs))
                    && (r.reply.Failure? ==> Some(r.reply.code) == CheckItem(s.menu, EventRestaurant(s.events, e).value, xs[n])))
  {
    if !SubmitFieldsGiven(req) then Outcome(Failure(MissingFields), s)
    else
      var event := req.eventId.value;
      var target := Target(caller, req.userId);
      if target != caller && !Manages(RoleIn(s.guests, event, caller)) then Outcome(Failure(UnauthorisedAction), s)
      else
        var cleared := s.(items := Select(s.items, NotOwned(event, target)));
        ClearedOrder(s.items, event, target);
        assert forall it :: it in cleared.items <==> it in s.items && NotOwned(event, target)(it);
        match EventRestaurant(s.events, event)
        case None => Outcome(Failure(EventNotFound), cleared)
        case Some(restaurant) =>
          SubmitInserts(s, event, target, restaurant, req.items.value);
          InsertItems(cleared, event, target, restaurant, req.items.value, 0)
  }

  /** What the insert loop of submit_order leaves behind, starting from the store with the user's order deleted. */
  lemma SubmitInserts(s: Store, event: Id, user: Id, restaurant: Id, xs: seq<SubmitItem>)
    ensures var cleared := s.(items := Select(s.items, NotOwned(event, user)));
            var r := InsertItems(cleared, event, user, restaurant, xs, 0);
            var n := AcceptedCount(s.menu, restaurant, xs);
            && OnlyItemsChanged(s, r.store)
            && (forall it :: it in s.items && !(it.eventId == event && it.guestId == user) ==> it in r.store.items)
            && (forall it :: it in r.store.items ==> it in s.items || (it.eventId == event && it.guestId == user))
            && OrderOf(r.store.items, event, user) == RowsFor(s.nextId, event, user, xs[..n])
            && (r.reply.Success? <==> n == |xs|)
            && (r.reply.Success? ==> r.reply.value == SubmittedTotal(xs))
            && (r.reply.Failure? ==> Some(r.reply.code) == CheckItem(s.menu, restaurant, xs[n]))
  {
    var kept := Select(s.items, NotOwned(event, user));
    var cleared := s.(items := kept);
    var r := InsertItems(cleared, event, user, restaurant, xs, 0);
    var n := AcceptedCount(s.menu, restaurant, xs);
    var rows := RowsFor(s.nextId, event, user, xs[..n]);
    assert r.store.items == kept + rows;
    RowsForOwned(s.nextId, event, user, xs[..n]);
    ClearedOrder(s.items, event, user);
    ReplacedOrder(kept, event, user, rows);
    ReplacedRows(s.items, event, user, rows);
  }

  /** Deleting a user's rows and appending rows of theirs keeps every other row and adds none. */
  lemma ReplacedRows(items: seq<OrderItem>, event: Id, user: Id, rows: seq<OrderItem>)
    requires forall j :: 0 <= j < |rows| ==> rows[j].eventId == event && rows[j].guestId == user
    ensures var after := Select(items, NotOwned(event, user)) + rows;
            && (forall it :: it in items && !(it.eventId == event && it.guestId == user) ==> it in after)
            && (forall it :: it in after ==> it in items || (it.eventId == event && it.guestId == user))
  {
    var kept := Select(items, NotOwned(event, user));
    forall it | it in kept + rows
      ensures it in items || (it.eventId == event && it.guestId == user)
    {
      if it !in kept {
        assert it in rows;
      }
    }
  }

  /** Appending rows that all belong to (event, user) to a table holding none of theirs makes them the whole order. */
  lemma ReplacedOrder(kept: seq<OrderItem>, event: Id, user: Id, rows: seq<OrderItem>)
    requires OrderOf(kept, event, user) == []
    requires forall j :: 0 <= j < |rows| ==> rows[j].eventId == event && rows[j].guestId == user
    ensures OrderOf(kept + rows, event, user) == rows
  {
    var owned := Owned(event, user);
    SelectAppend(kept, rows, owned);
    forall j | 0 <= j < |rows|
      ensures owned(rows[j])
    {
    }
    SelectAll(rows, owned);
    assert Select(kept, owned) + Select(rows, owned) == [] + rows;
  }
}
