/**
 The read-only routes: get_event_bill (per-guest lines, subtotals and
 totals), get_guest_order (one guest's lines) and get_event_menu (the
 restaurant's menu with the event's selections of each item). None of them
 returns a store: they cannot write.
 */
module Reports {
  import opened Optional
  import opened Rows
  import opened Store

  // ---------------------------------------------------------------------
  // get_event_bill

  /** One bill line; `subtotal` is `quantity * price_at_time`, exact in cents. */
  datatype BillLine = BillLine(item: Option<string>, quantity: int, price: Cents, subtotal: Cents)

  datatype BillEntry = BillEntry(userId: Id, name: string, role: Role, items: seq<BillLine>, total: Cents)

  function BillLineOf(menu: seq<MenuRow>): OrderItem -> BillLine
  {
    (it: OrderItem) => BillLine(ItemName(menu, it), it.quantity, it.price, Subtotal(it))
  }

  /** `items.reduce((sum, i) => sum + i.subtotal, 0)`. */
  function LinesTotal(lines: seq<BillLine>): Cents
  {
    if |lines| == 0 then 0 else lines[0].subtotal + LinesTotal(lines[1..])
  }

  /** Guest rows of the event that join an app_user row (the bill's inner join). */
  function Billed(users: seq<User>, event: Id): Guest -> bool
  {
    (g: Guest) => g.eventId == event && UserName(users, g.userId).Some?
  }

  function EntryFor(s: Store, event: Id, g: Guest): BillEntry
    requires UserName(s.users, g.userId).Some?
  {
    var lines := Map(OrderOf(s.items, event, g.userId), BillLineOf(s.menu));
    BillEntry(g.userId, UserName(s.users, g.userId).value, g.role, lines, LinesTotal(lines))
  }

  /** `eventId` is the route parameter; only its absence is MISSING_FIELDS. No event lookup is made. */
  function EventBill(s: Store, eventId: Option<Id>): (r: Reply<seq<BillEntry>>)
    ensures r.Failure? <==> eventId.None?
    ensures r.Failure? ==> r.code == MissingFields
    ensures r.Success? ==>
              var guests := Select(s.guests, Billed(s.users, eventId.value));
              && |r.value| == |guests|
              && forall i :: 0 <= i < |guests| ==>
                   && guests[i] in s.guests
                   && guests[i].eventId == eventId.value
                   && r.value[i].userId == guests[i].userId
                   && r.value[i].role == guests[i].role
                   && r.value[i].name == UserName(s.users, guests[i].userId).value
                   && |r.value[i].items| == |OrderOf(s.items, eventId.value, guests[i].userId)|
    ensures r.Success? ==>
              forall i, j :: 0 <= i < |r.value| && 0 <= j < |r.value[i].items| ==>
                r.value[i].items[j].subtotal == r.value[i].items[j].quantity * r.value[i].items[j].price
  {
    if eventId.None? then Failure(MissingFields)
    else
      var e := eventId.value;
      var guests := Select(s.guests, Billed(s.users, e));
      assert forall i :: 0 <= i < |guests| ==> guests[i] in guests;
      Success(seq(|guests|, i requires 0 <= i < |guests| => EntryFor(s, e, guests[i])))
  }

  // ---------------------------------------------------------------------
  // get_guest_order

  datatype OrderLine = OrderLine(menuId: Option<Id>, itemName: Option<string>, quantity: int, price: Cents, locked: bool)

  datatype GuestOrderRequest = GuestOrderRequest(eventId: Option<Id>, userId: Option<Id>)

  function OrderLineOf(menu: seq<MenuRow>): OrderItem -> OrderLine
  {
    (it: OrderItem) => OrderLine(it.menuId, ItemName(menu, it), it.quantity, it.price, it.locked)
  }

  function GuestOrder(s: Store, caller: Id, req: GuestOrderRequest): (r: Reply<seq<OrderLine>>)
    ensures !Given(req.eventId) ==> r == Failure(MissingFields)
    ensures Given(req.eventId) && !MayActFor(s.guests, req.eventId.value, caller, Target(caller, req.userId)) ==>
              r == Failure(UnauthorisedAction)
    ensures r.Success? <==> Given(req.eventId) && MayActFor(s.guests, req.eventId.value, caller, Target(caller, req.userId))
    ensures r.Success? ==>
              var order := OrderOf(s.items, req.eventId.value, Target(caller, req.userId));
              && |r.value| == |order|
              && forall i :: 0 <= i < |order| ==>
                   && r.value[i].menuId == order[i].menuId
                   && r.value[i].quantity == order[i].quantity
                   && r.value[i].price == order[i].price
                   && r.value[i].locked == order[i].locked
                   && r.value[i].itemName == ItemName(s.menu, order[i])
  {
    if !Given(req.eventId) then Failure(MissingFields)
    else
      var e := req.eventId.value;
      var target := Target(caller, req.userId);
      if target != caller && !Manages(RoleIn(s.guests, e, caller)) then Failure(UnauthorisedAction)
      else Success(Map(OrderOf(s.items, e, target), OrderLineOf(s.menu)))
  }

  // ---------------------------------------------------------------------
  // get_event_menu

  datatype Selection = Selection(userId: Id, quantity: int, price: Cents, locked: bool)

  datatype MenuEntry = MenuEntry(menuId: Id, itemName: string, price: Cents, selections: seq<Selection>)

  function SelectionOf(it: OrderItem): Selection
  {
    Selection(it.guestId, it.quantity, it.price, it.locked)
  }

  function FromRestaurant(restaurant: Id): MenuRow -> bool
  {
    (m: MenuRow) => m.restaurantId == restaurant
  }

  /** `WHERE event_id = event AND menu_id = menuId`: a null menu id never matches. */
  function ChoseItem(event: Id, menuId: Id): OrderItem -> bool
  {
    (it: OrderItem) => it.eventId == event && it.menuId == Some(menuId)
  }

  function EntryOf(items: seq<OrderItem>, event: Id): MenuRow -> MenuEntry
  {
    (m: MenuRow) => MenuEntry(m.id, m.itemName, m.price, Map(Select(items, ChoseItem(event, m.id)), SelectionOf))
  }

  /** The entry `e` describes menu row `m`. */
  predicate Describes(e: MenuEntry, m: MenuRow)
  {
    e.menuId == m.id && e.itemName == m.itemName && e.price == m.price
  }

  /** Some menu row of `restaurant` is what `entry` describes. */
  predicate Listed(menu: seq<MenuRow>, restaurant: Id, entry: MenuEntry)
  {
    exists m :: m in menu && m.restaurantId == restaurant && Describes(entry, m)
  }

  /**
   get_event_menu: entry `k` describes the `k`-th menu row of the event's
   restaurant, and its selections are the event's items that chose that row,
   one per item row and in row order (two identical rows give two selections).
   */
  function EventMenu(s: Store, eventId: Option<Id>): (r: Reply<seq<MenuEntry>>)
    ensures eventId.None? ==> r == Failure(MissingFields)
    ensures eventId.Some? && EventRestaurant(s.events, eventId.value).None? ==> r == Failure(EventNotFound)
    ensures r.Success? <==> eventId.Some? && EventRestaurant(s.events, eventId.value).Some?
    ensures r.Success? ==>
              var e := eventId.value;
              var restaurant := EventRestaurant(s.events, e).value;
              var rows := Select(s.menu, FromRestaurant(restaurant));
              && |r.value| == |rows|
              && (forall k :: 0 <= k < |rows| ==>
                    var chosen := Select(s.items, ChoseItem(e, rows[k].id));
                    && Describes(r.value[k], rows[k])
                    && |r.value[k].selections| == |chosen|
                    && forall j :: 0 <= j < |chosen| ==> r.value[k].selections[j] == SelectionOf(chosen[j]))
              && (forall m :: m in s.menu && m.restaurantId == restaurant ==>
                    exists k :: 0 <= k < |r.value| && Describes(r.value[k], m))
              && (forall k :: 0 <= k < |r.value| ==> Listed(s.menu, restaurant, r.value[k]))
              && (forall k, it :: 0 <= k < |r.value| && it in s.items && it.eventId == e && it.menuId == Some(r.value[k].menuId) ==>
                    SelectionOf(it) in r.value[k].selections)
              && (forall k, x :: 0 <= k < |r.value| && x in r.value[k].selections ==>
                    exists it :: it in s.items && it.eventId == e && it.menuId == Some(r.value[k].menuId) && SelectionOf(it) == x)
  {
    if eventId.None? then Failure(MissingFields)
    else
      var e := eventId.value;
      match EventRestaurant(s.events, e)
      case None => Failure(EventNotFound)
      case Some(restaurant) =>
        var rows := Select(s.menu, FromRestaurant(restaurant));
        var entries := Map(rows, EntryOf(s.items, e));
        MenuRowsCovered(s.menu, restaurant, rows, entries, s.items, e);
        SelectionsExact(s.items, e, rows, entries);
        Success(entries)
  }

  lemma MenuRowsCovered(menu: seq<MenuRow>, restaurant: Id, rows: seq<MenuRow>, entries: seq<MenuEntry>, items: seq<OrderItem>, e: Id)
    requires rows == Select(menu, FromRestaurant(restaurant))
    requires entries == Map(rows, EntryOf(items, e))
    ensures forall m :: m in menu && m.restaurantId == restaurant ==> exists k :: 0 <= k < |entries| && Describes(entries[k], m)
    ensures forall k :: 0 <= k < |entries| ==> Listed(menu, restaurant, entries[k])
  {
    forall m | m in menu && m.restaurantId == restaurant
      ensures exists k :: 0 <= k < |entries| && Describes(entries[k], m)
    {
      assert m in rows;
      var k :| 0 <= k < |rows| && rows[k] == m;
      assert Describes(entries[k], m);
    }
    forall k | 0 <= k < |entries|
      ensures Listed(menu, restaurant, entries[k])
    {
      assert |entries| == |rows|;
      assert rows[k] in rows;
      assert FromRestaurant(restaurant)(rows[k]);
      assert rows[k] in menu && rows[k].restaurantId == restaurant && Describes(entries[k], rows[k]);
    }
  }

  lemma SelectionsExact(items: seq<OrderItem>, e: Id, rows: seq<MenuRow>, entries: seq<MenuEntry>)
    requires entries == Map(rows, EntryOf(items, e))
    ensures forall k, it :: 0 <= k < |entries| && it in items && it.eventId == e && it.menuId == Some(entries[k].menuId) ==>
              SelectionOf(it) in entries[k].selections
    ensures forall k, x :: 0 <= k < |entries| && x in entries[k].selections ==>
              exists it :: it in items && it.eventId == e && it.menuId == Some(entries[k].menuId) && SelectionOf(it) == x
  {
    forall k, it | 0 <= k < |entries| && it in items && it.eventId == e && it.menuId == Some(entries[k].menuId)
      ensures SelectionOf(it) in entries[k].selections
    {
      var chosen := Select(items, ChoseItem(e, entries[k].menuId));
      assert entries[k].selections == Map(chosen, SelectionOf);
      assert it in chosen;
      var j :| 0 <= j < |chosen| && chosen[j] == it;
      assert entries[k].selections[j] == SelectionOf(it);
    }
    forall k, x | 0 <= k < |entries| && x in entries[k].selections
      ensures exists it :: it in items && it.eventId == e && it.menuId == Some(entries[k].menuId) && SelectionOf(it) == x
    {
      var chosen := Select(items, ChoseItem(e, entries[k].menuId));
      assert entries[k].selections == Map(chosen, SelectionOf);
      var j :| 0 <= j < |entries[k].selections| && entries[k].selections[j] == x;
      assert chosen[j] in chosen;
    }
  }
}
