/**
 Properties of the bill that relate it to the ledger: each entry lists the
 guest's order and totals its line subtotals, a guest's bill lines are the
 lines get_guest_order shows them, and right after a submit the bill
 charges the target exactly the total the submit reported.
 */
module ReportFacts {
  import opened Optional
  import opened Rows
  import opened Store
  import opened Ledger
  import opened Reports

  /** The guests a bill of `event` lists, in store order. */
  function BilledGuests(s: Store, event: Id): seq<Guest>
  {
    Select(s.guests, Billed(s.users, event))
  }

  /** Summing the subtotals of the bill lines of some rows gives the rows' total amount. */
  lemma {:induction false} LinesTotalIsItemsTotal(menu: seq<MenuRow>, items: seq<OrderItem>)
    ensures LinesTotal(Map(items, BillLineOf(menu))) == ItemsTotal(items)
  {
    if |items| > 0 {
      assert Map(items, BillLineOf(menu))[1..] == Map(items[1..], BillLineOf(menu));
      LinesTotalIsItemsTotal(menu, items[1..]);
    }
  }

  /** The rows a submit inserts for a list of items are worth what the submit reports for it. */
  lemma {:induction false} RowsForTotal(start: Id, event: Id, user: Id, xs: seq<SubmitItem>)
    ensures ItemsTotal(RowsFor(start, event, user, xs)) == SubmittedTotal(xs)
    decreases |xs|
  {
    if |xs| > 0 {
      assert RowsFor(start, event, user, xs)[1..] == RowsFor(start + 1, event, user, xs[1..]);
      RowsForTotal(start + 1, event, user, xs[1..]);
    }
  }

  /**
   Entry `i` of a bill belongs to the `i`-th listed guest: its lines are that
   guest's items in the event, in row order, each carrying the item's name
   (menu name first, custom name otherwise), quantity, price and
   quantity-times-price subtotal, and its total is the sum over those items.
   */
  lemma BillEntryContents(s: Store, event: Id, i: nat)
    requires i < |BilledGuests(s, event)|
    ensures var bill := EventBill(s, Some(event)).value;
            var g := BilledGuests(s, event)[i];
            var order := OrderOf(s.items, event, g.userId);
            && i < |bill|
            && bill[i].userId == g.userId
            && bill[i].total == ItemsTotal(order)
            && |bill[i].items| == |order|
            && forall j :: 0 <= j < |order| ==>
                 && bill[i].items[j].item == ItemName(s.menu, order[j])
                 && bill[i].items[j].quantity == order[j].quantity
                 && bill[i].items[j].price == order[j].price
                 && bill[i].items[j].subtotal == order[j].quantity * order[j].price
  {
    var guests := BilledGuests(s, event);
    var g := guests[i];
    assert g in guests;
    assert EventBill(s, Some(event)).value[i] == EntryFor(s, event, g);
    LinesTotalIsItemsTotal(s.menu, OrderOf(s.items, event, g.userId));
  }

  /** A listed guest with no items in the event gets an entry with no lines and a zero total. */
  lemma EmptyOrderBill(s: Store, event: Id, i: nat)
    requires i < |BilledGuests(s, event)|
    requires OrderOf(s.items, event, BilledGuests(s, event)[i].userId) == []
    ensures var bill := EventBill(s, Some(event)).value;
            i < |bill| && bill[i].items == [] && bill[i].total == 0
  {
    BillEntryContents(s, event, i);
  }

  /**
   A guest's bill lines are the lines get_guest_order returns when that
   guest asks for their own order: same count, and line by line the same
   item name, quantity and price.
   */
  lemma BillMatchesGuestOrder(s: Store, event: Id, i: nat)
    requires event != 0
    requires i < |BilledGuests(s, event)|
    ensures var bill := EventBill(s, Some(event)).value;
            var lines := GuestOrder(s, BilledGuests(s, event)[i].userId, GuestOrderRequest(Some(event), None));
            && i < |bill|
            && lines.Success?
            && |lines.value| == |bill[i].items|
            && forall j :: 0 <= j < |lines.value| ==>
                 && lines.value[j].itemName == bill[i].items[j].item
                 && lines.value[j].quantity == bill[i].items[j].quantity
                 && lines.value[j].price == bill[i].items[j].price
  {
    var g := BilledGuests(s, event)[i];
    BillEntryContents(s, event, i);
    var lines := GuestOrder(s, g.userId, GuestOrderRequest(Some(event), None));
    assert lines.value == Map(OrderOf(s.items, event, g.userId), OrderLineOf(s.menu));
  }

  /**
   Right after a successful submit, the bill entry of the user the submit
   acted for totals exactly the amount the submit reported.
   */
  lemma SubmitThenBill(s: Store, caller: Id, req: SubmitRequest, i: nat)
    requires SubmitOrder(s, caller, req).reply.Success?
    requires var s' := SubmitOrder(s, caller, req).store;
             && i < |BilledGuests(s', req.eventId.value)|
             && BilledGuests(s', req.eventId.value)[i].userId == Target(caller, req.userId)
    ensures var s' := SubmitOrder(s, caller, req).store;
            var bill := EventBill(s', req.eventId).value;
            i < |bill| && bill[i].total == SubmitOrder(s, caller, req).reply.value
  {
    var r := SubmitOrder(s, caller, req);
    var e := req.eventId.value;
    var t := Target(caller, req.userId);
    var xs := req.items.value;
    var n := AcceptedCount(s.menu, EventRestaurant(s.events, e).value, xs);
    assert xs[..n] == xs;
    BillEntryContents(r.store, e, i);
    RowsForTotal(s.nextId, e, t, xs);
  }

  /**
   The menu and a guest's own order agree: each line of the guest's order
   that names menu item `k` shows up among that entry's selections under the
   guest's id, and each selection of entry `k` made by the guest is one of
   their order lines for that item.
   */
  lemma MenuMatchesGuestOrder(s: Store, event: Id, user: Id, k: nat)
    requires event != 0
    requires EventRestaurant(s.events, event).Some?
    requires k < |EventMenu(s, Some(event)).value|
    ensures var entry := EventMenu(s, Some(event)).value[k];
            var lines := GuestOrder(s, user, GuestOrderRequest(Some(event), None));
            && lines.Success?
            && (forall j :: 0 <= j < |lines.value| && lines.value[j].menuId == Some(entry.menuId) ==>
                  Selection(user, lines.value[j].quantity, lines.value[j].price, lines.value[j].locked) in entry.selections)
            && (forall x :: x in entry.selections && x.userId == user ==>
                  exists j :: 0 <= j < |lines.value| && lines.value[j].menuId == Some(entry.menuId)
                              && Selection(user, lines.value[j].quantity, lines.value[j].price, lines.value[j].locked) == x)
  {
    var entry := EventMenu(s, Some(event)).value[k];
    var lines := GuestOrder(s, user, GuestOrderRequest(Some(event), None)).value;
    var order := OrderOf(s.items, event, user);
    forall j | 0 <= j < |lines| && lines[j].menuId == Some(entry.menuId)
      ensures Selection(user, lines[j].quantity, lines[j].price, lines[j].locked) in entry.selections
    {
      assert order[j] in order;
      assert SelectionOf(order[j]) == Selection(user, lines[j].quantity, lines[j].price, lines[j].locked);
    }
    forall x | x in entry.selections && x.userId == user
      ensures exists j :: 0 <= j < |lines| && lines[j].menuId == Some(entry.menuId)
                          && Selection(user, lines[j].quantity, lines[j].price, lines[j].locked) == x
    {
      var it :| it in s.items && it.eventId == event && it.menuId == Some(entry.menuId) && SelectionOf(it) == x;
      assert it in order;
      var j :| 0 <= j < |order| && order[j] == it;
      assert lines[j].menuId == Some(entry.menuId);
    }
  }

  /** The documented example: Andreas ordered a 4.50 and a 10.95 item at event 789, Sophie nothing. */
  function ExampleStore(): Store
  {
    Store([7], [User(123, "Andreas"), User(456, "Sophie")],
          [Event(789, 7, 123, "2025-06-01", Some("4821"), false, 0)],
          [Guest(1, 789, 123, Organiser, false), Guest(2, 789, 456, Ordinary, false)],
          [MenuRow(3, 7, "Garlic Bread", 450)],
          [OrderItem(4, 789, 123, Some(3), None, 1, 450, false),
           OrderItem(5, 789, 123, None, Some("Pasta Carbonara"), 1, 1095, false)],
          6)
  }

  lemma ExampleGuests()
    ensures BilledGuests(ExampleStore(), 789) == ExampleStore().guests
    ensures UserName(ExampleStore().users, 123) == Some("Andreas")
    ensures UserName(ExampleStore().users, 456) == Some("Sophie")
  {
    var s := ExampleStore();
    assert UserName(s.users, 123) == Some("Andreas");
    assert UserName(s.users, 456) == Some("Sophie");
    assert s.guests[1..][1..] == [];
  }

  lemma ExampleLines()
    ensures OrderOf(ExampleStore().items, 789, 456) == []
    ensures var lines := Map(OrderOf(ExampleStore().items, 789, 123), BillLineOf(ExampleStore().menu));
            && lines == [BillLine(Some("Garlic Bread"), 1, 450, 450), BillLine(Some("Pasta Carbonara"), 1, 1095, 1095)]
            && LinesTotal(lines) == 1545
  {
    var s := ExampleStore();
    assert s.items[1..][1..] == [];
    assert OrderOf(s.items, 789, 123) == s.items;
    assert ItemName(s.menu, s.items[0]) == Some("Garlic Bread");
    var lines := Map(s.items, BillLineOf(s.menu));
    assert lines[1..][1..] == [];
    assert LinesTotal(lines[1..]) == 1095;
  }

  /**
   The bill of the documented example: the guest who ordered a 4.50 and a
   10.95 item owes 15.45, the guest who ordered nothing has no lines and
   owes 0.
   */
  lemma BillExample()
    ensures EventBill(ExampleStore(), Some(789)) == Success([
              BillEntry(123, "Andreas", Organiser,
                        [BillLine(Some("Garlic Bread"), 1, 450, 450), BillLine(Some("Pasta Carbonara"), 1, 1095, 1095)], 1545),
              BillEntry(456, "Sophie", Ordinary, [], 0)])
  {
    var s := ExampleStore();
    ExampleGuests();
    ExampleLines();
    var andreas := BillEntry(123, "Andreas", Organiser,
                             [BillLine(Some("Garlic Bread"), 1, 450, 450), BillLine(Some("Pasta Carbonara"), 1, 1095, 1095)], 1545);
    var sophie := BillEntry(456, "Sophie", Ordinary, [], 0);
    assert EntryFor(s, 789, s.guests[0]) == andreas;
    assert EntryFor(s, 789, s.guests[1]) == sophie;
    var bill := EventBill(s, Some(789)).value;
    assert |bill| == 2 && bill[0] == andreas && bill[1] == sophie;
    Pair(bill, andreas, sophie);
  }

  lemma Pair<T>(xs: seq<T>, a: T, b: T)
    requires |xs| == 2 && xs[0] == a && xs[1] == b
    ensures xs == [a, b]
  {
  }
}
