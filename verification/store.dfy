/**
 The relational store the SplitDine routes read and write, as one immutable
 value: the restaurant, app_user, event, guest, menu and order_item tables.
 Each table is a sequence of rows in the order a query returns them. Ids
 are serial, drawn from one counter `nextId`. Money is in integer cents.
 */
module Store {
  import opened Optional
  import opened Rows

  type Id = int

  /** An amount of money in cents: `4.50` is `450`. */
  type Cents = int

  /** The `guest.role` column. `Ordinary` is the role stored as 'guest'. */
  datatype Role = Organiser | CoHost | Ordinary

  datatype Event = Event(
    id: Id,
    restaurantId: Id,
    createdBy: Id,
    eventDate: string,
    code: Option<string>,
    locked: bool,
    totalAmount: Cents)

  /** Membership of a user in an event; `id` is the guest row's own id. */
  datatype Guest = Guest(id: Id, eventId: Id, userId: Id, role: Role, locked: bool)

  /** An app_user row: its id and the display name the bill shows. */
  datatype User = User(id: Id, name: string)

  datatype MenuRow = MenuRow(id: Id, restaurantId: Id, itemName: string, price: Cents)

  /**
   One selection. `guestId` holds the owner's USER id (not a guest row id);
   `menuId` and `customName` are nullable columns.
   */
  datatype OrderItem = OrderItem(
    id: Id,
    eventId: Id,
    guestId: Id,
    menuId: Option<Id>,
    customName: Option<string>,
    quantity: int,
    price: Cents,
    locked: bool)

  datatype Store = Store(
    restaurants: seq<Id>,
    users: seq<User>,
    events: seq<Event>,
    guests: seq<Guest>,
    menu: seq<MenuRow>,
    items: seq<OrderItem>,
    nextId: Id)

  function UserHasId(id: Id): User -> bool
  {
    (u: User) => u.id == id
  }

  /** The name of the first app_user row with that id, if there is one. */
  function UserName(users: seq<User>, id: Id): (r: Option<string>)
    ensures r.None? <==> forall i :: 0 <= i < |users| ==> users[i].id != id
    ensures r.Some? ==> exists i :: 0 <= i < |users| && users[i].id == id && users[i].name == r.value
  {
    match FirstIndex(users, UserHasId(id))
    case None => None
    case Some(k) => Some(users[k].name)
  }

  /** Every `return_code` other than SUCCESS that the modelled routes send. */
  datatype Code =
    | MissingFields
    | InvalidQuantity
    | InvalidPrice
    | InvalidMenuItem
    | InvalidItem
    | ItemNotFound
    | ItemLocked
    | UnauthorisedAction
    | EventNotFound
    | GuestNotFound
    | RestaurantNotFound
    | EventAlreadyExists
    | AlreadyJoined

  /** A response: SUCCESS with its payload, or a failure code. */
  datatype Reply<+T> = Success(value: T) | Failure(code: Code)

  /** A response together with the store after the request. */
  datatype Outcome<+T> = Outcome(reply: Reply<T>, store: Store)

  /** JavaScript truthiness of a numeric field: absent, null and 0 are all falsy. */
  predicate Given(n: Option<int>)
  {
    n.Some? && n.value != 0
  }

  /** JavaScript truthiness of a string field: absent, null and "" are falsy. */
  predicate GivenText(t: Option<string>)
  {
    t.Some? && |t.value| > 0
  }

  /** The user a request acts for: `user_id || user_id_from_token`. */
  function Target(caller: Id, userId: Option<Id>): Id
  {
    if Given(userId) then userId.value else caller
  }

  function IsGuest(event: Id, user: Id): Guest -> bool
  {
    (g: Guest) => g.eventId == event && g.userId == user
  }

  /** `SELECT role FROM guest WHERE event_id = event AND user_id = user`, first row. */
  function RoleIn(guests: seq<Guest>, event: Id, user: Id): (r: Option<Role>)
    ensures r.None? <==> forall i :: 0 <= i < |guests| ==> !IsGuest(event, user)(guests[i])
    ensures r.Some? ==> exists i :: 0 <= i < |guests| && IsGuest(event, user)(guests[i]) && guests[i].role == r.value
  {
    match FirstIndex(guests, IsGuest(event, user))
    case None => None
    case Some(i) => Some(guests[i].role)
  }

  /** The role test `['organiser', 'co-host'].includes(role)`; an absent row fails it. */
  predicate Manages(r: Option<Role>)
  {
    r == Some(Organiser) || r == Some(CoHost)
  }

  /** Whether `caller` may act on `target`'s order in `event`. */
  predicate MayActFor(guests: seq<Guest>, event: Id, caller: Id, target: Id)
  {
    caller == target || Manages(RoleIn(guests, event, caller))
  }

  function Owned(event: Id, user: Id): OrderItem -> bool
  {
    (it: OrderItem) => it.eventId == event && it.guestId == user
  }

  function NotOwned(event: Id, user: Id): OrderItem -> bool
  {
    (it: OrderItem) => !(it.eventId == event && it.guestId == user)
  }

  function HasId(id: Id): OrderItem -> bool
  {
    (it: OrderItem) => it.id == id
  }

  /** A user's order in an event: `WHERE event_id = event AND guest_id = user`. */
  function OrderOf(items: seq<OrderItem>, event: Id, user: Id): seq<OrderItem>
  {
    Select(items, Owned(event, user))
  }

  /** Once a user's rows are deleted from an event, their order there is empty. */
  lemma ClearedOrder(items: seq<OrderItem>, event: Id, user: Id)
    ensures OrderOf(Select(items, NotOwned(event, user)), event, user) == []
  {
    var kept := Select(items, NotOwned(event, user));
    forall i | 0 <= i < |kept|
      ensures !Owned(event, user)(kept[i])
    {
      assert kept[i] in kept;
    }
    SelectNone(kept, Owned(event, user));
  }

  function EventHasId(id: Id): Event -> bool
  {
    (e: Event) => e.id == id
  }

  /** `SELECT restaurant_id FROM event WHERE id = event`, first row. */
  function EventRestaurant(events: seq<Event>, event: Id): (r: Option<Id>)
    ensures r.None? <==> forall i :: 0 <= i < |events| ==> events[i].id != event
    ensures r.Some? ==> exists i :: 0 <= i < |events| && events[i].id == event && events[i].restaurantId == r.value
  {
    match FirstIndex(events, EventHasId(event))
    case None => None
    case Some(i) => Some(events[i].restaurantId)
  }

  /** `SELECT id FROM menu WHERE id = menuId AND restaurant_id = restaurant` is non-empty. */
  predicate OnMenu(menu: seq<MenuRow>, menuId: Id, restaurant: Id)
  {
    exists m :: m in menu && m.id == menuId && m.restaurantId == restaurant
  }

  function MenuHasId(id: Id): MenuRow -> bool
  {
    (m: MenuRow) => m.id == id
  }

  /** `COALESCE(m.item_name, oi.custom_item_name)` over `LEFT JOIN menu m ON oi.menu_id = m.id`. */
  function ItemName(menu: seq<MenuRow>, it: OrderItem): (r: Option<string>)
    ensures it.menuId.Some? && (exists m :: m in menu && m.id == it.menuId.value) ==>
              r.Some? && exists m :: m in menu && m.id == it.menuId.value && m.itemName == r.value
    ensures it.menuId.Some? && (forall m :: m in menu ==> m.id != it.menuId.value) ==> r == it.customName
    ensures it.menuId.None? ==> r == it.customName
  {
    if it.menuId.None? then it.customName
    else match FirstIndex(menu, MenuHasId(it.menuId.value))
      case Some(k) => Some(menu[k].itemName)
      case None => it.customName
  }

  /** A line's amount, `quantity * price_at_time`, exact in cents. */
  function Subtotal(it: OrderItem): Cents
  {
    it.quantity * it.price
  }

  /** `SUM(quantity * price_at_time)` over a set of rows. */
  function ItemsTotal(items: seq<OrderItem>): Cents
  {
    if |items| == 0 then 0 else Subtotal(items[0]) + ItemsTotal(items[1..])
  }

  lemma {:induction false} ItemsTotalAppend(xs: seq<OrderItem>, ys: seq<OrderItem>)
    ensures ItemsTotal(xs + ys) == ItemsTotal(xs) + ItemsTotal(ys)
  {
    if |xs| == 0 {
      assert xs + ys == ys;
    } else {
      assert (xs + ys)[1..] == xs[1..] + ys;
      ItemsTotalAppend(xs[1..], ys);
    }
  }

  function ItemKey(it: OrderItem): Id { it.id }
  function EventKey(e: Event): Id { e.id }
  function GuestKey(g: Guest): Id { g.id }
  function MembershipKey(g: Guest): (Id, Id) { (g.eventId, g.userId) }

  /**
   The database's integrity: primary keys are unique and below the serial
   counter, and a user is a guest of an event at most once.
   */
  ghost predicate Valid(s: Store)
  {
    && DistinctBy(s.events, EventKey)
    && DistinctBy(s.guests, GuestKey)
    && DistinctBy(s.items, ItemKey)
    && DistinctBy(s.guests, MembershipKey)
    && (forall i :: 0 <= i < |s.events| ==> s.events[i].id < s.nextId)
    && (forall i :: 0 <= i < |s.guests| ==> s.guests[i].id < s.nextId && s.guests[i].eventId < s.nextId)
    && (forall i :: 0 <= i < |s.items| ==> s.items[i].id < s.nextId)
  }

  /** The tables a ledger route does not write are as they were. */
  predicate OnlyItemsChanged(s: Store, s': Store)
  {
    && s'.restaurants == s.restaurants
    && s'.users == s.users
    && s'.events == s.events
    && s'.guests == s.guests
    && s'.menu == s.menu
  }
}
