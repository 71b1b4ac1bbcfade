# SplitDine server core in Dafny

SplitDine lets a group at a restaurant share one event. An organiser creates
the event and gets a public 4-digit code. Guests join with that code and
build their orders. Organisers and co-hosts can lock items, guests or the
whole event. At the end each guest's bill is computed. This project models
the Express routes that do this as pure Dafny functions. Each function maps a
caller (the user id of the verified token), a request and the database to a
reply and a new database.

- `Store`: the database as one immutable value. Each table is a sequence of
  rows in query order, and ids come from one serial counter. It also holds
  the lookups the routes share: a caller's role, whether the caller may act
  for another user, an order, an event's restaurant, and the
  `COALESCE(menu name, custom name)` item name.
- `Ledger`: the routes that write order items: add_order_item (insert, or
  merge into an existing row), update_order_item, remove_order_item,
  reset_order and submit_order (delete the order, then insert a list).
- `Locks`: lock_event, lock_guest (also locks all of that guest's items in
  the event) and lock_order_item.
- `Reports`: get_event_bill, get_guest_order and get_event_menu.
- `Lifecycle`: create_event, with its retry loop for a free 4-digit code,
  and join_event.
- `Text`: the `LOWER(TRIM(..))` name comparison and the decimal code string.
- `Rows`: first-match lookup, filtering, row update and map over sequences.
- `LedgerFacts`, `ReportFacts`, `EventLockFacts`, `Invariants`: properties
  that relate several calls.

Money is in integer cents, so `4.50` is `450`. A JSON field that is absent
or null is `None`. JavaScript truthiness is written out: `Given(x)` means the
field is present and not 0, and `GivenText(x)` means it is present and not
empty.

The model follows the code as written, including these behaviours a reader
of the route documentation might not expect:

- update_order_item and remove_order_item let a caller edit another user's
  item when the item's OWNER is an organiser or co-host. The check reads the
  owner's role, not the caller's (`update_order_item.js:68-70,92-99`). So any
  user may edit an organiser's items, and an organiser may not edit an
  ordinary guest's items.
- add_order_item treats quantity 0 and price 0 as missing fields, because
  its first guard tests truthiness.
- add_order_item merges into an existing row even when that row is locked.
- add_order_item compares names with `LOWER(TRIM(..))` but stores the custom
  name as sent. It matches rows by name whenever either side has no menu id.
- submit_order does not check the sign of quantity or price. It deletes the
  old order before it looks up the event, so EVENT_NOT_FOUND leaves the
  order deleted. It stops at the first bad item, so the order is left
  holding the items before that one.
- update_order_item can also answer MISSING_FIELDS.
- No route that writes items consults the event lock. Only join_event and
  create_event act on it; create_event reads it in its open-event check and in
  its free-code check. get_event_details and get_user_events, which are not
  part of this model, return the flag without branching on it.
- get_event_bill does not look the event up, so an unknown event gives an
  empty bill rather than EVENT_NOT_FOUND.
- create_event looks for a free code after inserting the event. The new row
  has no code yet, so the model checks freeness against the events that
  existed before the insert.

## Model

| member | source | states |
|---|---|---|
| Store.UserName | splitdine_server/routes/get_event_bill.js:65-71 | A user's name is found exactly when an app_user row has that id, and the name returned belongs to such a row. |
| Store.RoleIn | splitdine_server/routes/add_order_item.js:72-85 | The role read for (event, user) is None exactly when the user is not a guest of the event; otherwise it is the role held in a guest row for that event and user. |
| Store.EventRestaurant | splitdine_server/routes/submit_order.js:89-98 | An event's restaurant is found exactly when an event row has that id, and it is that row's restaurant. |
| Store.ItemName | splitdine_server/routes/get_event_bill.js:79-88 | `COALESCE(menu name, custom name)`: when the item's menu id matches a menu row, the name is that row's name, even if a custom name is stored. When the menu id matches no row, or there is none, the name is the custom name. |
| Store.ClearedOrder | splitdine_server/routes/reset_order.js:63-66 | Dropping a user's rows in an event leaves that order empty and keeps every other row. |
| Text.NameKeyIgnoresPadding | splitdine_server/routes/add_order_item.js:118-132 | Leading and trailing spaces do not change the merge key `LOWER(TRIM(name))`. |
| Text.NameKeyIgnoresCase | splitdine_server/routes/add_order_item.js:118-132 | Lower-casing a name first does not change its merge key. |
| Text.ParseDecimalInverse | splitdine_server/routes/create_event.js:35-37 | Reading back the decimal string of a natural number gives that number. |
| Text.DecimalFourDigits | splitdine_server/routes/create_event.js:35-37 | A number from 1000 to 9999 prints as exactly four digits with no leading zero. |
| Ledger.ResolveName | splitdine_server/routes/add_order_item.js:87-116 | Succeeds exactly when the menu id names an item on the event's restaurant menu, or when no menu id is sent and the custom name is non-empty. The only failures are INVALID_MENU_ITEM (menu id not served) and MISSING_FIELDS (neither given). A success carries the served item's menu name or the custom name as sent. |
| Ledger.AddOrderItem | splitdine_server/routes/add_order_item.js:41-166 | Every error reply in guard order, with the store unchanged. Success holds exactly when the request passes the field checks, the caller may act for the target and the name resolves. On success only item rows change. The reply is the id of a row now holding the selection: either a merged match with the quantity added and the new price, or a fresh unlocked row. |
| Ledger.Upsert | splitdine_server/routes/add_order_item.js:118-166 | The first row matching on event, owner and menu id or trimmed lower-cased name absorbs the quantity and takes the price; with no match a fresh row is appended under the next id. |
| Ledger.FindItem | splitdine_server/routes/update_order_item.js:67-82 | An item is found exactly when a row has that id and its owner is a guest of its event; the result gives the first such row and the owner's role. |
| Ledger.FindItemAt | splitdine_server/routes/update_order_item.js:67-75 | The item lookup returns the first row with that id whose owner is a guest of its event, together with the owner's role. |
| Ledger.UpdateOrderItem | splitdine_server/routes/update_order_item.js:38-119 | ITEM_NOT_FOUND, ITEM_LOCKED and success each hold exactly when the route's checks say so. A success rewrites only the given quantity and price of the rows with that id and keeps all other rows. |
| Ledger.RemoveOrderItem | splitdine_server/routes/remove_order_item.js:34-82 | Success exactly when the item is found, unlocked and the caller owns it or the owner manages the event. The rows left are exactly those without that id. |
| Ledger.ResetOrder | splitdine_server/routes/reset_order.js:34-66 | MISSING_FIELDS without an event id, and UNAUTHORISED_ACTION with the store unchanged when the caller acts for someone else without being the event's organiser or co-host. Success exactly when the event id is given and the caller may act for the target. Afterwards the target's order in the event is empty and every other row remains. |
| Ledger.CheckItem | splitdine_server/routes/submit_order.js:103-122 | INVALID_ITEM exactly when neither a menu id nor a name is given or quantity or price is absent; otherwise INVALID_MENU_ITEM exactly when the menu id is not on the restaurant's menu. |
| Ledger.AcceptedCount | splitdine_server/routes/submit_order.js:100-134 | The count of items accepted before the first rejected one: all earlier items pass and the item at that index fails. |
| Ledger.InsertItems | splitdine_server/routes/submit_order.js:100-134 | The loop appends one row per accepted item, with consecutive ids and in request order. It reports the summed quantity-times-price when all items pass, and the first item's error code otherwise. |
| Ledger.SubmitOrder | splitdine_server/routes/submit_order.js:51-139 | MISSING_FIELDS and UNAUTHORISED_ACTION leave the store unchanged. Past them, other users' rows are untouched and the target's old order is gone. An unknown event then answers EVENT_NOT_FOUND with the order left empty. Otherwise the target's order is exactly the accepted prefix of the new items. The reply is the submitted total when every item passes, and the first bad item's code otherwise. |
| Ledger.SubmitInserts | splitdine_server/routes/submit_order.js:82-134 | After the delete and the insert loop, every row of other users or events survives and no foreign row appears. The target's order is exactly the rows of the accepted prefix. |
| Ledger.ReplacedRows | splitdine_server/routes/submit_order.js:82-86 | Deleting a user's rows and appending rows of theirs keeps every other row and adds no row of anyone else. |
| Ledger.ReplacedOrder | splitdine_server/routes/submit_order.js:100-134 | Rows of one user appended to a table holding none of theirs become that user's whole order, in insertion order. |
| LedgerFacts.AddFirst | splitdine_server/routes/add_order_item.js:152-165 | An accepted add into an order holding none of the target's items appends one unlocked row with the next id and the request's fields. |
| LedgerFacts.AddAgain | splitdine_server/routes/add_order_item.js:134-151 | Adding the same selection again adds its quantity to that row and inserts nothing. |
| LedgerFacts.RepeatedAdd | splitdine_server/routes/add_order_item.js:118-165 | Sending the same accepted add n times into an empty order leaves one row with n times the quantity. Only item rows changed, and the target's order is that single row. |
| LedgerFacts.AddMergesIntoLockedRow | splitdine_server/routes/add_order_item.js:118-151 | An add whose first match is a locked row succeeds and changes that row's quantity and price, and the row stays locked. |
| LedgerFacts.ResetIdempotent | splitdine_server/routes/reset_order.js:63-66 | Resetting twice gives the same store as resetting once. |
| LedgerFacts.ResetEmptyOrder | splitdine_server/routes/reset_order.js:47-66 | A permitted reset of an empty order succeeds and changes nothing. |
| LedgerFacts.UpdateOfManagersItemByAnyone | splitdine_server/routes/update_order_item.js:92-99 | Any caller may update or remove an unlocked item whose owner is an organiser or co-host. |
| LedgerFacts.UpdateOfGuestItemByOrganiser | splitdine_server/routes/update_order_item.js:92-99 | An unlocked item of an ordinary guest is refused to every other caller, whatever their own role, for update and remove alike. |
| LedgerFacts.LockedItemRefused | splitdine_server/routes/update_order_item.js:84-89 | Update and remove of a locked item answer ITEM_LOCKED and change nothing, whoever asks. |
| LedgerFacts.UpdateIdempotent | splitdine_server/routes/update_order_item.js:101-119 | Update assigns: a permitted update sent twice succeeds both times, and the second leaves the store as the first left it. |
| Locks.LockGuest | splitdine_server/routes/lock_guest.js:36-82 | MISSING_FIELDS, UNAUTHORISED_ACTION (caller not organiser or co-host) and GUEST_NOT_FOUND in order. A success sets the flag on the guest's row and on every item of that guest in the event, and changes nothing else. |
| Locks.LockGuestIdempotent | splitdine_server/routes/lock_guest.js:73-82 | Locking a guest twice is the same as once. |
| Locks.LockGuestUndo | splitdine_server/routes/lock_guest.js:73-82 | Locking and then restoring the guest's uniform previous flag gives back the original store. |
| Locks.GuestLockKeepsRoles | splitdine_server/routes/lock_guest.js:79-82 | Changing guest lock flags changes no one's role in any event. |
| Locks.LockOrderItem | splitdine_server/routes/lock_order_item.js:36-76 | Success exactly when fields are given, the caller manages the event and the item belongs to it. A success changes only the flag of the rows with that id. |
| Locks.LockOrderItemIdempotent | splitdine_server/routes/lock_order_item.js:73-76 | Locking an item twice is the same as once. |
| Locks.LockOrderItemUndo | splitdine_server/routes/lock_order_item.js:73-76 | Setting an item's flag and then setting it back restores the store. |
| Locks.LockEvent | splitdine_server/routes/lock_event.js:34-62 | Success exactly when fields are given and the caller is the event's organiser (a co-host is refused). A success changes only the lock flags of the rows with that event id. |
| Reports.EventBill | splitdine_server/routes/get_event_bill.js:54-105 | Fails only when the event id is missing. Each entry belongs to a guest of the event who has a user row, in guest order. It carries their id, name and role, one line per item of theirs in the event, and each subtotal is quantity times price. |
| Reports.GuestOrder | splitdine_server/routes/get_guest_order.js:42-90 | Success exactly when the event id is given and the caller may read the target's order. Line j shows the j-th item of that order with its menu id, its `ItemName` (COALESCE) name, quantity, price and lock flag. |
| Reports.EventMenu | splitdine_server/routes/get_event_menu.js:51-108 | EVENT_NOT_FOUND exactly when no event has the id. Otherwise entry k describes the k-th menu row of the event's restaurant, so there is one entry per such row, in menu order. Its selections are, one for one and in row order, the event's item rows that chose that menu id. |
| ReportFacts.MenuMatchesGuestOrder | splitdine_server/routes/get_event_menu.js:89-107 | The menu agrees with a guest's own order. Each of the guest's order lines for menu item k appears among entry k's selections under the guest's id. Each selection of entry k made by the guest is one of their lines for that item. |
| ReportFacts.LinesTotalIsItemsTotal | splitdine_server/routes/get_event_bill.js:90-97 | Summing a guest's line subtotals gives the total of quantity times price over their items. |
| ReportFacts.RowsForTotal | splitdine_server/routes/submit_order.js:125-133 | The rows a submit inserts are worth exactly the total it reports. |
| ReportFacts.BillEntryContents | splitdine_server/routes/get_event_bill.js:75-105 | Entry i lists, in row order, the items of the i-th billed guest with name, quantity, price and subtotal, and its total is the sum over those items. |
| ReportFacts.EmptyOrderBill | splitdine_server/routes/get_event_bill.js:75-105 | A billed guest with no items gets no lines and a zero total. |
| ReportFacts.BillMatchesGuestOrder | splitdine_server/routes/get_guest_order.js:69-90 | A guest's bill lines are, line by line, the name, quantity and price get_guest_order shows them. |
| ReportFacts.SubmitThenBill | splitdine_server/routes/submit_order.js:100-139 | Right after a successful submit, the bill entry of the user submitted for totals exactly the amount the submit returned. |
| ReportFacts.BillExample | splitdine_server/routes/get_event_bill.js:12-37 | The documented example: Andreas owes 15.45 for a 4.50 and a 10.95 line, and Sophie has no lines and owes 0. |
| EventLockFacts.LockEventTouchesLocksOnly | splitdine_server/routes/lock_event.js:59-62 | lock_event, whatever its reply, changes nothing but event lock flags. |
| EventLockFacts.AddIgnoresEventLock | splitdine_server/routes/add_order_item.js:41-166 | add_order_item gives the same reply and writes the same rows whatever the event lock flags are. |
| EventLockFacts.UpdateIgnoresEventLock | splitdine_server/routes/update_order_item.js:38-119 | update_order_item gives the same reply and rows whatever the event lock flags are. |
| EventLockFacts.RemoveIgnoresEventLock | splitdine_server/routes/remove_order_item.js:34-82 | remove_order_item gives the same reply and rows whatever the event lock flags are. |
| EventLockFacts.ResetIgnoresEventLock | splitdine_server/routes/reset_order.js:34-66 | reset_order gives the same reply and rows whatever the event lock flags are. |
| EventLockFacts.SubmitIgnoresEventLock | splitdine_server/routes/submit_order.js:51-139 | submit_order gives the same reply and rows whatever the event lock flags are. |
| Lifecycle.GenerateEventCode | splitdine_server/routes/create_event.js:35-37 | The code is a four-digit decimal string without a leading zero, whose value is 1000 plus the random draw. |
| Lifecycle.CreateEvent | splitdine_server/routes/create_event.js:40-106 | MISSING_FIELDS, RESTAURANT_NOT_FOUND and EVENT_ALREADY_EXISTS in order, with the store unchanged. A success appends an unlocked event under the next id with a drawn four-digit code that no unlocked event held, and enrols the creator as its organiser. |
| Lifecycle.JoinEvent | splitdine_server/routes/join_event.js:34-85 | MISSING_FIELDS, EVENT_NOT_FOUND (no unlocked event has the code) and ALREADY_JOINED in order. For the first open event with the code, success holds exactly when the caller is not yet its guest, and ALREADY_JOINED exactly when the caller is. A success appends one unlocked ordinary guest row for the caller in that event. |
| Lifecycle.CreateTwice | splitdine_server/routes/create_event.js:63-73 | A second create by the same user at the same restaurant, while the first event is open, answers EVENT_ALREADY_EXISTS. |
| Lifecycle.CreateThenJoin | splitdine_server/routes/create_event.js:84-106 | Another user who sends the code a successful create returned joins exactly that event, as an ordinary guest. |
| Lifecycle.JoinTwice | splitdine_server/routes/join_event.js:46-78 | A user who is not yet a guest of the first open event with a code joins it under the next id. A second join with the same code answers ALREADY_JOINED. |
| EventLockFacts.JoinAfterLock | splitdine_server/routes/lock_event.js:58-62 | When the organiser locks the only open event with a code through lock_event, the lock succeeds. Joining with that code then answers EVENT_NOT_FOUND (join_event.js:46-56). |
| Invariants.AddPreservesValid | splitdine_server/routes/add_order_item.js:134-165 | add_order_item keeps ids unique and below the serial counter and memberships unique. |
| Invariants.UpdatePreservesValid | splitdine_server/routes/update_order_item.js:116-119 | update_order_item keeps the store's integrity. |
| Invariants.RemovePreservesValid | splitdine_server/routes/remove_order_item.js:81-82 | remove_order_item keeps the store's integrity. |
| Invariants.ResetPreservesValid | splitdine_server/routes/reset_order.js:63-66 | reset_order keeps the store's integrity. |
| Invariants.SubmitPreservesValid | splitdine_server/routes/submit_order.js:100-134 | submit_order keeps the store's integrity, including on a part-way stop. |
| Invariants.LockGuestPreservesValid | splitdine_server/routes/lock_guest.js:72-82 | lock_guest keeps the store's integrity. |
| Invariants.LockOrderItemPreservesValid | splitdine_server/routes/lock_order_item.js:72-76 | lock_order_item keeps the store's integrity. |
| Invariants.LockEventPreservesValid | splitdine_server/routes/lock_event.js:58-62 | lock_event keeps the store's integrity. |
| Invariants.CreatePreservesValid | splitdine_server/routes/create_event.js:75-106 | create_event keeps the store's integrity: a fresh event id, and one new membership. |
| Invariants.JoinPreservesValid | splitdine_server/routes/join_event.js:60-78 | join_event keeps memberships unique, because it refuses a user who is already a guest. |

## Left out

- Authentication: login_user, register_user and the verifyToken middleware are not part of this model. The caller's user id is a parameter.
- search_restaurant, get_menu, get_event_details, get_event_guests and get_user_events are plain reads outside the ordering and locking core.
- server.js, the database pool and the menu ETL scripts: wiring and data loading, not behaviour.
- Concurrency: each route is one atomic step. Interleavings between the awaited queries are not modelled.
- HTTP status numbers, message strings and the SERVER_ERROR reply of every catch block. Database failures are not modelled. The quantity CHECK-constraint error that add and update map to INVALID_QUANTITY is not modelled either, so submit stores any quantity.
- Floating point, `parseFloat` and `toFixed(2)`: amounts are integer cents, so sums are exact.
- PostgreSQL `LOWER` is modelled for ASCII letters only, and `TRIM` removes spaces only.
- All tables draw ids from one serial counter rather than one sequence per table.
- Rows come back in store order. SQL without ORDER BY promises no order, so "first row" means the first in sequence order.
- A missing field and a null field are both `None`. Type checks on body fields, other than the boolean `locked`, are not modelled.
- Ledger.UpdateOrderItem: does not model explicit nulls. The route answers INVALID_QUANTITY for `quantity: null` (update_order_item.js:50) and writes NULL for `price_at_time: null` (update_order_item.js:111-113). The model treats both as absent, so it updates only the other field, or keeps the old price.
- Foreign keys are not enforced by the model. The routes' own lookups are modelled as written.
- `Math.random` is a sequence of draws supplied by the caller. CreateEvent requires that some draw yields a free code, so the retry loop ends.
- `event.total_amount` is written as 0 on create and never updated by any route, so no lemma speaks of it.
- LedgerFacts.RepeatedAdd: covers only N identical requests into an order that starts with none of the target's items. It does not cover requests that differ in quantity or price, because proving the general sequence cost too much.
