/**
 Event lifecycle: create_event (restaurant check, one open event per
 creator and restaurant, a public 4-digit code unique among unlocked
 events, the creator enrolled as organiser) and join_event (enrolment by
 code as an ordinary guest).
 */
module Lifecycle {
  import opened Optional
  import opened Rows
  import opened Text
  import opened Store

  /**
   `Math.floor(1000 + Math.random() * 9000).toString()`, where `draw` is
   `Math.floor(Math.random() * 9000)`.
   */
  function GenerateEventCode(draw: int): (code: string)
    requires 0 <= draw < 9000
    ensures |code| == 4 && IsDigits(code) && code[0] != '0'
    ensures 1000 <= ParseDecimal(code) <= 9999
    ensures ParseDecimal(code) == 1000 + draw
  {
    DecimalFourDigits(1000 + draw);
    ParseDecimalInverse(1000 + draw);
    Decimal(1000 + draw)
  }

  /** A stream of values `Math.floor(Math.random() * 9000)` could return. */
  predicate RandomDraws(draws: seq<int>)
  {
    forall i :: 0 <= i < |draws| ==> 0 <= draws[i] < 9000
  }

  /** No unlocked event holds `code` (`SELECT id FROM event WHERE public_event_code = code AND locked = false` is empty). */
  predicate CodeFree(events: seq<Event>, code: string)
  {
    forall i :: 0 <= i < |events| ==> !(events[i].code == Some(code) && !events[i].locked)
  }

  function FreeDraw(events: seq<Event>): int -> bool
  {
    (d: int) => 0 <= d < 9000 && CodeFree(events, GenerateEventCode(d))
  }

  /** The stream eventually yields a free code, so the retry loop ends. */
  predicate EventuallyFree(events: seq<Event>, draws: seq<int>)
  {
    exists i :: 0 <= i < |draws| && FreeDraw(events)(draws[i])
  }

  /** An unlocked event by `user` at `restaurant` already exists. */
  predicate HasOpenEvent(events: seq<Event>, restaurant: Id, user: Id)
  {
    exists i :: 0 <= i < |events| && events[i].restaurantId == restaurant && events[i].createdBy == user && !events[i].locked
  }

  datatype CreateRequest = CreateRequest(restaurantId: Option<Id>, eventDate: Option<string>)

  datatype Created = Created(eventId: Id, code: string)

  predicate CreateFieldsGiven(caller: Id, req: CreateRequest)
  {
    Given(req.restaurantId) && GivenText(req.eventDate) && caller != 0
  }

  function CreateEvent(s: Store, caller: Id, req: CreateRequest, draws: seq<int>): (r: Outcome<Created>)
    requires RandomDraws(draws) && EventuallyFree(s.events, draws)
    ensures !CreateFieldsGiven(caller, req) ==> r == Outcome(Failure(MissingFields), s)
    ensures CreateFieldsGiven(caller, req) && req.restaurantId.value !in s.restaurants ==>
              r == Outcome(Failure(RestaurantNotFound), s)
    ensures CreateFieldsGiven(caller, req) && req.restaurantId.value in s.restaurants
            && HasOpenEvent(s.events, req.restaurantId.value, caller) ==>
              r == Outcome(Failure(EventAlreadyExists), s)
    ensures r.reply.Failure? ==> r.store == s
    ensures r.reply.Success? <==>
              && CreateFieldsGiven(caller, req)
              && req.restaurantId.value in s.restaurants
              && !HasOpenEvent(s.events, req.restaurantId.value, caller)
    ensures r.reply.Success? ==>
              var id := r.reply.value.eventId;
              var code := r.reply.value.code;
              && id == s.nextId
              && |code| == 4 && IsDigits(code) && 1000 <= ParseDecimal(code) <= 9999
              && CodeFree(s.events, code)
              && r.store.events == s.events + [Event(id, req.restaurantId.value, caller, req.eventDate.value, Some(code), false, 0)]
              && r.store.guests == s.guests + [Guest(id + 1, id, caller, Organiser, false)]
              && r.store.nextId == s.nextId + 2
              && r.store.(events := s.events, guests := s.guests, nextId := s.nextId) == s
  {
    if !CreateFieldsGiven(caller, req) then Outcome(Failure(MissingFields), s)
    else
      var restaurant := req.restaurantId.value;
      if restaurant !in s.restaurants then Outcome(Failure(RestaurantNotFound), s)
      else if HasOpenEvent(s.events, restaurant, caller) then Outcome(Failure(EventAlreadyExists), s)
      else
        var id := s.nextId;
        var k := FirstIndex(draws, FreeDraw(s.events)).value;
        var code := GenerateEventCode(draws[k]);
        var event := Event(id, restaurant, caller, req.eventDate.value, Some(code), false, 0);
        var organiser := Guest(id + 1, id, caller, Organiser, false);
        Outcome(Success(Created(id, code)),
                s.(events := s.events + [event], guests := s.guests + [organiser], nextId := id + 2))
  }

  /** `SELECT id FROM event WHERE public_event_code = code AND locked = false`. */
  function OpenWithCode(code: string): Event -> bool
  {
    (e: Event) => e.code == Some(code) && !e.locked
  }

  function JoinEvent(s: Store, caller: Id, code: Option<string>): (r: Outcome<Id>)
    ensures !GivenText(code) ==> r == Outcome(Failure(MissingFields), s)
    ensures GivenText(code) ==>
              (r.reply == Failure(EventNotFound) <==> forall i :: 0 <= i < |s.events| ==> !OpenWithCode(code.value)(s.events[i]))
    ensures r.reply.Failure? ==> r.store == s
    ensures r.reply.Success? ==>
              exists k ::
                && 0 <= k < |s.events|
                && OpenWithCode(code.value)(s.events[k])
                && (forall j :: 0 <= j < k ==> !OpenWithCode(code.value)(s.events[j]))
                && RoleIn(s.guests, s.events[k].id, caller).None?
                && r.reply.value == s.nextId
                && r.store == s.(guests := s.guests + [Guest(s.nextId, s.events[k].id, caller, Ordinary, false)],
                                 nextId := s.nextId + 1)
    ensures GivenText(code) ==>
              forall k: nat :: FirstOpenAt(s.events, code.value, k) ==>
                && (RoleIn(s.guests, s.events[k].id, caller).Some? <==> r == Outcome(Failure(AlreadyJoined), s))
                && (RoleIn(s.guests, s.events[k].id, caller).None? <==> r.reply.Success?)
  {
    if !GivenText(code) then Outcome(Failure(MissingFields), s)
    else match FirstIndex(s.events, OpenWithCode(code.value))
      case None => Outcome(Failure(EventNotFound), s)
      case Some(k) =>
        assert forall i: nat :: FirstOpenAt(s.events, code.value, i) ==> i == k;
        var event := s.events[k].id;
        if RoleIn(s.guests, event, caller).Some? then Outcome(Failure(AlreadyJoined), s)
        else
          var guest := Guest(s.nextId, event, caller, Ordinary, false);
          Outcome(Success(guest.id), s.(guests := s.guests + [guest], nextId := s.nextId + 1))
  }

  /** A second create by the same user at the same restaurant, while the first event is open, is refused. */
  lemma CreateTwice(s: Store, caller: Id, req: CreateRequest, draws: seq<int>, again: seq<int>)
    requires RandomDraws(draws) && EventuallyFree(s.events, draws)
    requires CreateEvent(s, caller, req, draws).reply.Success?
    requires RandomDraws(again) && EventuallyFree(CreateEvent(s, caller, req, draws).store.events, again)
    ensures CreateEvent(CreateEvent(s, caller, req, draws).store, caller, req, again).reply == Failure(EventAlreadyExists)
  {
    var s' := CreateEvent(s, caller, req, draws).store;
    var last := |s'.events| - 1;
    assert s'.events[last].restaurantId == req.restaurantId.value && s'.events[last].createdBy == caller && !s'.events[last].locked;
    assert HasOpenEvent(s'.events, req.restaurantId.value, caller);
  }

  /** The code a successful create returns admits another user to exactly that event. */
  lemma CreateThenJoin(s: Store, caller: Id, req: CreateRequest, draws: seq<int>, joiner: Id)
    requires RandomDraws(draws) && EventuallyFree(s.events, draws)
    requires Valid(s)
    requires CreateEvent(s, caller, req, draws).reply.Success?
    requires joiner != caller
    ensures var c := CreateEvent(s, caller, req, draws);
            var j := JoinEvent(c.store, joiner, Some(c.reply.value.code));
            && j.reply.Success?
            && j.store.guests == c.store.guests + [Guest(c.store.nextId, c.reply.value.eventId, joiner, Ordinary, false)]
  {
    var c := CreateEvent(s, caller, req, draws);
    var code := c.reply.value.code;
    var events := c.store.events;
    var last := |events| - 1;
    assert forall j :: 0 <= j < last ==> !OpenWithCode(code)(events[j]) by {
      assert CodeFree(s.events, code);
      forall j | 0 <= j < last ensures !OpenWithCode(code)(events[j]) {
        assert events[j] == s.events[j];
      }
    }
    assert OpenWithCode(code)(events[last]);
    var k := FirstIndex(events, OpenWithCode(code)).value;
    assert k == last;
    var guests := c.store.guests;
    assert RoleIn(guests, events[last].id, joiner).None? by {
      forall i | 0 <= i < |guests| ensures !IsGuest(events[last].id, joiner)(guests[i]) {
        if i < |s.guests| {
          assert guests[i] == s.guests[i];
        }
      }
    }
  }

  /** Event `k` is the first unlocked event holding `code`: the event join_event picks. */
  predicate FirstOpenAt(events: seq<Event>, code: string, k: nat)
  {
    && k < |events|
    && OpenWithCode(code)(events[k])
    && forall j :: 0 <= j < k ==> !OpenWithCode(code)(events[j])
  }

  /**
   A user who is not yet a guest of the first open event with a code joins
   it on the first request, and a second join with the same code is refused.
   */
  lemma JoinTwice(s: Store, caller: Id, code: string, k: nat)
    requires |code| > 0
    requires FirstOpenAt(s.events, code, k)
    requires RoleIn(s.guests, s.events[k].id, caller).None?
    ensures var r := JoinEvent(s, caller, Some(code));
            && r.reply == Success(s.nextId)
            && JoinEvent(r.store, caller, Some(code)).reply == Failure(AlreadyJoined)
  {
    var i := FirstIndex(s.events, OpenWithCode(code));
    assert i.Some? && !(i.value < k) && !(k < i.value);
    var s' := JoinEvent(s, caller, Some(code)).store;
    assert s'.events == s.events;
    assert IsGuest(s.events[k].id, caller)(s'.guests[|s'.guests| - 1]);
  }
}
