/**
  The rooms service: a shared slab of chat rooms, two mutations that change
  it (`create_room`, `delete_room`), a query that lists it, and a subscription
  to the `RoomChanged` events the mutations publish.

  Every resolver runs as one atomic step on a `Storage` object. The broker that
  the mutations publish to is represented by the object's `events` log: a
  subscription opened when the log had length `from` is delivered the part of
  the log after `from`, filtered by the requested mutation kind.
*/
module Rooms {
  import opened Wrappers
  import opened Decimal
  import Slab

  datatype Room = Room(id: string, name: string, author: string)

  datatype MutationType = Created | Deleted

  datatype RoomChanged = RoomChanged(mutationType: MutationType, id: string)

  /** The filter of the `rooms` subscription: no kind keeps every event. */
  predicate Matches(e: RoomChanged, kind: Option<MutationType>) {
    kind.None? || e.mutationType == kind.value
  }

  /** The events of `evs` that the subscription filter lets through. */
  function Filter(evs: seq<RoomChanged>, kind: Option<MutationType>): (r: seq<RoomChanged>)
    ensures |r| <= |evs|
    ensures forall e :: e in r <==> e in evs && Matches(e, kind)
    decreases |evs|
  {
    if evs == [] then []
    else (if Matches(evs[0], kind) then [evs[0]] else []) + Filter(evs[1..], kind)
  }

  /** Filtering commutes with concatenation, so it keeps publish order. */
  lemma {:induction false} FilterAppend(a: seq<RoomChanged>, b: seq<RoomChanged>, kind: Option<MutationType>)
    ensures Filter(a + b, kind) == Filter(a, kind) + Filter(b, kind)
    decreases |a|
  {
    if a == [] {
      assert a + b == b;
    } else {
      assert (a + b)[0] == a[0];
      assert (a + b)[1..] == a[1..] + b;
      FilterAppend(a[1..], b, kind);
    }
  }

  /** Without a mutation kind the subscription passes every event through. */
  lemma {:induction false} FilterNone(evs: seq<RoomChanged>)
    ensures Filter(evs, None) == evs
    decreases |evs|
  {
    if evs != [] {
      FilterNone(evs[1..]);
      assert evs == [evs[0]] + evs[1..];
    }
  }

  /** Each matching event keeps its multiplicity; the others are dropped. */
  lemma {:induction false} FilterMultiplicity(evs: seq<RoomChanged>, kind: Option<MutationType>, e: RoomChanged)
    ensures multiset(Filter(evs, kind))[e] == if Matches(e, kind) then multiset(evs)[e] else 0
    decreases |evs|
  {
    if evs != [] {
      FilterMultiplicity(evs[1..], kind, e);
      assert evs == [evs[0]] + evs[1..];
    }
  }

  /** A subscription opened at `from` sees one more publish as one more filtered event. */
  lemma PublishExtends(evs: seq<RoomChanged>, e: RoomChanged, from: nat, kind: Option<MutationType>)
    requires from <= |evs|
    ensures Filter((evs + [e])[from..], kind) == Filter(evs[from..], kind) + Filter([e], kind)
  {
    assert (evs + [e])[from..] == evs[from..] + [e];
    FilterAppend(evs[from..], [e], kind);
  }

  /** The ids the event log says are live: created and not deleted since. */
  function Live(evs: seq<RoomChanged>): set<string>
    decreases |evs|
  {
    if evs == [] then {}
    else
      var before := Live(evs[..|evs| - 1]);
      var e := evs[|evs| - 1];
      match e.mutationType
      case Created => before + {e.id}
      case Deleted => before - {e.id}
  }

  /** Event `i` created `id` and no later event mentions `id`. */
  ghost predicate CreatedAndNotSince(evs: seq<RoomChanged>, id: string, i: int) {
    0 <= i < |evs| && evs[i] == RoomChanged(Created, id) &&
    forall j :: i < j < |evs| ==> evs[j].id != id
  }

  /** An id is live exactly when its latest event is a `Created`. */
  lemma {:induction false} LiveMeansLastCreated(evs: seq<RoomChanged>, id: string)
    ensures id in Live(evs) <==> exists i :: CreatedAndNotSince(evs, id, i)
    decreases |evs|
  {
    if evs != [] {
      var n := |evs| - 1;
      var p, e := evs[..n], evs[n];
      LiveMeansLastCreated(p, id);
      if e.id == id {
        if e.mutationType == Created {
          assert CreatedAndNotSince(evs, id, n);
        } else {
          forall i | 0 <= i < |evs|
            ensures !CreatedAndNotSince(evs, id, i)
          {
            if i < n {
              assert evs[n].id == id;
            }
          }
        }
      } else {
        if id in Live(p) {
          var i :| CreatedAndNotSince(p, id, i);
          assert CreatedAndNotSince(evs, id, i);
        } else {
          forall i | 0 <= i < |evs|
            ensures !CreatedAndNotSince(evs, id, i)
          {
            if i < n && CreatedAndNotSince(evs, id, i) {
              assert CreatedAndNotSince(p, id, i);
            }
          }
        }
      }
    }
  }

  /** A subscription: where in the log it joined, and the kind it asked for. */
  datatype Subscription = Subscription(from: nat, kind: Option<MutationType>)

  /** The ids of the stored rooms' keys. */
  ghost function KeyTexts(rooms: map<Usize, Room>): set<string> {
    set k | k in rooms :: Render(k)
  }

  /** Storing a room under a vacant key adds exactly its text to the ids. */
  lemma KeyTextsInsert(rooms: map<Usize, Room>, key: Usize, room: Room)
    ensures KeyTexts(rooms[key := room]) == KeyTexts(rooms) + {Render(key)}
  {
  }

  /** Removing a key removes exactly its text from the ids: renderings are unique. */
  lemma KeyTextsRemove(rooms: map<Usize, Room>, key: Usize)
    requires key in rooms
    ensures KeyTexts(rooms - {key}) == KeyTexts(rooms) - {Render(key)}
  {
    forall k | k in rooms && k != key
      ensures Render(k) != Render(key)
    {
      assert Value(Render(k)) != Value(Render(key));
    }
  }

  /** Replaying one more event applies it to the live ids. */
  lemma LiveAppend(evs: seq<RoomChanged>, e: RoomChanged)
    ensures Live(evs + [e]) == if e.mutationType == Created then Live(evs) + {e.id} else Live(evs) - {e.id}
  {
    assert (evs + [e])[..|evs|] == evs;
  }

  /** The rooms stored under the keys `ks`, in that order. */
  function RoomsAt(rooms: map<Usize, Room>, ks: seq<Usize>): (r: seq<Room>)
    requires forall i :: 0 <= i < |ks| ==> ks[i] in rooms
    ensures |r| == |ks| && forall i :: 0 <= i < |ks| ==> r[i] == rooms[ks[i]]
  {
    seq(|ks|, i requires 0 <= i < |ks| => rooms[ks[i]])
  }

  /** The rooms carry the texts of their own keys as ids. */
  ghost predicate IdsAreKeys(rooms: map<Usize, Room>) {
    forall k :: k in rooms ==> rooms[k].id == Render(k)
  }

  /**
    Listed by key, rooms whose ids are their keys come with canonical numerals
    as ids, in strictly increasing value.
  */
  lemma InKeyOrderAscending(rooms: map<Usize, Room>)
    ensures IdsAreKeys(rooms) ==>
              var r := InKeyOrder(rooms);
              (forall i :: 0 <= i < |r| ==> IsKeyText(r[i].id)) &&
              forall i, j :: 0 <= i < j < |r| ==> Value(r[i].id) < Value(r[j].id)
  {
    if IdsAreKeys(rooms) {
      var ks := Slab.SortedKeys(rooms.Keys);
      RoomsAtAscending(rooms, ks);
      assert InKeyOrder(rooms) == RoomsAt(rooms, ks);
    }
  }

  lemma RoomsAtAscending(rooms: map<Usize, Room>, ks: seq<Usize>)
    requires (forall i :: 0 <= i < |ks| ==> ks[i] in rooms) && Slab.Ascending(ks) && IdsAreKeys(rooms)
    ensures forall i :: 0 <= i < |ks| ==> IsKeyText(RoomsAt(rooms, ks)[i].id)
    ensures forall i, j :: 0 <= i < j < |ks| ==> Value(RoomsAt(rooms, ks)[i].id) < Value(RoomsAt(rooms, ks)[j].id)
  {
    var r := RoomsAt(rooms, ks);
    forall i | 0 <= i < |ks|
      ensures IsKeyText(r[i].id) && Value(r[i].id) == ks[i]
    {
      assert r[i].id == Render(ks[i]);
    }
  }

  /** The rooms of a slab as `Slab::iter` yields them: every stored room once, by ascending key. */
  function InKeyOrder(rooms: map<Usize, Room>): (r: seq<Room>)
    ensures |r| == |rooms|
    ensures forall k :: k in rooms ==> rooms[k] in r
    ensures forall i :: 0 <= i < |r| ==> r[i] in rooms.Values
    ensures forall i :: 0 <= i < |r| ==> r[i] == rooms[Slab.SortedKeys(rooms.Keys)[i]]
  {
    var ks := Slab.SortedKeys(rooms.Keys);
    var r := RoomsAt(rooms, ks);
    assert forall k :: k in rooms ==> rooms[k] in r by {
      forall k | k in rooms
        ensures rooms[k] in r
      {
        assert k in ks;
        var i :| 0 <= i < |ks| && ks[i] == k;
        assert r[i] == rooms[k];
      }
    }
    assert forall i :: 0 <= i < |r| ==> r[i] in rooms.Values by {
      forall i | 0 <= i < |r|
        ensures r[i] in rooms.Values
      {
        assert ks[i] in rooms && r[i] == rooms[ks[i]];
      }
    }
    r
  }

  /**
    Every room carries the decimal text of its key as its id, every
    published id is such a text, and replaying the log gives the ids of
    exactly the stored rooms.
  */
  ghost predicate Consistent(rooms: map<Usize, Room>, events: seq<RoomChanged>) {
    && IdsAreKeys(rooms)
    && (forall i :: 0 <= i < |events| ==> IsKeyText(events[i].id))
    && Live(events) == KeyTexts(rooms)
  }

  /** Storing a room under a fresh key and publishing `Created` keeps the two in step. */
  lemma CreateKeepsConsistent(rooms: map<Usize, Room>, events: seq<RoomChanged>, key: Usize, room: Room)
    requires Consistent(rooms, events) && key !in rooms && room.id == Render(key)
    ensures Consistent(rooms[key := room], events + [RoomChanged(Created, room.id)])
  {
    var evs := events + [RoomChanged(Created, room.id)];
    RenderValue(room.id);
    KeyTextsInsert(rooms, key, room);
    LiveAppend(events, RoomChanged(Created, room.id));
    assert forall i :: 0 <= i < |events| ==> evs[i] == events[i];
  }

  /** Removing a stored room and publishing `Deleted` keeps the two in step. */
  lemma DeleteKeepsConsistent(rooms: map<Usize, Room>, events: seq<RoomChanged>, key: Usize)
    requires Consistent(rooms, events) && key in rooms
    ensures Consistent(rooms - {key}, events + [RoomChanged(Deleted, Render(key))])
  {
    var evs := events + [RoomChanged(Deleted, Render(key))];
    RenderValue(Render(key));
    KeyTextsRemove(rooms, key);
    LiveAppend(events, RoomChanged(Deleted, Render(key)));
    assert forall i :: 0 <= i < |events| ==> evs[i] == events[i];
  }

  /** The `Storage` of the service, together with the broker's event log. */
  class Storage {
    var rooms: map<Usize, Room>
    /**
      Every event published so far, oldest first. It stands in for the broker,
      and it is not ghost because `Subscribe` reads its length to place a new
      subscriber.
    */
    var events: seq<RoomChanged>

    /** The storage and its log agree, as `Consistent` says. */
    ghost predicate Valid()
      reads this
    {
      Consistent(rooms, events)
    }

    /** `Storage::default()`: no rooms, nothing published. */
    constructor ()
      ensures Valid()
      ensures rooms == map[] && events == []
    {
      rooms := map[];
      events := [];
    }

    /** `MutationRoot::create_room`. */
    method CreateRoom(name: string, author: string) returns (id: string)
      requires Valid()
      requires |rooms| <= USIZE_MAX
      modifies this
      ensures Valid()
      ensures ParseUsize(id).Ok? && ParseUsize(id).value !in old(rooms)
      ensures Render(ParseUsize(id).value) == id
      ensures rooms == old(rooms)[ParseUsize(id).value := Room(id, name, author)]
      ensures |rooms| == |old(rooms)| + 1
      ensures events == old(events) + [RoomChanged(Created, id)]
      ensures RoomOf(RoomChanged(Created, id)) == Ok(Some(Room(id, name, author)))
    {
      var key := Slab.VacantKey(rooms);
      id := Render(key);
      ParseRender(key);
      CreateKeepsConsistent(rooms, events, key, Room(id, name, author));
      rooms := rooms[key := Room(id, name, author)];
      events := events + [RoomChanged(Created, id)];
    }

    /** `MutationRoot::delete_room`. */
    method DeleteRoom(id: string) returns (r: Result<bool, ParseError>)
      requires Valid()
      modifies this
      ensures Valid()
      ensures ParseUsize(id).Err? ==>
                r == Err(ParseUsize(id).error) && rooms == old(rooms) && events == old(events)
      ensures ParseUsize(id).Ok? ==>
                var key := ParseUsize(id).value;
                && r == Ok(key in old(rooms))
                && rooms == old(rooms) - {key}
                && events == old(events) + (if key in old(rooms) then [RoomChanged(Deleted, Render(key))] else [])
      ensures r == Ok(true) ==> RoomOf(events[|events| - 1]) == Ok(None)
    {
      var parsed := ParseUsize(id);
      if parsed.Err? {
        return Err(parsed.error);
      }
      var key := parsed.value;
      if key in rooms {
        var text := Render(key);
        ParseRender(key);
        DeleteKeepsConsistent(rooms, events, key);
        rooms := rooms - {key};
        events := events + [RoomChanged(Deleted, text)];
        r := Ok(true);
      } else {
        r := Ok(false);
      }
    }

    /** `QueryRoot::rooms`. */
    function ListRooms(): (r: seq<Room>)
      reads this
      ensures |r| == |rooms|
      ensures forall k :: k in rooms ==> rooms[k] in r
      ensures forall i :: 0 <= i < |r| ==> r[i] in rooms.Values
      ensures forall i :: 0 <= i < |r| ==> r[i] == rooms[Slab.SortedKeys(rooms.Keys)[i]]
      ensures Valid() ==> forall i :: 0 <= i < |r| ==> IsKeyText(r[i].id)
      ensures Valid() ==> forall i, j :: 0 <= i < j < |r| ==> Value(r[i].id) < Value(r[j].id)
    {
      InKeyOrderAscending(rooms);
      InKeyOrder(rooms)
    }

    /** `RoomChanged::room`: the room now stored under the event's key, if any. */
    function RoomOf(ev: RoomChanged): (r: Result<Option<Room>, ParseError>)
      reads this
      ensures ParseUsize(ev.id).Err? ==> r == Err(ParseUsize(ev.id).error)
      ensures ParseUsize(ev.id).Ok? ==>
                r.Ok? && (r.value.Some? <==> ParseUsize(ev.id).value in rooms)
      ensures ParseUsize(ev.id).Ok? && ParseUsize(ev.id).value in rooms ==>
                r == Ok(Some(rooms[ParseUsize(ev.id).value]))
      ensures Valid() && r.Ok? && r.value.Some? ==>
                r.value.value in rooms.Values && r.value.value.id == Render(ParseUsize(ev.id).value)
    {
      match ParseUsize(ev.id)
      case Err(e) => Err(e)
      case Ok(key) => Ok(if key in rooms then Some(rooms[key]) else None)
    }

    /** `SubscriptionRoot::rooms`: joins the event stream at its current end. */
    method Subscribe(kind: Option<MutationType>) returns (sub: Subscription)
      ensures sub.kind == kind && sub.from == |events|
      ensures Delivered(sub) == []
    {
      sub := Subscription(|events|, kind);
    }

    /** What subscription `sub` has been delivered so far. */
    function Delivered(sub: Subscription): (r: seq<RoomChanged>)
      reads this
      requires sub.from <= |events|
      ensures forall e :: e in r <==> e in events[sub.from..] && Matches(e, sub.kind)
      ensures sub.kind == None ==> r == events[sub.from..]
    {
      FilterNone(events[sub.from..]);
      Filter(events[sub.from..], sub.kind)
    }
  }

  /**
    The room an event in the log resolves to is present exactly when the log
    says the event's id is live (its latest event is a `Created`).
  */
  lemma LoggedEventResolves(s: Storage, i: nat)
    requires s.Valid() && i < |s.events|
    ensures s.RoomOf(s.events[i]).Ok?
    ensures s.RoomOf(s.events[i]).value.Some? <==> s.events[i].id in Live(s.events)
  {
    var id := s.events[i].id;
    RenderParse(id);
    var key := Value(id);
    if key !in s.rooms {
      forall k | k in s.rooms
        ensures Render(k) != id
      {
        assert Value(Render(k)) == k;
      }
    }
  }

  /**
    A subscription opened before a room is created sees its `Created` and
    `Deleted` events in that order; one opened in between sees only the
    `Deleted`.
  */
  method SubscriptionScenario() {
    var s := new Storage();
    var early := s.Subscribe(None);
    var lobby := s.CreateRoom("lobby", "ann");
    var late := s.Subscribe(None);
    var removed := s.DeleteRoom(lobby);
    assert removed == Ok(true);
    var created, deleted := RoomChanged(Created, lobby), RoomChanged(Deleted, lobby);
    assert s.events == [created, deleted];
    FilterNone(s.events);
    FilterNone(s.events[1..]);
    assert s.Delivered(early) == [created, deleted];
    assert s.Delivered(late) == [deleted];
  }

  /** Deleting twice, or by a text that is not a number, publishes nothing. */
  method RejectedDeletesScenario() {
    assert ParseUsize("lobby") == Err(InvalidDigit);
    var s := new Storage();
    var lobby := s.CreateRoom("lobby", "ann");
    var removed := s.DeleteRoom(lobby);
    var log := s.events;
    var again := s.DeleteRoom(lobby);
    assert again == Ok(false) && s.events == log;
    var bad := s.DeleteRoom("lobby");
    assert bad == Err(InvalidDigit) && s.events == log;
  }

  /** A subscription asking for `Created` skips the `Deleted` event between two creations. */
  lemma CreatedOnlyScenario()
    ensures Filter([RoomChanged(Created, "5"), RoomChanged(Deleted, "5"), RoomChanged(Created, "6")], Some(Created))
            == [RoomChanged(Created, "5"), RoomChanged(Created, "6")]
  {
    var c5, d5, c6 := RoomChanged(Created, "5"), RoomChanged(Deleted, "5"), RoomChanged(Created, "6");
    assert [c5, d5, c6] == [c5] + [d5] + [c6];
    FilterAppend([c5] + [d5], [c6], Some(Created));
    FilterAppend([c5], [d5], Some(Created));
    assert [c5][1..] == [] && [d5][1..] == [] && [c6][1..] == [];
  }
}
