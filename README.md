# Rooms and customers, modelled in Dafny

This project models two services of the rfhotel federation.

**Rooms** (`models/rooms/src/lib.rs`) is a chat-room service.
- Rooms live in a shared `Slab<Room>`.
- `create_room` stores a room under a vacant key. The room's `id` is the key written in decimal, and a `Created` event is published.
- `delete_room` parses an id back to a key and removes the room if it is present. It returns `true` or `false`, and publishes `Deleted` only when something was removed.
- The `rooms` query lists the stored rooms.
- `RoomChanged::room` looks up the room an event names.
- The `rooms` subscription passes on the published events, optionally filtered by mutation kind.

**Customers** (`models/customers/src/lib.rs`) is a sample dataset.
- `Customers::new` inserts seven characters into a slab.
- It then patches their `friends` lists, which hold slab keys.
- It also builds `human_data`, an index from each human's id text to the human's key.
- `human` and `humans` are lookups over that index.

Files:
- `wrappers.dfy`: `Option` and `Result`.
- `decimal.dfy`: `usize` (64-bit), decimal rendering of a key (`From<usize> for ID`) and `str::parse::<usize>`, with both round trips.
- `slab.dfy`: the slab behaviour both services rely on.
  - Insertion takes some unoccupied key. The model does not say which one.
  - Iteration visits keys in ascending order.
- `rooms.dfy`: the `Storage` class, its operations and its event log.
  - `rooms` is the slab.
  - `events` is every `RoomChanged` published so far, standing in for the broker.
  - A `Subscription` records where in the log it joined and the kind it asked for.
  - A subscription is delivered the filtered part of the log after that point.
  - `Valid` ties the two fields together: replaying the log (`Live`) gives exactly the ids of the stored rooms.
- `customers.dfy`: the `Customers` class and the dataset `Customers::new` builds.

Every resolver is one atomic step on the `Storage` object. This stands in for the mutex that serialises resolvers in the service.

Where the code is more precise than a prose reading:
- The `Deleted` event carries the parsed key rendered again, not the caller's text. Deleting `"07"` removes key 7 and publishes id `"7"` (`models/rooms/src/lib.rs:70-76`).
- Parsing accepts a leading `+` and leading zeros, as Rust's `from_str_radix` does.

## Model

| member | source | states |
|---|---|---|
| Decimal.Render | models/rooms/src/lib.rs:54 | the text given to a key is a non-empty decimal numeral without leading zeros whose value is the key |
| Decimal.ParseDigitsAppend | models/rooms/src/lib.rs:70 | parsing digits is left to right: reading `s + t` is reading `s` and then carrying on with `t`, and an error in `s` is final |
| Decimal.ParseDigitsOfDigits | models/rooms/src/lib.rs:70 | on a string of digits the parse yields its decimal value, or `PosOverflow` when the value exceeds `usize::MAX` |
| Decimal.ParseDigitsRejects | models/rooms/src/lib.rs:70 | the digit loop never reports `Empty`, and any string containing a non-digit is rejected |
| Decimal.ParseUsize | models/rooms/src/lib.rs:70 | `id.parse::<usize>()`: `Empty` exactly for the empty string; success exactly for an optional `+` followed by a non-empty digit string whose value fits in a `usize`, and then the result is that value; this is proved from the digit-loop lemmas above |
| Decimal.ParseRender | models/rooms/src/lib.rs:54 | round trip: parsing the id given to a key yields that key |
| Decimal.RenderValue | models/rooms/src/lib.rs:54 | every canonical numeral is the rendering of its own value, so rendering is onto the canonical numerals |
| Decimal.RenderParse | models/rooms/src/lib.rs:70 | the other round trip: a canonical `usize` numeral parses to a key whose rendering is that same text |
| Slab.VacantKey | models/rooms/src/lib.rs:53 | `vacant_entry` yields a key not in use, provided the slab holds at most `usize::MAX` entries, so that some key in `0..=usize::MAX` is still free |
| Slab.Insert | models/customers/src/lib.rs:32 | `insert` stores the value under a previously unused key, returns that key, and leaves every other entry as it was |
| Slab.SortedKeys | models/rooms/src/lib.rs:43 | the keys in iteration order: each occupied key exactly once, strictly ascending |
| Rooms.Filter | models/rooms/src/lib.rs:128-137 | its predicate `Matches` is the closure of lines 130-134 as written; the filtered stream holds only events of the requested kind (any kind when none is given), and every such event of the input |
| Rooms.FilterAppend | models/rooms/src/lib.rs:128-137 | filtering commutes with concatenation, so events keep their publish order |
| Rooms.FilterNone | models/rooms/src/lib.rs:130-134 | with no mutation kind every event is passed on unchanged |
| Rooms.FilterMultiplicity | models/rooms/src/lib.rs:128-137 | each matching event is delivered as many times as it was published, and a non-matching one never |
| Rooms.PublishExtends | models/rooms/src/lib.rs:61-64 | one more publish adds exactly that event, if it matches, to the end of what an earlier subscriber has been delivered |
| Rooms.LiveMeansLastCreated | models/rooms/src/lib.rs:61-76 | an id is live after replaying the log exactly when its latest event is a `Created` |
| Rooms.KeyTextsInsert | models/rooms/src/lib.rs:53-60 | storing a room under a key adds exactly that key's text to the stored ids |
| Rooms.KeyTextsRemove | models/rooms/src/lib.rs:71-72 | removing a key removes exactly its text from the stored ids, because distinct keys have distinct texts |
| Rooms.LiveAppend | models/rooms/src/lib.rs:61-64 | replaying one more event adds its id (`Created`) or removes it (`Deleted`) |
| Rooms.CreateKeepsConsistent | models/rooms/src/lib.rs:53-64 | storing a room under a vacant key and publishing its `Created` keeps the storage and the log in step |
| Rooms.DeleteKeepsConsistent | models/rooms/src/lib.rs:71-76 | removing a stored room and publishing its `Deleted` keeps the storage and the log in step |
| Rooms.InKeyOrderAscending | models/rooms/src/lib.rs:43 | when every room's id is its key's text, the listing's ids are canonical `usize` numerals in strictly increasing value |
| Rooms.InKeyOrder | models/rooms/src/lib.rs:41-44 | entry `i` of the listing is the room under the `i`-th occupied key in ascending order, so (by `Slab.SortedKeys`) each occupied key gives exactly one entry, in key order; the listing contains every stored room and nothing else |
| Rooms.Storage.constructor | models/rooms/src/lib.rs:35 | a new storage is empty, nothing has been published, and the invariant holds |
| Rooms.Storage.CreateRoom | models/rooms/src/lib.rs:51-66 | the returned id parses to a key that was vacant; the storage is the old one plus that key mapped to a room with the given name and author and the returned id; the count grows by one; exactly `{Created, id}` is published; and the event resolves to the new room |
| Rooms.Storage.DeleteRoom | models/rooms/src/lib.rs:68-81 | an unparsable id gives its parse error and changes nothing; otherwise the result says whether the key was present, only that key is removed, `{Deleted, Render(key)}` (the parsed key written out again) is published only when something was removed, and that event then resolves to no room |
| Rooms.Storage.RoomOf | models/rooms/src/lib.rs:106-110 | an id that does not parse gives its error; otherwise the result is `Some` of the room stored under the key now, or `None` when there is none; on a valid storage a found room carries that key's id |
| Rooms.Storage.ListRooms | models/rooms/src/lib.rs:41-44 | `QueryRoot::rooms`: entry `i` is the room under the `i`-th occupied key in ascending order, so one entry per occupied key, every stored room, nothing else; on a valid storage the ids are canonical numerals in strictly increasing value, so by `Decimal.RenderParse` they parse to strictly increasing keys and no room is listed twice |
| Rooms.Storage.Delivered | models/rooms/src/lib.rs:128-137 | a subscription is delivered exactly the events of the requested kind published since it joined, and with no kind every such event unchanged |
| Rooms.Storage.Subscribe | models/rooms/src/lib.rs:128-129 | a new subscription keeps the requested kind, starts at the current end of the log, and has been delivered nothing: there is no replay |
| Rooms.LoggedEventResolves | models/rooms/src/lib.rs:106-110 | every logged event's id parses, and it resolves to a room exactly when the log says that id is live |
| Rooms.CreatedOnlyScenario | models/rooms/src/lib.rs:128-137 | asking for `Created` on `{Created,5}`, `{Deleted,5}`, `{Created,6}` delivers `{Created,5}`, `{Created,6}` |
| Customers.Customers.constructor | models/customers/src/lib.rs:29-116 | the dataset has seven characters with distinct ids, exactly the five human and two droid ids; `luke` and `artoo` name Luke Skywalker ("1000") and R2-D2 ("2001"); apart from its friends each character is the record listed for its id (name, `appears_in`, `home_planet`, `primary_function`); each character's friends, read as ids, are the listed ones; friend keys are in range; and the index is consistent |
| Customers.Customers.Human | models/customers/src/lib.rs:118-120 | on the built dataset `human(s)` is `Some` exactly for the five human ids, and then names the character whose id is `s` |
| Customers.Customers.Humans | models/customers/src/lib.rs:122-124 | the result lists every value of the index and nothing else, its length is the index's size, and it has no duplicates when the index is injective; the dataset is not changed |
| Customers.NewTable | models/customers/src/lib.rs:30-101 | the seven insertions get pairwise distinct keys, and after the friend patches each key holds its character's full record with its friends list |
| Customers.BuiltRecords | models/customers/src/lib.rs:32-93 | apart from its friends, every stored character is exactly the record the dataset lists for its id |
| Customers.BuiltFriendsInRange | models/customers/src/lib.rs:95-101 | every friend key refers to a stored character, and no character lists itself |
| Customers.BuiltKeyOf | models/customers/src/lib.rs:32-93 | every stored character's id is a human or droid id, and the id determines its key |
| Customers.BuiltIdsDistinct | models/customers/src/lib.rs:32-93 | no two stored characters share an id |
| Customers.BuiltIds | models/customers/src/lib.rs:32-93 | the stored ids are exactly "1000" to "1004" and "2000", "2001" |
| Customers.BuiltIndex | models/customers/src/lib.rs:103-108 | `human_data` holds exactly the five human ids, each mapped to the key of the character with that id, and no other key |
| Customers.BuiltFriendTable | models/customers/src/lib.rs:95-101 | each character's friends, read as ids, are exactly the friends the dataset lists |
| Customers.HumanIndexConsistent | models/customers/src/lib.rs:118-120 | a character is found by its own id exactly when it is a human; the droids "2000" and "2001" are never found |
| Customers.HumanRecord | models/customers/src/lib.rs:118-120 | looking a human up by id finds the character whose record is the one listed for that id |
| Customers.LookupExamples | models/customers/src/lib.rs:50-66 | on the built dataset "1002" finds Han Solo, "1003" finds a character from Alderaa, and "2000" finds no human |
| Customers.HumanKeys | models/customers/src/lib.rs:122-124 | the keys `humans` lists are exactly those of the characters with a human id |
| Customers.IndexInjective | models/customers/src/lib.rs:103-108 | distinct human ids are indexed at distinct keys, so `humans` has no duplicates on the built dataset |
| Customers.DistinctValues | models/customers/src/lib.rs:123 | reading distinct keys of an injective map gives distinct values |

## Left out

- The `futures::lock::Mutex` around the storage. Each resolver is one atomic step, so neither interleaving nor locking is modelled.
- `SubscriptionRoot::interval`. It is a timer-driven infinite stream about time, not about the storage.
- The internals of `SimpleBroker`: its registry, clean-up of dropped subscribers, and fan-out. The `simple_broker` module is not part of this model. Publishing is modelled as appending to the log, and a subscriber as a position in it.
- Asynchronous delivery. A subscription's delivery is its whole filtered suffix of the log, not a stream drained over time.
- The key-reuse policy of the `slab` crate. The model promises only an unoccupied key.
- Rooms.Storage.CreateRoom: requires at most `usize::MAX` stored rooms, so that some key in `0..=usize::MAX` is free. This stands for the slab's capacity; the source would panic or fail to allocate long before that point.
- The parse rules of `str::parse::<usize>` come from Rust's standard library (`from_str_radix`), whose source is not among the modelled files. `decimal.dfy` models them as that function behaves for an unsigned type on a 64-bit target.
- The GraphQL wiring (`#[Object]`, `#[Subscription]`, `Schema`) and the field getters of `Room` and `RoomChanged` (`models/rooms/src/lib.rs:20-33, 96-105`), which only return stored fields.
- The `model` module of the customers service, with `QueryRoot` and the defining enum of `Gender`. It is not part of this model; only the two `Gender` variants the dataset uses are declared.
- The order of `HashMap` iteration in `humans`. The loop picks the next index entry arbitrarily, so every order is allowed.
- Customers.Customers.Humans: distinctness is stated under the hypothesis that the index is injective. `Customers.IndexInjective` proves that hypothesis for the built dataset.
- The federation HTTP servers, the managers service and the Apollo gateway are server and configuration plumbing with no logic.
