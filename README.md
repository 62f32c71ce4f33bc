# QuickPoll server: broadcast registry and poll store

This project models the server side of QuickPoll's real-time poll service in
Dafny and proves properties of the model. There are two parts.

- **The broadcast registry** (`ConnectionManager`, module `Hub`). It holds the
  set of live socket connections. `Connect` adds a connection. `Disconnect`
  removes one, and removing an absent one is no error. `Broadcast` copies the
  set into a list and sends the same message to each member in turn. It
  collects the members whose send raised and discards them afterwards.
  A connection is an opaque id. The transport is a `Wire` object that logs
  every send attempt as a `Delivery(conn, msg, ok)`. Whether a send raises is
  an input of the call: `failing` for a broadcast, `sendFails` for the
  snapshot sent on connect.
- **The poll store and the mutation-to-event bridge** (module `Api`, class
  `PollService`). The committed store is a map from poll id to `Poll`. The
  options are nested inside their poll. Each option keeps its `pollId`
  foreign key. Poll ids and option ids come from counters that start at 1.
  `createdAt` is a tick of a store clock that moves forward at every insert.
  The handlers `CreatePoll`, `VoteOnPoll`, `LikePoll`, `ListPolls`,
  `WebsocketConnect` and `WebsocketClosed` work on these fields. Every
  successful mutation appends exactly one event (`poll_created` or
  `poll_updated`) to `outbox`. That event carries the poll re-read from the
  store after the change, and it is broadcast through the registry. A failed
  request returns an `HttpError` with the source's status code and detail
  text, and changes nothing.

The store's integrity invariant is `Store.WellFormed`:
- poll ids are exactly `1..nextPollId-1`;
- each poll's key is its id;
- question and option texts are stripped, and option texts are non-blank;
- every poll has at least two options;
- each option points back to its poll;
- a later id carries a later creation stamp;
- option ids are unique across the store.

Every handler preserves it. The pure steps (`CleanOptions`, `NewPoll`,
`AddVote`, `AddLike`, `FindOption`, `Listing`, `SerializeAll`) are Dafny
functions in module `Store`. Python's `str.strip` is modelled in module
`Text`: it removes the longest leading and trailing runs of the characters
for which `str.isspace` holds. The rows and wire shapes are datatypes in
module `Schemas`. `Serialize` is the identity projection from `Poll` to
`PollRead`: each option loses only its `pollId`. Path and body ids
(`poll_id`, `option_id`) are `int`, as the handlers declare them. Stored ids
come from the counters and are therefore positive `nat`s, so a negative or
zero id is simply not found.

`Hub.TwoClientScenario` is a worked example, not a model of any source
lines. Its assertions check the registry and the transport log along one
run: two connections register and both receive the first broadcast, then
one leaves and only the other receives the second.

Two behaviours of the code are worth noting:
- A blank question is accepted. `create_poll` strips the question but never
  checks it, so the stored question may be empty.
- The listing orders polls only by `createdAt` descending. There is no id
  tiebreak. In this model stamps never tie, so the order is total anyway.

## Model

| member | source | states |
|---|---|---|
| `Text.Strip` | backend/app/main.py:63 | The result is the infix of the input that starts after the longest whitespace prefix and is followed only by whitespace. Neither end of the result is whitespace. The result is empty exactly when the input is all whitespace. |
| `Text.StripIdempotent` | backend/app/main.py:67 | Stripping a stripped text changes nothing. |
| `Store.CleanOptions` | backend/app/main.py:63 | Every kept option is non-blank and stripped, and is the strip of some input option. The strip of every non-blank input option is kept. The result is never longer than the input. |
| `Store.CleanOptionsAppend` | backend/app/main.py:63 | Cleaning distributes over concatenation. So each option is kept or dropped on its own, and the original order is preserved. |
| `Store.CleanOptionsIdempotent` | backend/app/main.py:63 | Cleaning an already cleaned list returns it unchanged. |
| `Store.Kept` | backend/app/main.py:63 | One option is dropped exactly when it is all whitespace. Otherwise it becomes its strip. |
| `Store.NewPoll` | backend/app/main.py:67-68 | A created poll has the given id and stamp, 0 likes and 0 votes on every option. Its options are exactly the cleaned options, in order, each non-blank and stripped, with consecutive fresh ids that point back to the poll. Its question is stripped and its description is kept as given. |
| `Store.NewPollWellFormed` | backend/app/main.py:63-71 | A poll created from at least two cleaned options is well formed under its id once the option counter and the clock move past it. |
| `Store.FindOption` | backend/app/main.py:95-97 | The result is an index exactly when the poll has an option with the requested id, and that index holds that option. |
| `Store.AddVote` | backend/app/main.py:99 | The chosen option's votes go up by exactly 1. Every other option, the likes and every other field of the poll are unchanged. |
| `Store.AddLike` | backend/app/main.py:112 | The likes go up by exactly 1. The options and every other field are unchanged. |
| `Store.Listing` | backend/app/main.py:57 | The listing holds every poll stored under an id below the poll counter, and only stored polls. |
| `Store.ListingSorted` | backend/app/main.py:57 | When a later id always carries a later stamp, the listing is in strictly descending creation order. |
| `Store.SerializeAll` | backend/app/main.py:58 | The result has one element per poll, in the same order, and each is that poll's read projection. |
| `Store.IdsDescending` | backend/app/main.py:57 | The ids are strictly descending and are exactly the stored ids up to the bound. |
| `Store.EmptyWellFormed` | backend/app/database.py:16-18 | The empty store, with both counters at 1, satisfies the store invariant. |
| `Store.InsertPreservesWellFormed` | backend/app/main.py:70-71 | Storing, under the next id, a well-formed poll stamped now whose options are numbered from the option counter on keeps the store invariant. |
| `Store.CreatePreservesWellFormed` | backend/app/main.py:67-71 | Adding a poll with at least two cleaned options keeps the store invariant. This holds once the poll counter, the option counter and the clock move past the new poll. |
| `Store.ReplacePreservesWellFormed` | backend/app/main.py:99-101 | Replacing a stored poll by one that is well formed under the same id, with the same stamp and the same option ids in place, keeps the store invariant. |
| `Store.VotePreservesWellFormed` | backend/app/main.py:99-101 | Adding a vote keeps the store invariant. |
| `Store.LikePreservesWellFormed` | backend/app/main.py:112-114 | Adding a like keeps the store invariant. |
| `Store.VoteRejectionMatchesLookup` | backend/app/main.py:95-97 | On a well-formed store, the search inside the poll finds the option exactly when some stored option has that id and a foreign key naming the poll. So a missing option and an option of another poll are both rejected, and only those. |
| `Store.ListingNewestFirst` | backend/app/main.py:57 | The listing contains every stored poll, and each element is the stored poll under its own id. Creation stamps are strictly descending, so no poll appears twice. |
| `Store.SerializeAllNewestFirst` | backend/app/main.py:58 | Order, completeness and faithfulness carry over from the polls to their read projections. |
| `Store.ReadListingNewestFirst` | backend/app/main.py:57-58 | On a well-formed store, the projected listing holds the projection of every stored poll, each with its own id, in strictly descending creation order. |
| `Schemas.Serialize` | backend/app/main.py:36-37 | Every field of the poll is carried over unchanged. Each option keeps its id, text and votes, in the same order, and only its poll reference is dropped. |
| `Schemas.Tag` | backend/app/main.py:76 | Each kind of event has its own "type" value: "poll_created", "poll_updated" (lines 105 and 118) or "poll_snapshot" (line 131), and a value names exactly one kind. |
| `Hub.CopyToList` | backend/app/websocket_manager.py:27-28 | The copied list holds every registered connection exactly once, and nothing else. |
| `Hub.DeliveriesFanOut` | backend/app/websocket_manager.py:31-35 | One pass of sends over such a list appends exactly one attempt of the same message for each registered connection, and nothing else. An attempt fails exactly when its connection's send raises. |
| `Hub.FanOutReceivers` | backend/app/websocket_manager.py:31-35 | After a fan-out, the connections that received the message are exactly the registered ones whose send did not fail. One failure does not stop delivery to any other connection. An unregistered connection is sent nothing. |
| `Hub.RegistryIsReceivers` | backend/app/websocket_manager.py:30-40 | After a broadcast, the registry is exactly the set of connections that received the message. Successful receivers stay registered, the failed ones are removed, and nobody joins. |
| `Hub.NoFailureKeepsRegistry` | backend/app/websocket_manager.py:37-40 | If no send fails, the registry is unchanged. |
| `Hub.Wire.Send` | backend/app/websocket_manager.py:33 | One attempt is logged. It succeeds exactly when the send does not raise. |
| `Hub.ConnectionManager.constructor` | backend/app/websocket_manager.py:12-13 | The registry starts empty. |
| `Hub.ConnectionManager.Connect` | backend/app/websocket_manager.py:16-19 | The connection becomes a member, and no other member is added or removed. Connecting a member again changes nothing. |
| `Hub.ConnectionManager.Disconnect` | backend/app/websocket_manager.py:21-23 | The connection is no longer a member, and every other member stays. On an absent connection this is a no-op. |
| `Hub.ConnectionManager.Broadcast` | backend/app/websocket_manager.py:25-40 | The transport log grows by one attempt of the identical message to each connection registered at the start. The registry then equals the old registry minus exactly the connections whose send failed. |
| `Api.PollService.constructor` | backend/app/main.py:29 | The store starts empty and valid. The registry and the transport log start empty. |
| `Api.PollService.GetPollWithOptions` | backend/app/main.py:41-47 | The result is the stored poll under that id, a poll whose own id is that id. If the store has no poll under the id, the result is the 404 "Poll not found" error. |
| `Api.PollService.ListPolls` | backend/app/main.py:55-58 | The listing contains every stored poll, projected, in strictly descending creation order. Each element is the projection of the stored poll with its id. |
| `Api.PollService.CreatePoll` | backend/app/main.py:61-78 | With fewer than two non-blank options, the result is the 400 error and nothing changes. Otherwise the store gains exactly one poll under the next id, built from the cleaned options. The counters and the clock advance. The reloaded poll is returned, and exactly one `poll_created` event carrying it is appended and broadcast. |
| `Api.PollService.Insert` | backend/app/main.py:67-71 | The new poll is stored under the next id. The option counter moves past its options and the clock moves on. The store invariant is kept. |
| `Api.PollService.Publish` | backend/app/main.py:76 | The event is appended to the outbox and broadcast to every registered connection. The store is untouched. |
| `Api.PollService.VoteOnPoll` | backend/app/main.py:87-106 | An unknown poll gives 404 and nothing changes. An option that is not the poll's gives 400 and nothing changes. Otherwise only that option of that poll gains one vote. The reloaded poll is returned, and exactly one `poll_updated` event carrying it is appended and broadcast. |
| `Api.PollService.LikePoll` | backend/app/main.py:109-119 | An unknown poll gives 404 and nothing changes. Otherwise only that poll gains one like. The reloaded poll is returned, and exactly one `poll_updated` event carrying it is appended and broadcast. |
| `Api.PollService.WebsocketConnect` | backend/app/main.py:122-134 | The connection is registered, and then it alone is sent one `poll_snapshot` of the current listing. If that send raises, the connection is unregistered again. The store and the outbox are untouched. |
| `Api.PollService.WebsocketClosed` | backend/app/main.py:136-141 | When the socket closes or a read raises, the connection is removed from the registry. |

## Left out

- The `asyncio.Lock` and the `await` points: each registry operation and each handler runs atomically here, so a connect or disconnect between the copy and the removal pass of a broadcast is not modelled.
- `websocket.accept`, the `receive_text` loop and the re-raise of unexpected exceptions: transport I/O; only "on close or error the connection is unregistered" is kept (`WebsocketClosed`, and the failed-snapshot branch of `WebsocketConnect`).
- SQLite, the engine and sessions (backend/app/database.py): the committed store is the map held in `PollService`; a commit never fails in the model, so the error path of persistence is not modelled.
- FastAPI routing, CORS, the startup hook, `Depends` and the 201 status of create: HTTP plumbing; errors are the `Result` datatype with the source's status and detail.
- Pydantic/SQLModel validation and JSON encoding (`model_validate`, `model_dump`): `Serialize` is the identity projection and events carry `PollRead` values.
- `datetime.utcnow`: replaced by the store clock, which gives every new poll a strictly later stamp. The wall clock can repeat a value or move backwards (a clock adjustment), so in the source a later id may carry an equal or earlier stamp. `Store.StampsFollowIds` rules that out, so such stores, and the database's order among equal stamps, are not modelled.
- The health check and `GET /polls/{poll_id}` (backend/app/main.py:50-52, 81-84): not part of the broadcast or mutation path; the second is `GetPollWithOptions` followed by `Serialize`.
- SQLAlchemy's lazy relationship load (backend/app/main.py:46): options are always loaded with their poll. The relationship declares no ordering (backend/app/models.py:19-24), so the database may return them in any order. The model fixes creation order.
- Api.PollService.constructor: the empty store stands for a fresh database file. `init_db` only creates missing tables in `polls.db` (backend/app/database.py:7, 16-18), so a server started on an existing file begins with its rows. That start is not modelled.
- The client reconciliation engine, the connection supervisor and its reconnect back-off: their code is not part of this model.
