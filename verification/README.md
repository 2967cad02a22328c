# Event store of the event-voting app

A model of the storage logic of the first version of a small event-voting web
application (`app.py`). Users create events (title, description, date) and
vote for an event with their email address; each email counts at most once
per event. Behind the two write handlers sits a key-value table: `add_event`
stores `{title, description, date, votes: []}` under the key
`str(len(db) + 1)`, and `vote` looks an event up by its id, appends the email
to its `votes` list unless it is already there, and writes the record back.
An id that is not in the table makes the lookup raise `KeyError`.

The project has two modules:

- `Decimal` (decimal.dfy): the decimal text of a non-negative integer as
  Python's `str` writes it (`FromNat`), its reading (`ToNat`), and both round
  trips. Distinct positions therefore get distinct keys, and an id such as
  "01" names no event.
- `EventStore` (event_store.dfy): the `Event` record, the store as a
  `map<string, Event>`, and each handler as a pure step on that map
  (`Insert`, `CastVote`, `VoteOn`, `Step`, `Run`). A request trace is a
  sequence of `AddEventRequest` and `VoteRequest` values. It also holds the
  invariant `WellFormed`: the keys are exactly "1".."n" and no event lists an
  email twice. The lemmas about the steps follow, and then the class `Store`.
  `Store` owns the map as its field `db`. Its methods `AddEvent` and `Vote`
  update `db` in place. Their contracts tie the new `db` to the pure steps
  and keep `Valid()`.

Email comparison is exact string equality: no trimming and no case folding.
Title, description and date are stored as given, without validation. Later
versions of the application trim and lower-case emails and reject blank
titles. This model follows `app.py`, which does neither.

## Model

| member | source | states |
|---|---|---|
| `Decimal.FromNat` | app.py:23 | the id text `str(n)` is non-empty, all digits, has no leading zero for n > 0, and is one character long exactly when n < 10 |
| `Decimal.ToNatFromNat` | app.py:23 | reading back the text of n gives n |
| `Decimal.FromNatInjective` | app.py:23 | two numbers get the same id text if and only if they are equal |
| `Decimal.FromNatToNat` | app.py:33 | every canonical decimal text is the text of the number it denotes |
| `EventStore.KeysUpToSucc` | app.py:23-24 | the key of event n+1 is not among "1".."n", and adding it gives "1".."n+1" |
| `EventStore.KeysUpToSize` | app.py:23-24 | the keys "1".."n" are n distinct strings |
| `EventStore.KeyLookup` | app.py:33 | in a well-formed store an id is found if and only if it is canonical decimal text of a number from 1 to the store's size; otherwise the lookup raises |
| `EventStore.Insert` | app.py:23-24 | the new record with the given title, description and date and no votes is stored under `str(size + 1)`; the keys become the old keys plus that one, and every other key keeps its event. On a store with gaps in its keys, that key may already be taken, and its event is then overwritten |
| `EventStore.InsertProperties` | app.py:22-24 | adding an event to a well-formed store uses a fresh key, grows the store by exactly one, gives keys "1".."n+1", stores the given title, description and date with empty votes, leaves every earlier event unchanged, and keeps the store well formed |
| `EventStore.CastVote` | app.py:34-35 | after the guarded append the email is among the votes; title, description and date are unchanged; old votes are a prefix of the new ones; the voters are the old voters plus the email; the count grows by one if and only if the email was absent; the record is unchanged if and only if the email was present; no duplicates are introduced |
| `EventStore.VoteOn` | app.py:32-36 | the vote fails with `KeyError(id)` if and only if the id is not a key; otherwise the keys stay the same, the named event becomes the guarded append of the email, and every other event is unchanged |
| `EventStore.VoteProperties` | app.py:33-36 | voting on a present id keeps the store well formed and its size unchanged; the event then holds the email with its details unchanged; its vote count grows by one if and only if the email was absent, and stays put if and only if it was present |
| `EventStore.CastVoteIdempotent` | app.py:34-35 | casting the same email twice on a record gives the same record as casting it once |
| `EventStore.VoteIdempotent` | app.py:33-36 | a successful `vote(id, email)` repeated on its own result succeeds and leaves the store as after the first call |
| `EventStore.CastAllCountsDistinct` | app.py:34-35 | after any sequence of emails is cast on a fresh event, its votes are exactly the distinct emails, with no duplicates, and its vote count equals the number of distinct emails |
| `EventStore.Step` | app.py:17-38 | one handler call never removes a key; an add-event call adds the key `str(size + 1)`; a vote keeps the key set; and a vote on a missing id leaves the store as it was |
| `EventStore.Run` | app.py:17-38 | a sequence of handler calls never removes a key |
| `EventStore.RunProperties` | app.py:17-38 | any sequence of add-event and vote requests (failed votes included) keeps the store well formed, adds exactly one key per add-event, deletes nothing, never changes a title, description or date, and only appends to vote lists |
| `EventStore.RunFromEmpty` | app.py:22-24 | starting from an empty store, after any requests the keys are exactly "1".."n", where n is the number of add-event requests |
| `EventStore.NoVotersBeforeCreation` | app.py:33 | votes that name an event before it exists (each one raised `KeyError`) contribute no voters |
| `EventStore.StepVoters` | app.py:23-35 | when one call is applied to a store whose next key is fresh: an event it creates starts with no voters; a vote on an existing event adds the email to that event's voters; every other event keeps its voters |
| `EventStore.RunVoters` | app.py:17-38 | in the store built from an empty one by any requests, each event's votes are exactly the distinct emails of the votes that named it after it existed, and its vote count is the number of those emails |
| `EventStore.Store.constructor` | app.py:22 | a new store is empty and valid |
| `EventStore.Store.GetEvents` | app.py:7-9 | the snapshot is the whole store; its keys are "1".."n" and no vote list has duplicates |
| `EventStore.Store.AddEvent` | app.py:17-26 | returns the id `str(old size + 1)`, which was not a key before; the store becomes the insert step and grows by one with keys "1".."n+1"; the new event has the given fields and no votes; earlier events are unchanged; the store stays valid |
| `EventStore.Store.Vote` | app.py:28-38 | the vote fails with `KeyError(eventId)` and changes nothing if and only if the id is not a key. Otherwise the store becomes the vote step and the keys stay the same. The event then holds the email, and its details are unchanged. Its count grows by one if and only if the email was absent. Every other event is unchanged. The store stays valid |

## Left out

- HTTP routing, form parsing, redirects and template rendering (app.py:1, 4, 11-14, 18-20, 26, 30, 38, 40-41). The form fields reach the model as string parameters. A missing form field is an HTTP error raised before the store is touched, so it is not modelled.
- `shelve` persistence, the `writeback=True` cache and the database file name (app.py:2, 5, 8-9, 22, 32). The open database is a `map<string, Event>` held in memory, and every handler call is one atomic step on it.
- view_events.py is not part of this model. It only opens the store and prints each event's fields.
- The read-modify-write race between concurrent requests is not modelled. The model is sequential.
- EventStore.Store.AddEvent: requires the store invariant `Valid()`, which every `Store` has from its constructor. A store file written by other code could have gaps in its keys. On such a file `str(len(db) + 1)` can name an existing event, and `add_event` would overwrite it. The pure step `Insert` still describes that overwrite, but the lemmas about it assume a well-formed store.
