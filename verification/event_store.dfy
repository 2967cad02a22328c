/** The event store behind the two write handlers of app.py: a table from
    event id to event record, filled by `add_event` and updated by `vote`.
    The persistent `shelve` file is abstracted as an in-memory map; each
    handler is one step on it. */
module EventStore {
  import Decimal

  /** One stored record: `{title, description, date, votes}`. */
  datatype Event = Event(title: string, description: string, date: string, votes: seq<string>)

  /** The one failure the handlers can raise on the store: a lookup of an id
      that is not a key (Python's `KeyError`). */
  datatype Error = KeyError(key: string)

  datatype Result<T> = Ok(value: T) | Err(error: Error)

  /** The key an event is stored under when it is the `n`-th one: `str(n)`. */
  function Key(n: nat): string {
    Decimal.FromNat(n)
  }

  /** The keys "1", "2", ..., str(n). */
  ghost function KeysUpTo(n: nat): set<string> {
    set i: nat | 1 <= i <= n :: Key(i)
  }

  predicate NoDuplicates(s: seq<string>) {
    forall i, j :: 0 <= i < j < |s| ==> s[i] != s[j]
  }

  /** The invariant of a store built only by `add_event` and `vote`: its keys
      are exactly "1".."n" for n its size, and no event has a vote twice. */
  ghost predicate WellFormed(db: map<string, Event>) {
    && db.Keys == KeysUpTo(|db|)
    && forall k :: k in db ==> NoDuplicates(db[k].votes)
  }

  /** Title, description and date agree; votes may differ. */
  predicate SameDetails(e: Event, f: Event) {
    e.title == f.title && e.description == f.description && e.date == f.date
  }

  // ---------------------------------------------------------------------
  // Keys

  lemma KeysUpToSucc(n: nat)
    ensures Key(n + 1) !in KeysUpTo(n)
    ensures KeysUpTo(n + 1) == KeysUpTo(n) + {Key(n + 1)}
  {
    if Key(n + 1) in KeysUpTo(n) {
      var i: nat :| 1 <= i <= n && Key(i) == Key(n + 1);
      Decimal.FromNatInjective(i, n + 1);
    }
  }

  /** "1".."n" are n distinct keys. */
  lemma {:induction false} KeysUpToSize(n: nat)
    ensures |KeysUpTo(n)| == n
  {
    if n > 0 {
      KeysUpToSucc(n - 1);
      KeysUpToSize(n - 1);
    }
  }

  /** In a well-formed store an id is found exactly when it is the canonical
      decimal text of a number from 1 to the size: "01", "+1", " 1" and "0"
      are never found. */
  lemma KeyLookup(db: map<string, Event>, id: string)
    requires WellFormed(db)
    ensures id in db <==> Decimal.IsCanonical(id) && 1 <= Decimal.ToNat(id) <= |db|
  {
    if id in db {
      var i: nat :| 1 <= i <= |db| && Key(i) == id;
      Decimal.ToNatFromNat(i);
    }
    if Decimal.IsCanonical(id) && 1 <= Decimal.ToNat(id) <= |db| {
      Decimal.FromNatToNat(id);
      assert id == Key(Decimal.ToNat(id));
    }
  }

  // ---------------------------------------------------------------------
  // add_event

  /** The store after `add_event(title, description, date)`: the record with
      no votes goes under `str(len(db) + 1)`, whatever was there before, and
      every other key keeps its event. On a store with gaps in its keys that
      key can already be taken, and its event is then overwritten. */
  function Insert(db: map<string, Event>, title: string, description: string, date: string): (r: map<string, Event>)
    ensures r.Keys == db.Keys + {Key(|db| + 1)}
    ensures r[Key(|db| + 1)] == Event(title, description, date, [])
    ensures forall k :: k in db && k != Key(|db| + 1) ==> r[k] == db[k]
  {
    db[Key(|db| + 1) := Event(title, description, date, [])]
  }

  /** On a well-formed store the new key "n+1" is fresh: the store grows by
      exactly one, keeps "1".."n+1" as its keys, holds the new event with no
      votes under the new key, and leaves every earlier event as it was. */
  lemma InsertProperties(db: map<string, Event>, title: string, description: string, date: string)
    requires WellFormed(db)
    ensures var db' := Insert(db, title, description, date);
      && Key(|db| + 1) !in db
      && |db'| == |db| + 1
      && db'.Keys == KeysUpTo(|db| + 1)
      && db'[Key(|db| + 1)] == Event(title, description, date, [])
      && (forall k :: k in db ==> k in db' && db'[k] == db[k])
      && WellFormed(db')
  {
    KeysUpToSucc(|db|);
  }

  // ---------------------------------------------------------------------
  // vote

  /** The record after the duplicate-vote guard and append: the email is
      added at the end only if it is not already among the votes. */
  function CastVote(e: Event, email: string): (r: Event)
    ensures SameDetails(r, e)
    ensures email in r.votes
    ensures e.votes <= r.votes
    ensures forall x :: x in r.votes <==> x in e.votes || x == email
    ensures |r.votes| == |e.votes| + 1 <==> email !in e.votes
    ensures email in e.votes <==> r == e
    ensures NoDuplicates(e.votes) ==> NoDuplicates(r.votes)
  {
    if email in e.votes then e else e.(votes := e.votes + [email])
  }

  /** The store after `vote(id, email)`, or the `KeyError` the lookup raises. */
  function VoteOn(db: map<string, Event>, id: string, email: string): (r: Result<map<string, Event>>)
    ensures r.Err? <==> id !in db
    ensures r.Err? ==> r.error == KeyError(id)
    ensures r.Ok? ==> && r.value.Keys == db.Keys
                      && r.value[id] == CastVote(db[id], email)
                      && forall k :: k in db && k != id ==> r.value[k] == db[k]
  {
    if id !in db then Err(KeyError(id)) else Ok(db[id := CastVote(db[id], email)])
  }

  /** Voting keeps the store well formed and only ever adds the voter to the
      named event: it then holds `email`, its details are unchanged, its vote
      count grows by one exactly when the email had not voted, and the size
      and keys of the store stay as they were. */
  lemma VoteProperties(db: map<string, Event>, id: string, email: string)
    requires WellFormed(db)
    requires id in db
    ensures var db' := VoteOn(db, id, email).value;
      && WellFormed(db')
      && |db'| == |db|
      && email in db'[id].votes
      && SameDetails(db'[id], db[id])
      && (|db'[id].votes| == |db[id].votes| + 1 <==> email !in db[id].votes)
      && (|db'[id].votes| == |db[id].votes| <==> email in db[id].votes)
  {
  }

  /** The duplicate-vote guard makes voting idempotent on a record. */
  lemma CastVoteIdempotent(e: Event, email: string)
    ensures CastVote(CastVote(e, email), email) == CastVote(e, email)
  {
  }

  /** Voting twice with the same id and email leaves the store as voting once. */
  lemma VoteIdempotent(db: map<string, Event>, id: string, email: string)
    ensures VoteOn(db, id, email).Ok? ==>
      VoteOn(VoteOn(db, id, email).value, id, email) == VoteOn(db, id, email)
  {
    if id in db {
      var once := VoteOn(db, id, email).value;
      CastVoteIdempotent(db[id], email);
      assert once[id := CastVote(once[id], email)] == once;
    }
  }

  // ---------------------------------------------------------------------
  // Counting votes

  /** The votes an event ends with when `emails` are cast on it in order. */
  function CastAll(e: Event, emails: seq<string>): (r: Event)
    ensures SameDetails(r, e)
  {
    if emails == [] then e else CastVote(CastAll(e, emails[..|emails| - 1]), emails[|emails| - 1])
  }

  function Elements(s: seq<string>): set<string> {
    set x | x in s
  }

  lemma {:induction false} DistinctCount(s: seq<string>)
    requires NoDuplicates(s)
    ensures |Elements(s)| == |s|
  {
    if s != [] {
      var p := s[..|s| - 1];
      assert Elements(s) == Elements(p) + {s[|s| - 1]};
      assert s[|s| - 1] !in Elements(p);
      DistinctCount(p);
    }
  }

  /** Whatever order and repetition the emails come in, a fresh event ends
      with each distinct email exactly once: its vote count is the number of
      distinct emails cast (compared exactly, with no trimming or case
      folding). */
  lemma {:induction false} CastAllCountsDistinct(e: Event, emails: seq<string>)
    requires e.votes == []
    ensures Elements(CastAll(e, emails).votes) == Elements(emails)
    ensures NoDuplicates(CastAll(e, emails).votes)
    ensures |CastAll(e, emails).votes| == |Elements(emails)|
  {
    if emails != [] {
      var p := emails[..|emails| - 1];
      CastAllCountsDistinct(e, p);
      assert emails == p + [emails[|emails| - 1]];
      assert Elements(emails) == Elements(p) + {emails[|emails| - 1]};
    }
    DistinctCount(CastAll(e, emails).votes);
  }

  // ---------------------------------------------------------------------
  // Sequences of requests

  datatype Request =
    | AddEventRequest(title: string, description: string, date: string)
    | VoteRequest(eventId: string, email: string)

  /** One handler call. A vote on a missing id raises before touching the
      store, so the store is left as it was; no call removes a key. */
  function Step(db: map<string, Event>, req: Request): (r: map<string, Event>)
    ensures db.Keys <= r.Keys
    ensures req.AddEventRequest? ==> r.Keys == db.Keys + {Key(|db| + 1)}
    ensures req.VoteRequest? ==> r.Keys == db.Keys
    ensures req.VoteRequest? && req.eventId !in db ==> r == db
  {
    match req
    case AddEventRequest(title, description, date) => Insert(db, title, description, date)
    case VoteRequest(id, email) => if id in db then VoteOn(db, id, email).value else db
  }

  /** The store after the handler calls `reqs`, in order. */
  function Run(db: map<string, Event>, reqs: seq<Request>): (r: map<string, Event>)
    ensures db.Keys <= r.Keys
  {
    if reqs == [] then db else Step(Run(db, reqs[..|reqs| - 1]), reqs[|reqs| - 1])
  }

  function AddCount(reqs: seq<Request>): nat {
    if reqs == [] then 0 else AddCount(reqs[..|reqs| - 1]) + (if reqs[|reqs| - 1].AddEventRequest? then 1 else 0)
  }

  /** Any sequence of requests keeps the store well formed, adds exactly one
      key per `add_event`, deletes nothing, never changes an event's title,
      description or date, and only appends to its votes. */
  lemma {:induction false} RunProperties(db: map<string, Event>, reqs: seq<Request>)
    requires WellFormed(db)
    ensures var db' := Run(db, reqs);
      && WellFormed(db')
      && |db'| == |db| + AddCount(reqs)
      && forall k :: k in db ==> && k in db'
                                 && SameDetails(db'[k], db[k])
                                 && db[k].votes <= db'[k].votes
  {
    if reqs != [] {
      var mid := Run(db, reqs[..|reqs| - 1]);
      RunProperties(db, reqs[..|reqs| - 1]);
      var req := reqs[|reqs| - 1];
      match req
      case AddEventRequest(title, description, date) =>
        InsertProperties(mid, title, description, date);
      case VoteRequest(id, email) =>
        if id in mid {
          VoteProperties(mid, id, email);
        }
    }
  }

  /** Starting from an empty store, the keys after any requests are exactly
      "1".."n" where n is the number of `add_event` calls. */
  lemma RunFromEmpty(reqs: seq<Request>)
    ensures Run(map[], reqs).Keys == KeysUpTo(AddCount(reqs))
  {
    assert WellFormed(map[]);
    RunProperties(map[], reqs);
  }

  /** The distinct emails of the votes in `reqs` that named `k` when `k` was
      already a key of the store built so far from an empty one; a vote on
      `k` before it existed raised `KeyError` and is not among them. */
  ghost function Voters(reqs: seq<Request>, k: string): set<string> {
    if reqs == [] then {}
    else
      var p, req := reqs[..|reqs| - 1], reqs[|reqs| - 1];
      Voters(p, k) + (if req.VoteRequest? && req.eventId == k && k in Run(map[], p) then {req.email} else {})
  }

  /** No vote counts for an event before it is created. */
  lemma {:induction false} NoVotersBeforeCreation(reqs: seq<Request>, k: string)
    requires k !in Run(map[], reqs)
    ensures Voters(reqs, k) == {}
  {
    if reqs != [] {
      var p := reqs[..|reqs| - 1];
      NoVotersBeforeCreation(p, k);
    }
  }

  /** What one handler call does to the voters of `k`: a new event starts
      with none, and a vote on an existing `k` adds its email. */
  lemma StepVoters(db: map<string, Event>, req: Request, k: string)
    requires Key(|db| + 1) !in db
    requires k in Step(db, req)
    ensures Elements(Step(db, req)[k].votes) ==
      (if k in db then Elements(db[k].votes) else {}) +
      (if req.VoteRequest? && req.eventId == k && k in db then {req.email} else {})
  {
    var r := Step(db, req);
    if req.AddEventRequest? {
      if k !in db {
        assert r[k].votes == [];
      } else {
        assert r[k] == db[k];
      }
    } else if req.eventId == k && k in db {
      var votes := CastVote(db[k], req.email).votes;
      assert r[k].votes == votes;
      assert Elements(votes) == Elements(db[k].votes) + {req.email};
    } else {
      assert r[k] == db[k];
    }
  }

  /** The listing property: in the store built from an empty one by any
      requests, an event's votes are exactly the distinct emails of the votes
      that named it once it existed, so its vote count is their number. */
  lemma {:induction false} RunVoters(reqs: seq<Request>, k: string)
    requires k in Run(map[], reqs)
    ensures Elements(Run(map[], reqs)[k].votes) == Voters(reqs, k)
    ensures |Run(map[], reqs)[k].votes| == |Voters(reqs, k)|
  {
    assert WellFormed(map[]);
    if reqs != [] {
      var p, req := reqs[..|reqs| - 1], reqs[|reqs| - 1];
      var mid := Run(map[], p);
      assert Run(map[], reqs) == Step(mid, req);
      RunProperties(map[], p);
      KeysUpToSucc(|mid|);
      StepVoters(mid, req, k);
      if k in mid {
        RunVoters(p, k);
      } else {
        NoVotersBeforeCreation(p, k);
      }
    }
    RunProperties(map[], reqs);
    DistinctCount(Run(map[], reqs)[k].votes);
  }

  // ---------------------------------------------------------------------
  // The store object

  /** The open database handle; `db` is its content. */
  class Store {
    var db: map<string, Event>

    ghost predicate Valid()
      reads this
    {
      WellFormed(db)
    }

    constructor ()
      ensures Valid() && db == map[]
    {
      db := map[];
    }

    /** `get_events`: a copy of the whole store. */
    method GetEvents() returns (events: map<string, Event>)
      requires Valid()
      ensures events == db
      ensures events.Keys == KeysUpTo(|events|)
      ensures forall k :: k in events ==> NoDuplicates(events[k].votes)
    {
      events := db;
    }

    /** `add_event`: stores a new event with no votes under `str(len(db) + 1)`
        and returns that id. */
    method AddEvent(title: string, description: string, date: string) returns (id: string)
      requires Valid()
      modifies this
      ensures Valid()
      ensures id == Key(old(|db|) + 1) && id !in old(db)
      ensures db == Insert(old(db), title, description, date)
      ensures |db| == old(|db|) + 1 && db.Keys == KeysUpTo(|db|)
      ensures db[id] == Event(title, description, date, [])
      ensures forall k :: k in old(db) ==> k in db && db[k] == old(db)[k]
    {
      InsertProperties(db, title, description, date);
      id := Decimal.FromNat(|db| + 1);
      db := db[id := Event(title, description, date, [])];
    }

    /** `vote`: fails with `KeyError` and changes nothing when `eventId` is
        not a key; otherwise appends `email` to that event's votes unless it
        is already there, and writes the event back. */
    method Vote(eventId: string, email: string) returns (r: Result<()>)
      requires Valid()
      modifies this
      ensures Valid()
      ensures r.Err? <==> eventId !in old(db)
      ensures r.Err? ==> r.error == KeyError(eventId) && db == old(db)
      ensures r.Ok? ==> VoteOn(old(db), eventId, email) == Ok(db)
      ensures r.Ok? ==> && db.Keys == old(db).Keys
                        && email in db[eventId].votes
                        && SameDetails(db[eventId], old(db)[eventId])
                        && (|db[eventId].votes| == old(|db[eventId].votes|) + 1 <==> email !in old(db)[eventId].votes)
                        && forall k :: k in db && k != eventId ==> db[k] == old(db)[k]
    {
      if eventId !in db {
        return Err(KeyError(eventId));
      }
      VoteProperties(db, eventId, email);
      var event := db[eventId];
      if email !in event.votes {
        event := event.(votes := event.votes + [email]);
      }
      db := db[eventId := event];
      r := Ok(());
    }
  }
}
