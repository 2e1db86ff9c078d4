/**
  The `/api/waitlist` registration handler over an in-memory stand-in for the
  waitlist collection: a sequence of `{email, date}` entries in insertion order.
  A request is answered 400 when its email fails the shape check, 409 when the
  email is already stored and 201 after one entry has been appended; a failing
  store answers 500. The pure function Step is the specification of one
  request; Store.Register is the handler proved against it.
 */
module Waitlist {
  import opened Wrappers
  import EmailShape

  /** One document of the waitlist collection; `date` is a timestamp in
      milliseconds, the value `Date.now` would give at insertion. */
  datatype Entry = Entry(email: string, date: int)

  /** The outcomes of the handler, by HTTP status. */
  datatype Status = Created | BadRequest | Conflict | ServerError

  function Code(s: Status): int {
    match s
    case Created => 201
    case BadRequest => 400
    case Conflict => 409
    case ServerError => 500
  }

  /** Which of the two store calls, if any, throws during this request: the
      lookup (`findOne`) or the write (`save`). */
  datatype StoreFault = NoFault | FindFails | SaveFails

  /** The set of emails stored. */
  function Emails(entries: seq<Entry>): set<string> {
    set i | 0 <= i < |entries| :: entries[i].email
  }

  /** No two stored entries share an email. */
  predicate UniqueEmails(entries: seq<Entry>) {
    forall i, j :: 0 <= i < j < |entries| ==> entries[i].email != entries[j].email
  }

  /** Every stored email passes the handler's shape check. */
  predicate AllWellFormed(entries: seq<Entry>) {
    forall i :: 0 <= i < |entries| ==> EmailShape.WellFormed(entries[i].email)
  }

  /** The lookup `findOne({ email })`: some entry with exactly that email, if
      there is one (this model returns the earliest). */
  function FindOne(entries: seq<Entry>, email: string): (r: Option<Entry>)
    ensures r.Some? <==> email in Emails(entries)
    ensures r.Some? ==> r.value in entries && r.value.email == email
  {
    if entries == [] then
      None
    else if entries[0].email == email then
      Some(entries[0])
    else
      var r := FindOne(entries[1..], email);
      assert Emails(entries) == {entries[0].email} + Emails(entries[1..]) by {
        forall e | e in Emails(entries) ensures e in {entries[0].email} + Emails(entries[1..]) {
          var i :| 0 <= i < |entries| && entries[i].email == e;
          if i > 0 {
            assert entries[1..][i - 1] == entries[i];
          }
        }
        forall e | e in Emails(entries[1..]) ensures e in Emails(entries) {
          var i :| 0 <= i < |entries[1..]| && entries[1..][i].email == e;
          assert entries[i + 1] == entries[1..][i];
        }
      }
      r
  }

  /** The reply to one request and the store after it. */
  datatype Reply = Reply(status: Status, entries: seq<Entry>)

  /** One request to the handler, as a function of the store before it, the
      request's `email` field, the clock reading and the store's behaviour. */
  function Step(entries: seq<Entry>, email: Option<string>, now: int, fault: StoreFault): Reply {
    if !EmailShape.Accepts(email) then
      Reply(BadRequest, entries)
    else if fault == FindFails then
      Reply(ServerError, entries)
    else if FindOne(entries, email.value).Some? then
      Reply(Conflict, entries)
    else if fault == SaveFails then
      Reply(ServerError, entries)
    else
      Reply(Created, entries + [Entry(email.value, now)])
  }

  // ---------------------------------------------------------------------
  // Properties of one request

  /** Each status in terms of the email's shape, the stored emails and the
      store's behaviour, and the store afterwards: one entry `(email, now)`
      appended on 201, nothing written otherwise. */
  lemma StepOutcomes(entries: seq<Entry>, email: Option<string>, now: int, fault: StoreFault)
    ensures var r := Step(entries, email, now, fault);
      && (r.status == BadRequest <==> !EmailShape.Accepts(email))
      && (r.status == Conflict <==>
            EmailShape.Accepts(email) && fault != FindFails && email.value in Emails(entries))
      && (r.status == Created <==>
            EmailShape.Accepts(email) && fault == NoFault && email.value !in Emails(entries))
      && (r.status == ServerError <==>
            EmailShape.Accepts(email) &&
            (fault == FindFails || (fault == SaveFails && email.value !in Emails(entries))))
      && r.entries == if r.status == Created then entries + [Entry(email.value, now)] else entries
  {
  }

  /** A missing, empty or malformed email is answered 400 whatever the store
      holds, whatever the clock says and whether or not the store would fail:
      the store is neither consulted nor written. */
  lemma InvalidIgnoresStore(entries: seq<Entry>, email: Option<string>, now: int, fault: StoreFault)
    requires !EmailShape.Accepts(email)
    ensures Step(entries, email, now, fault) == Reply(BadRequest, entries)
  {
  }

  /** Earlier entries are never changed or removed, and at most one is added. */
  lemma StepOnlyAppends(entries: seq<Entry>, email: Option<string>, now: int, fault: StoreFault)
    ensures var r := Step(entries, email, now, fault);
      && |entries| <= |r.entries| <= |entries| + 1
      && r.entries[..|entries|] == entries
      && (|r.entries| == |entries| + 1 <==> r.status == Created)
  {
  }

  /** The stored emails stay unique and well formed. */
  lemma StepPreservesInvariant(entries: seq<Entry>, email: Option<string>, now: int, fault: StoreFault)
    requires UniqueEmails(entries) && AllWellFormed(entries)
    ensures var r := Step(entries, email, now, fault);
      UniqueEmails(r.entries) && AllWellFormed(r.entries)
  {
  }

  /** Registering a new valid email twice in a row: 201 then 409 (unless the
      second lookup fails), and the store grows only once. */
  lemma RegisterTwice(entries: seq<Entry>, email: string, now1: int, now2: int, fault2: StoreFault)
    requires EmailShape.Accepts(Some(email)) && email !in Emails(entries)
    requires fault2 != FindFails
    ensures var r1 := Step(entries, Some(email), now1, NoFault);
      var r2 := Step(r1.entries, Some(email), now2, fault2);
      && r1.status == Created && r2.status == Conflict
      && r2.entries == r1.entries == entries + [Entry(email, now1)]
  {
    var r1 := Step(entries, Some(email), now1, NoFault);
    assert r1.entries[|entries|].email == email;
    assert email in Emails(r1.entries);
  }

  // ---------------------------------------------------------------------
  // Sequences of requests

  datatype Request = Request(email: Option<string>, now: int, fault: StoreFault)

  /** The store after answering `reqs` in order. */
  function Run(entries: seq<Entry>, reqs: seq<Request>): seq<Entry>
    decreases |reqs|
  {
    if reqs == [] then entries
    else Run(Step(entries, reqs[0].email, reqs[0].now, reqs[0].fault).entries, reqs[1..])
  }

  /** Any history of requests keeps the store's emails unique and well formed,
      starting from a store that has both properties, such as the empty one. */
  lemma {:induction false} RunPreservesInvariant(entries: seq<Entry>, reqs: seq<Request>)
    requires UniqueEmails(entries) && AllWellFormed(entries)
    ensures UniqueEmails(Run(entries, reqs)) && AllWellFormed(Run(entries, reqs))
    decreases |reqs|
  {
    if reqs != [] {
      StepPreservesInvariant(entries, reqs[0].email, reqs[0].now, reqs[0].fault);
      RunPreservesInvariant(Step(entries, reqs[0].email, reqs[0].now, reqs[0].fault).entries, reqs[1..]);
    }
  }

  lemma EmailsAppend(p: seq<Entry>, e: Entry)
    ensures Emails(p + [e]) == Emails(p) + {e.email}
  {
    var s := p + [e];
    assert s[|p|].email in Emails(s);
    forall x | x in Emails(s) ensures x in Emails(p) + {e.email} {
      var i :| 0 <= i < |s| && s[i].email == x;
      if i < |p| {
        assert s[i] == p[i];
      }
    }
    forall x | x in Emails(p) ensures x in Emails(s) {
      var i :| 0 <= i < |p| && p[i].email == x;
      assert s[i] == p[i];
    }
  }

  /** Appending keeps the emails unique exactly when the new one is not stored. */
  lemma UniqueAppend(p: seq<Entry>, e: Entry)
    ensures UniqueEmails(p + [e]) <==> UniqueEmails(p) && e.email !in Emails(p)
  {
    var s := p + [e];
    if UniqueEmails(s) {
      forall i, j | 0 <= i < j < |p| ensures p[i].email != p[j].email {
        assert s[i] == p[i] && s[j] == p[j];
      }
      forall i | 0 <= i < |p| ensures p[i].email != e.email {
        assert s[i] == p[i] && s[|p|] == e;
      }
    }
    if UniqueEmails(p) && e.email !in Emails(p) {
      forall i, j | 0 <= i < j < |s| ensures s[i].email != s[j].email {
        assert s[i] == p[i];
        if j < |p| {
          assert s[j] == p[j];
        } else {
          assert p[i].email in Emails(p);
        }
      }
    }
  }

  /** The uniqueness invariant says exactly that the store holds as many
      distinct emails as entries. */
  lemma {:induction false} UniqueIffDistinctCount(entries: seq<Entry>)
    ensures |Emails(entries)| <= |entries|
    ensures UniqueEmails(entries) <==> |Emails(entries)| == |entries|
    decreases |entries|
  {
    if entries != [] {
      var n := |entries| - 1;
      var p, e := entries[..n], entries[n];
      assert entries == p + [e];
      EmailsAppend(p, e);
      UniqueAppend(p, e);
      UniqueIffDistinctCount(p);
      if e.email in Emails(p) {
        assert Emails(entries) == Emails(p);
      } else {
        assert |Emails(entries)| == |Emails(p)| + 1;
      }
    }
  }

  // ---------------------------------------------------------------------
  // The handler

  /** The waitlist collection, held in memory. */
  class Store {
    var entries: seq<Entry>

    /** The collection as it stands when the handler starts serving: any
        documents already stored, not necessarily unique or well formed. */
    constructor (existing: seq<Entry>)
      ensures entries == existing
    {
      entries := existing;
    }

    /** `POST /api/waitlist` with body field `email`; `now` is the clock
        reading used for the entry's default date and `fault` says which store
        call, if any, throws. */
    method Register(email: Option<string>, now: int, fault: StoreFault) returns (status: Status)
      modifies this
      ensures Reply(status, entries) == Step(old(entries), email, now, fault)
      ensures UniqueEmails(old(entries)) && AllWellFormed(old(entries)) ==>
                UniqueEmails(entries) && AllWellFormed(entries)
    {
      if !EmailShape.Accepts(email) {
        return BadRequest;
      }
      if fault == FindFails {
        return ServerError;
      }
      var existing := FindOne(entries, email.value);
      if existing.Some? {
        return Conflict;
      }
      if fault == SaveFails {
        return ServerError;
      }
      entries := entries + [Entry(email.value, now)];
      return Created;
    }
  }

  /** `a@b.c` registered twice on an empty store gives 201 then 409, and
      `not-an-email` gives 400; the store ends with one entry. */
  method RegisterScenario() returns (first: Status, second: Status, third: Status, size: nat)
    ensures first == Created && second == Conflict && third == BadRequest && size == 1
  {
    EmailShape.ExamplesAccepted();
    EmailShape.ExamplesRejected();
    var store := new Store([]);
    first := store.Register(Some("a@b.c"), 0, NoFault);
    second := store.Register(Some("a@b.c"), 1, NoFault);
    third := store.Register(Some("not-an-email"), 2, NoFault);
    size := |store.entries|;
  }
}
