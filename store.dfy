/**
 * The relational store the server code talks to: the `requests` and `offers`
 * tables and the ids of existing profiles, with the constraints the database
 * enforces (primary keys, the unique (request_id, helper_id) pair of an
 * offer, foreign keys) and the conditional update the lifecycle relies on.
 */
module Store {
  import opened Optional
  import opened Domain

  /** A failure as the store reports it: a SQLSTATE or PostgREST code and a message. */
  datatype DbError = DbError(code: string, message: string)

  /** SQLSTATE 23505, unique_violation. */
  const UniqueViolation := "23505"
  /** SQLSTATE 23503, foreign_key_violation. */
  const ForeignKeyViolation := "23503"
  /** PostgREST's code for `.single()` on zero rows. */
  const NoRowsFound := "PGRST116"

  /** Index of the request row with id `id`, if any. */
  function FindRequest(rows: seq<Request>, id: RequestId): (k: Option<nat>)
    ensures k.Some? ==> k.value < |rows| && rows[k.value].id == id
    ensures k.None? ==> forall i :: 0 <= i < |rows| ==> rows[i].id != id
  {
    if rows == [] then None
    else if rows[0].id == id then Some(0)
    else match FindRequest(rows[1..], id)
      case None => None
      case Some(k) => Some(k + 1)
  }

  /** Whether an offer row with this (request_id, helper_id) pair exists. */
  predicate HasOffer(offers: seq<Offer>, requestId: RequestId, helperId: UserId)
  {
    exists i :: 0 <= i < |offers| && offers[i].requestId == requestId && offers[i].helperId == helperId
  }

  predicate HasOfferId(offers: seq<Offer>, id: string)
  {
    exists i :: 0 <= i < |offers| && offers[i].id == id
  }

  ghost predicate DistinctRequestIds(rows: seq<Request>)
  {
    forall i, j :: 0 <= i < j < |rows| ==> rows[i].id != rows[j].id
  }

  /** The unique constraint on (request_id, helper_id). */
  ghost predicate UniqueOfferPairs(offers: seq<Offer>)
  {
    forall i, j :: 0 <= i < j < |offers| ==>
      offers[i].requestId != offers[j].requestId || offers[i].helperId != offers[j].helperId
  }

  ghost predicate DistinctOfferIds(offers: seq<Offer>)
  {
    forall i, j :: 0 <= i < j < |offers| ==> offers[i].id != offers[j].id
  }

  /** The foreign keys of `offers`: its request and its helper's profile exist. */
  ghost predicate OffersReference(rows: seq<Request>, offers: seq<Offer>, profiles: set<UserId>)
  {
    forall i :: 0 <= i < |offers| ==>
      FindRequest(rows, offers[i].requestId).Some? && offers[i].helperId in profiles
  }

  /** The foreign key of `requests.author_id`. */
  ghost predicate AuthorsHaveProfiles(rows: seq<Request>, profiles: set<UserId>)
  {
    forall i :: 0 <= i < |rows| ==> rows[i].authorId in profiles
  }

  /** No helper has an offer on a request of their own. */
  ghost predicate NoSelfOffers(rows: seq<Request>, offers: seq<Offer>)
  {
    forall i, j :: 0 <= i < |offers| && 0 <= j < |rows| && rows[j].id == offers[i].requestId ==>
      rows[j].authorId != offers[i].helperId
  }

  /** A `thanks` request carries no amount. */
  ghost predicate ThanksHaveNoAmount(rows: seq<Request>)
  {
    forall i :: 0 <= i < |rows| && rows[i].rewardType == Thanks ==> rows[i].rewardAmount.None?
  }

  /**
   * The error the store raises for inserting `row` into `requests`, or None
   * when the insert goes through. `fault` is a failure from outside the model
   * (lost connection, a concurrent writer); it pre-empts everything else.
   */
  function RequestInsertError(rows: seq<Request>, profiles: set<UserId>, row: Request, fault: Option<DbError>): Option<DbError>
  {
    if fault.Some? then fault
    else if FindRequest(rows, row.id).Some? then Some(DbError(UniqueViolation, "duplicate key value violates unique constraint \"requests_pkey\""))
    else if row.authorId !in profiles then Some(DbError(ForeignKeyViolation, "insert or update on table \"requests\" violates foreign key constraint"))
    else None
  }

  /** The error the store raises for inserting `row` into `offers`, or None. */
  function OfferInsertError(rows: seq<Request>, offers: seq<Offer>, profiles: set<UserId>, row: Offer, fault: Option<DbError>): Option<DbError>
  {
    if fault.Some? then fault
    else if HasOfferId(offers, row.id) || HasOffer(offers, row.requestId, row.helperId) then
      Some(DbError(UniqueViolation, "duplicate key value violates unique constraint"))
    else if FindRequest(rows, row.requestId).None? || row.helperId !in profiles then
      Some(DbError(ForeignKeyViolation, "insert or update on table \"offers\" violates foreign key constraint"))
    else None
  }

  /**
   * An outside fault wins; otherwise a request insert fails exactly for a
   * taken id (23505) or an author without a profile (23503).
   */
  lemma RequestInsertErrorCases(rows: seq<Request>, profiles: set<UserId>, row: Request, fault: Option<DbError>)
    ensures var e := RequestInsertError(rows, profiles, row, fault);
      && (fault.Some? ==> e == fault)
      && (e.None? <==> fault.None? && FindRequest(rows, row.id).None? && row.authorId in profiles)
      && (fault.None? && e.Some? ==> (e.value.code == UniqueViolation <==> FindRequest(rows, row.id).Some?))
      && (fault.None? && e.Some? ==> e.value.code == UniqueViolation || e.value.code == ForeignKeyViolation)
  {
  }

  /**
   * An outside fault wins; otherwise an offer insert fails with 23505 exactly
   * for a taken id or a repeated (request, helper) pair, and with 23503 for a
   * missing request or helper profile.
   */
  lemma OfferInsertErrorCases(rows: seq<Request>, offers: seq<Offer>, profiles: set<UserId>, row: Offer, fault: Option<DbError>)
    ensures var e := OfferInsertError(rows, offers, profiles, row, fault);
      && (fault.Some? ==> e == fault)
      && (e.None? <==> fault.None? && !HasOfferId(offers, row.id) && !HasOffer(offers, row.requestId, row.helperId)
                       && FindRequest(rows, row.requestId).Some? && row.helperId in profiles)
      && (fault.None? && e.Some? ==>
            (e.value.code == UniqueViolation <==> HasOfferId(offers, row.id) || HasOffer(offers, row.requestId, row.helperId)))
      && (fault.None? && e.Some? ==> e.value.code == UniqueViolation || e.value.code == ForeignKeyViolation)
  {
    var taken := HasOfferId(offers, row.id) || HasOffer(offers, row.requestId, row.helperId);
    var dangling := FindRequest(rows, row.requestId).None? || row.helperId !in profiles;
    if fault.None? && !taken {
      assert OfferInsertError(rows, offers, profiles, row, fault).None? <==> !dangling;
    }
  }

  /** The unique constraint turns a second offer by the same helper into 23505. */
  lemma SecondOfferViolatesUniqueness(rows: seq<Request>, offers: seq<Offer>, profiles: set<UserId>, row: Offer)
    requires HasOffer(offers, row.requestId, row.helperId)
    ensures OfferInsertError(rows, offers, profiles, row, None) == Some(DbError(UniqueViolation, "duplicate key value violates unique constraint"))
  {
  }

  /** With distinct ids, the row FindRequest returns is the only one with that id. */
  lemma FoundRowIsUnique(rows: seq<Request>, id: RequestId, j: nat)
    requires DistinctRequestIds(rows)
    requires j < |rows| && rows[j].id == id
    ensures FindRequest(rows, id) == Some(j)
  {
  }

  /** Changing one row's status keeps every id in place. */
  lemma FindAfterStatusChange(rows: seq<Request>, k: nat, s: Status, id: RequestId)
    requires k < |rows|
    ensures FindRequest(rows[k := rows[k].(status := s)], id) == FindRequest(rows, id)
  {
    var rows' := rows[k := rows[k].(status := s)];
    match FindRequest(rows, id)
    case None =>
      assert forall i :: 0 <= i < |rows'| ==> rows'[i].id == rows[i].id;
    case Some(j) =>
      assert forall i :: 0 <= i < |rows'| ==> rows'[i].id == rows[i].id;
      FirstMatchOf(rows, id);
      FirstMatch(rows', id, j);
  }

  /** FindRequest returns the first row with the id. */
  lemma {:induction false} FirstMatch(rows: seq<Request>, id: RequestId, j: nat)
    requires j < |rows| && rows[j].id == id
    requires forall i :: 0 <= i < j ==> rows[i].id != id
    ensures FindRequest(rows, id) == Some(j)
  {
    if j > 0 {
      FirstMatch(rows[1..], id, j - 1);
    }
  }

  /** Appending a row with a new id does not move the rows already there. */
  lemma FindAfterAppend(rows: seq<Request>, row: Request, id: RequestId)
    requires FindRequest(rows, row.id).None?
    ensures FindRequest(rows + [row], id) == if id == row.id then Some(|rows|) else FindRequest(rows, id)
  {
    var rows' := rows + [row];
    match FindRequest(rows, id)
    case Some(j) =>
      FirstMatchOf(rows, id);
      FirstMatch(rows', id, j);
    case None =>
      if id == row.id {
        FirstMatch(rows', id, |rows|);
      } else {
        assert forall i :: 0 <= i < |rows'| ==> rows'[i].id != id;
      }
  }

  /** The index FindRequest returns has no earlier row with that id. */
  lemma {:induction false} FirstMatchOf(rows: seq<Request>, id: RequestId)
    requires FindRequest(rows, id).Some?
    ensures forall i :: 0 <= i < FindRequest(rows, id).value ==> rows[i].id != id
  {
    if rows[0].id != id {
      FirstMatchOf(rows[1..], id);
    }
  }

  /**
   * From `before` to `after` rows are only appended, and a row already there
   * keeps every field but its status, which moves by one Step.
   */
  ghost predicate Advances(before: seq<Request>, after: seq<Request>)
  {
    && |before| <= |after|
    && forall k :: 0 <= k < |before| ==>
         after[k] == before[k].(status := after[k].status) && Step(before[k].status, after[k].status)
  }

  lemma AdvancesReflexive(rows: seq<Request>)
    ensures Advances(rows, rows)
  {
    forall k | 0 <= k < |rows| ensures Step(rows[k].status, rows[k].status) {
    }
  }

  /** Appending a row advances the store. */
  lemma AdvancesByAppend(rows: seq<Request>, row: Request)
    ensures Advances(rows, rows + [row])
  {
    AdvancesReflexive(rows);
  }

  /** Changing one row's status by a step advances the store. */
  lemma AdvancesByStatusStep(rows: seq<Request>, k: nat, to: Status)
    requires k < |rows| && Step(rows[k].status, to)
    ensures Advances(rows, rows[k := rows[k].(status := to)])
  {
    var after := rows[k := rows[k].(status := to)];
    forall i | 0 <= i < |rows| ensures after[i] == rows[i].(status := after[i].status) && Step(rows[i].status, after[i].status) {
      if i != k {
        assert Step(rows[i].status, rows[i].status);
      }
    }
  }

  /** Any chain of writes advances the store: no status ever returns to `open`. */
  lemma AdvancesTransitive(a: seq<Request>, b: seq<Request>, c: seq<Request>)
    requires Advances(a, b) && Advances(b, c)
    ensures Advances(a, c)
  {
    forall k | 0 <= k < |a|
      ensures c[k] == a[k].(status := c[k].status) && Step(a[k].status, c[k].status)
    {
      assert b[k] == a[k].(status := b[k].status) && Step(a[k].status, b[k].status);
      assert c[k] == b[k].(status := c[k].status) && Step(b[k].status, c[k].status);
    }
  }

  class Database {
    var requests: seq<Request>
    var offers: seq<Offer>
    var profiles: set<UserId>

    /** The constraints the database enforces. */
    ghost predicate Valid()
      reads this
    {
      && DistinctRequestIds(requests)
      && UniqueOfferPairs(offers)
      && DistinctOfferIds(offers)
      && OffersReference(requests, offers, profiles)
      && AuthorsHaveProfiles(requests, profiles)
    }

    /** The constraints together with what the core's write paths keep on top of them. */
    ghost predicate Consistent()
      reads this
    {
      Valid() && NoSelfOffers(requests, offers) && ThanksHaveNoAmount(requests)
    }

    constructor (profiles: set<UserId>)
      ensures Consistent()
      ensures requests == [] && offers == [] && this.profiles == profiles
    {
      requests := [];
      offers := [];
      this.profiles := profiles;
    }

    /** `insert(row).select().single()` on `requests`. */
    method InsertRequest(row: Request, fault: Option<DbError>) returns (r: Option<DbError>)
      requires Valid()
      modifies this`requests
      ensures Valid()
      ensures r == RequestInsertError(old(requests), profiles, row, fault)
      ensures requests == if r.None? then old(requests) + [row] else old(requests)
    {
      r := RequestInsertError(requests, profiles, row, fault);
      if r.None? {
        ghost var before := requests;
        requests := requests + [row];
        forall i | 0 <= i < |offers|
          ensures FindRequest(requests, offers[i].requestId).Some?
        {
          FindAfterAppend(before, row, offers[i].requestId);
        }
      }
    }

    /** `insert(row).select().single()` on `offers`. */
    method InsertOffer(row: Offer, fault: Option<DbError>) returns (r: Option<DbError>)
      requires Valid()
      modifies this`offers
      ensures Valid()
      ensures r == OfferInsertError(requests, old(offers), profiles, row, fault)
      ensures offers == if r.None? then old(offers) + [row] else old(offers)
    {
      r := OfferInsertError(requests, offers, profiles, row, fault);
      if r.None? {
        offers := offers + [row];
      }
    }

    /**
     * `update({status: to}).eq('id', id)`, narrowed by `.eq('status', expected)`
     * when `expected` is given: a compare-and-set on one row. Returns the rows
     * it changed.
     */
    method UpdateStatus(id: RequestId, expected: Option<Status>, to: Status) returns (changed: seq<Request>)
      requires Valid()
      modifies this`requests
      ensures Valid()
      ensures match FindRequest(old(requests), id)
        case None => requests == old(requests) && changed == []
        case Some(k) =>
          if expected.None? || old(requests)[k].status == expected.value then
            requests == old(requests)[k := old(requests)[k].(status := to)] && changed == [requests[k]]
          else
            requests == old(requests) && changed == []
    {
      changed := [];
      var found := FindRequest(requests, id);
      if found.Some? {
        var k := found.value;
        if expected.None? || requests[k].status == expected.value {
          ghost var before := requests;
          requests := requests[k := requests[k].(status := to)];
          changed := [requests[k]];
          forall i | 0 <= i < |offers|
            ensures FindRequest(requests, offers[i].requestId).Some?
          {
            FindAfterStatusChange(before, k, to, offers[i].requestId);
          }
        }
      }
    }
  }
}
