/**
 * The server actions of the request/offer lifecycle: listing, creating a
 * request, reading a contact, offering to help and closing a request. Each
 * action either returns a value or throws an Error with a message; the
 * caller's identity is a parameter (None when nobody is signed in).
 */
module RequestActions {
  import opened Optional
  import opened Domain
  import opened Store
  import Listing

  datatype ActionResult<T> = Returned(value: T) | Threw(message: string)

  const Unauthorized := "Unauthorized"
  const Forbidden := "Forbidden"
  const ContactNotAvailable := "Contact not available. Create an offer first."

  /** `error.code || 'unknown'` */
  function CodeOrUnknown(e: DbError): (c: string)
    ensures c != ""
    ensures e.code != "" ==> c == e.code
    ensures e.code == "" ==> c == "unknown"
  {
    if e.code != "" then e.code else "unknown"
  }

  /**
   * `getRequests`: the listing, or an Error naming only the store's code when
   * the query fails.
   */
  function GetRequests(filters: Listing.Filters, textMatch: Listing.TextMatch, rows: seq<Request>, queryError: Option<DbError>)
    : (r: ActionResult<seq<SafeRequest>>)
    ensures queryError.Some? ==> r == Threw("Database query failed: " + CodeOrUnknown(queryError.value))
    ensures queryError.None? ==> r.Returned? && Listing.NewestFirst(r.value)
    ensures queryError.None? ==> forall s :: s in r.value <==>
      exists row :: row in rows && Listing.Matches(filters, textMatch, row) && Redact(row) == s
    ensures queryError.None? ==> |r.value| == |Listing.Select(filters, textMatch, rows)|
  {
    if queryError.Some? then
      Threw("Database query failed: " + CodeOrUnknown(queryError.value))
    else
      Listing.QueryNewestFirst(filters, textMatch, rows);
      Listing.QueryIsFilteredRows(filters, textMatch, rows);
      Returned(Listing.Query(filters, textMatch, rows))
  }

  /** A failed listing reveals the store's code and nothing of its message. */
  lemma GetRequestsHidesStoreMessage(filters: Listing.Filters, textMatch: Listing.TextMatch, rows: seq<Request>, code: string, m1: string, m2: string)
    ensures GetRequests(filters, textMatch, rows, Some(DbError(code, m1))) == GetRequests(filters, textMatch, rows, Some(DbError(code, m2)))
  {
  }

  /** The fields of the create-request form. */
  datatype RequestForm = RequestForm(
    title: string,
    description: string,
    category: string,
    urgency: string,
    rewardType: RewardType,
    rewardAmount: Option<int>,
    district: string,
    contactType: ContactType,
    contactValue: string)

  /**
   * The row `createRequest` inserts: the form's fields, the caller as author
   * (the typed form has no author key to spread over it), the status forced
   * to `open` and no amount unless the reward is money.
   */
  function NewRow(form: RequestForm, authorId: UserId, id: RequestId, now: int): (row: Request)
    ensures row.id == id && row.authorId == authorId && row.status == Open && row.createdAt == now
    ensures row.rewardType == Thanks ==> row.rewardAmount.None?
    ensures row.rewardType == Money ==> row.rewardAmount == form.rewardAmount
    ensures ContactOf(row) == Contact(form.contactType, form.contactValue)
    ensures row.title == form.title && row.description == form.description
    ensures row.category == form.category && row.urgency == form.urgency
    ensures row.rewardType == form.rewardType && row.district == form.district
  {
    Request(id, authorId, form.title, form.description, form.category, form.urgency, form.rewardType,
            if form.rewardType == Money then form.rewardAmount else None,
            form.district, Open, form.contactType, form.contactValue, now)
  }

  /** Appending a row with a fresh id keeps the store's invariants. */
  lemma AppendFreshRow(rows: seq<Request>, offers: seq<Offer>, profiles: set<UserId>, row: Request)
    requires DistinctRequestIds(rows) && OffersReference(rows, offers, profiles)
    requires NoSelfOffers(rows, offers) && ThanksHaveNoAmount(rows)
    requires FindRequest(rows, row.id).None?
    requires row.rewardType == Thanks ==> row.rewardAmount.None?
    ensures NoSelfOffers(rows + [row], offers) && ThanksHaveNoAmount(rows + [row])
  {
    var rows' := rows + [row];
    forall i, j | 0 <= i < |offers| && 0 <= j < |rows'| && rows'[j].id == offers[i].requestId
      ensures rows'[j].authorId != offers[i].helperId
    {
      var k := FindRequest(rows, offers[i].requestId).value;
      assert j != |rows|;
    }
  }

  /**
   * `createRequest`: the signed-in caller inserts a request; the result is the
   * stored row without its contact value.
   */
  method CreateRequest(db: Database, caller: Option<UserId>, form: RequestForm, newId: RequestId, now: int, fault: Option<DbError>)
    returns (r: ActionResult<SafeRequest>)
    requires db.Consistent()
    modifies db`requests
    ensures db.Consistent() && Advances(old(db.requests), db.requests)
    ensures caller.None? ==> r == Threw(Unauthorized) && db.requests == old(db.requests)
    ensures caller.Some? ==>
      var row := NewRow(form, caller.value, newId, now);
      match RequestInsertError(old(db.requests), db.profiles, row, fault)
      case Some(e) => r == Threw("Failed to create request: " + CodeOrUnknown(e)) && db.requests == old(db.requests)
      case None => r == Returned(Redact(row)) && db.requests == old(db.requests) + [row]
  {
    AdvancesReflexive(db.requests);
    if caller.None? {
      return Threw(Unauthorized);
    }
    var row := NewRow(form, caller.value, newId, now);
    ghost var before := db.requests;
    AdvancesByAppend(before, row);
    var error := db.InsertRequest(row, fault);
    if error.Some? {
      return Threw("Failed to create request: " + CodeOrUnknown(error.value));
    }
    AppendFreshRow(before, db.offers, db.profiles, row);
    r := Returned(Redact(row));
  }

  /** The pre-checks of an offer, in the order the code runs them. */
  datatype Refusal = NotFound | OwnRequest | NotOpen

  function RefusalMessage(f: Refusal): string
  {
    match f
    case NotFound => "Request not found"
    case OwnRequest => "You cannot offer on your own request"
    case NotOpen => "Request is not open"
  }

  /**
   * The first pre-check a caller fails when offering on `requestId`: the
   * request must exist, must not be the caller's own, and must be open.
   */
  function PreCheck(rows: seq<Request>, caller: UserId, requestId: RequestId): (f: Option<Refusal>)
    ensures f == Some(NotFound) <==> forall k :: 0 <= k < |rows| ==> rows[k].id != requestId
    ensures f == Some(OwnRequest) ==> exists k :: 0 <= k < |rows| && rows[k].id == requestId && rows[k].authorId == caller
    ensures f == Some(NotOpen) ==> exists k :: 0 <= k < |rows| && rows[k].id == requestId && rows[k].authorId != caller && rows[k].status != Open
    ensures f.None? ==> exists k :: 0 <= k < |rows| && rows[k].id == requestId && rows[k].authorId != caller && rows[k].status == Open
  {
    match FindRequest(rows, requestId)
    case None => Some(NotFound)
    case Some(k) =>
      if rows[k].authorId == caller then Some(OwnRequest)
      else if rows[k].status != Open then Some(NotOpen)
      else None
  }

  /** Once an offer has moved a request to `in_progress`, every other helper is refused as "not open". */
  lemma AdmittedRequestRefusesOthers(rows: seq<Request>, k: nat, other: UserId)
    requires DistinctRequestIds(rows)
    requires k < |rows| && rows[k].status == Open && other != rows[k].authorId
    ensures PreCheck(rows[k := rows[k].(status := InProgress)], other, rows[k].id) == Some(NotOpen)
  {
    FoundRowIsUnique(rows, rows[k].id, k);
    FindAfterStatusChange(rows, k, InProgress, rows[k].id);
  }

  /**
   * Closing is idempotent: after the author closes a request it is found at
   * the same place, and closing it again writes the same rows.
   */
  lemma CloseIsIdempotent(rows: seq<Request>, k: nat)
    requires DistinctRequestIds(rows) && k < |rows|
    ensures var closed := rows[k := rows[k].(status := Closed)];
      && FindRequest(closed, rows[k].id) == Some(k)
      && closed[k := closed[k].(status := Closed)] == closed
  {
    FoundRowIsUnique(rows, rows[k].id, k);
    FindAfterStatusChange(rows, k, Closed, rows[k].id);
  }

  /** A status change keeps the invariants: they do not look at statuses. */
  lemma StatusChangeKeepsInvariants(rows: seq<Request>, offers: seq<Offer>, k: nat, s: Status)
    requires k < |rows|
    requires NoSelfOffers(rows, offers) && ThanksHaveNoAmount(rows)
    ensures NoSelfOffers(rows[k := rows[k].(status := s)], offers)
    ensures ThanksHaveNoAmount(rows[k := rows[k].(status := s)])
  {
  }

  /** Appending an offer by someone other than the request's author keeps NoSelfOffers. */
  lemma AppendForeignOffer(rows: seq<Request>, offers: seq<Offer>, row: Offer, k: nat)
    requires DistinctRequestIds(rows) && NoSelfOffers(rows, offers)
    requires k < |rows| && rows[k].id == row.requestId && rows[k].authorId != row.helperId
    ensures NoSelfOffers(rows, offers + [row])
  {
    var offers' := offers + [row];
    forall i, j | 0 <= i < |offers'| && 0 <= j < |rows| && rows[j].id == offers'[i].requestId
      ensures rows[j].authorId != offers'[i].helperId
    {
      if i == |offers| {
        assert j == k;
      }
    }
  }

  /**
   * `createOffer`: the signed-in caller offers to help on `requestId`. After
   * the pre-checks the offer is inserted (the unique (request_id, helper_id)
   * constraint refuses a repeat with 23505), then the request is moved to
   * `in_progress` where it is still `open`.
   */
  method CreateOffer(db: Database, caller: Option<UserId>, requestId: RequestId, newId: string, now: int, fault: Option<DbError>)
    returns (r: ActionResult<Offer>)
    requires db.Consistent()
    modifies db`requests, db`offers
    ensures db.Consistent() && Advances(old(db.requests), db.requests)
    ensures caller.None? ==> r == Threw(Unauthorized) && unchanged(db)
    ensures caller.Some? && PreCheck(old(db.requests), caller.value, requestId).Some? ==>
      r == Threw(RefusalMessage(PreCheck(old(db.requests), caller.value, requestId).value)) && unchanged(db)
    ensures caller.Some? && PreCheck(old(db.requests), caller.value, requestId).None? ==>
      var row := Offer(newId, requestId, caller.value, now);
      var k := FindRequest(old(db.requests), requestId).value;
      match OfferInsertError(old(db.requests), old(db.offers), db.profiles, row, fault)
      case Some(e) => r == Threw("Failed to create offer: " + CodeOrUnknown(e)) && unchanged(db)
      case None =>
        && r == Returned(row)
        && db.offers == old(db.offers) + [row]
        && db.requests == old(db.requests)[k := old(db.requests)[k].(status := InProgress)]
  {
    AdvancesReflexive(db.requests);
    if caller.None? {
      return Threw(Unauthorized);
    }
    var user := caller.value;
    var found := FindRequest(db.requests, requestId);
    if found.None? {
      return Threw(RefusalMessage(NotFound));
    }
    var k := found.value;
    if db.requests[k].authorId == user {
      return Threw(RefusalMessage(OwnRequest));
    }
    if db.requests[k].status != Open {
      return Threw(RefusalMessage(NotOpen));
    }
    var row := Offer(newId, requestId, user, now);
    ghost var offersBefore := db.offers;
    var error := db.InsertOffer(row, fault);
    if error.Some? {
      return Threw("Failed to create offer: " + CodeOrUnknown(error.value));
    }
    AppendForeignOffer(db.requests, offersBefore, row, k);
    StatusChangeKeepsInvariants(db.requests, db.offers, k, InProgress);
    AdvancesByStatusStep(db.requests, k, InProgress);
    var _ := db.UpdateStatus(requestId, Some(Open), InProgress);
    r := Returned(row);
  }

  /**
   * `closeRequest`: only the author may close, from any status; a missing
   * request is refused the same way as a stranger. The result is the closed
   * row without its contact value.
   */
  method CloseRequest(db: Database, caller: Option<UserId>, requestId: RequestId, fault: Option<DbError>)
    returns (r: ActionResult<SafeRequest>)
    requires db.Consistent()
    modifies db`requests
    ensures db.Consistent() && Advances(old(db.requests), db.requests)
    ensures caller.None? ==> r == Threw(Unauthorized) && db.requests == old(db.requests)
    ensures caller.Some? && (FindRequest(old(db.requests), requestId).None? ||
                             old(db.requests)[FindRequest(old(db.requests), requestId).value].authorId != caller.value) ==>
      r == Threw(Forbidden) && db.requests == old(db.requests)
    ensures caller.Some? && FindRequest(old(db.requests), requestId).Some? ==>
      var k := FindRequest(old(db.requests), requestId).value;
      old(db.requests)[k].authorId == caller.value ==>
        if fault.Some? then
          r == Threw("Failed to close request: " + CodeOrUnknown(fault.value)) && db.requests == old(db.requests)
        else
          && db.requests == old(db.requests)[k := old(db.requests)[k].(status := Closed)]
          && r == Returned(Redact(db.requests[k]))
  {
    AdvancesReflexive(db.requests);
    if caller.None? {
      return Threw(Unauthorized);
    }
    var found := FindRequest(db.requests, requestId);
    if found.None? || db.requests[found.value].authorId != caller.value {
      return Threw(Forbidden);
    }
    if fault.Some? {
      return Threw("Failed to close request: " + CodeOrUnknown(fault.value));
    }
    StatusChangeKeepsInvariants(db.requests, db.offers, found.value, Closed);
    AdvancesByStatusStep(db.requests, found.value, Closed);
    var changed := db.UpdateStatus(requestId, None, Closed);
    r := Returned(Redact(changed[0]));
  }

  /**
   * The disclosure rule the `get_request_contact` database function is taken
   * to apply: the request exists, and the caller is its author or has offered
   * on it.
   */
  predicate MayViewContact(rows: seq<Request>, offers: seq<Offer>, requestId: RequestId, caller: UserId)
  {
    match FindRequest(rows, requestId)
    case None => false
    case Some(k) => rows[k].authorId == caller || HasOffer(offers, requestId, caller)
  }

  /** The rows `rpc('get_request_contact', { request_uuid })` returns. */
  function ContactRpc(rows: seq<Request>, offers: seq<Offer>, requestId: RequestId, caller: UserId): (cs: seq<Contact>)
    ensures |cs| <= 1
    ensures |cs| == 1 <==> MayViewContact(rows, offers, requestId, caller)
  {
    if MayViewContact(rows, offers, requestId, caller) then [ContactOf(rows[FindRequest(rows, requestId).value])] else []
  }

  /**
   * `getRequestContact`: the contact of a request, for its author or a helper
   * who has offered on it. A missing request and a hidden one are refused with
   * the same message.
   */
  method GetRequestContact(db: Database, caller: Option<UserId>, requestId: RequestId, fault: Option<DbError>)
    returns (r: ActionResult<Contact>)
    ensures caller.None? ==> r == Threw(Unauthorized)
    ensures caller.Some? && fault.Some? ==> r == Threw("Failed to get contact: " + CodeOrUnknown(fault.value))
    ensures caller.Some? && fault.None? ==>
      (r.Returned? <==> MayViewContact(db.requests, db.offers, requestId, caller.value))
    ensures caller.Some? && fault.None? && r.Threw? ==> r.message == ContactNotAvailable
    ensures r.Returned? ==> caller.Some?
    ensures r.Returned? ==> exists k ::
      && 0 <= k < |db.requests| && db.requests[k].id == requestId
      && r.value == ContactOf(db.requests[k])
      && (db.requests[k].authorId == caller.value || HasOffer(db.offers, requestId, caller.value))
  {
    if caller.None? {
      return Threw(Unauthorized);
    }
    if fault.Some? {
      return Threw("Failed to get contact: " + CodeOrUnknown(fault.value));
    }
    var data := ContactRpc(db.requests, db.offers, requestId, caller.value);
    if |data| == 0 {
      return Threw(ContactNotAvailable);
    }
    r := Returned(data[0]);
  }
}
