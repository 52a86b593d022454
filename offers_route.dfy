/**
 * `POST /api/offers`: a helper offers to help on a request. Guards run in a
 * fixed order (signed in, `request_id` given, request found, not the caller's
 * own, still open, not already offered); then the offer is inserted and the
 * request moved from `open` to `in_progress` if it is still `open`.
 */
module OffersRoute {
  import opened Optional
  import opened Domain
  import opened Store
  import opened Http
  import opened RequestActions

  datatype OfferBody = OfferBody(requestId: Option<string>)

  const AlreadyOffered := "You have already offered on this request"

  /**
   * The message for a failed insert: a unique violation reads exactly like the
   * duplicate pre-check, every other failure is generic.
   */
  function InsertErrorMessage(e: DbError): (m: string)
    ensures m == AlreadyOffered <==> e.code == UniqueViolation
    ensures m != AlreadyOffered ==> m == "Failed to create offer"
  {
    if e.code == UniqueViolation then AlreadyOffered else "Failed to create offer"
  }

  /** The raw store message never reaches the response. */
  lemma InsertErrorHidesStoreMessage(code: string, m1: string, m2: string)
    ensures InsertErrorMessage(DbError(code, m1)) == InsertErrorMessage(DbError(code, m2))
  {
  }

  /** 404 for a missing request, 400 for the other refusals. */
  function RefusalStatus(f: Refusal): (status: int)
    ensures status == 404 <==> f == NotFound
    ensures status == 400 || status == 404
  {
    if f == NotFound then 404 else 400
  }

  method Post(db: Database, caller: Option<UserId>, body: OfferBody, newId: string, now: int, fault: Option<DbError>)
    returns (resp: Response<Offer>)
    requires db.Consistent()
    modifies db`requests, db`offers
    ensures db.Consistent() && Advances(old(db.requests), db.requests)
    ensures caller.None? ==> resp == Failure(401, Unauthorized) && unchanged(db)
    ensures caller.Some? && !Truthy(body.requestId) ==>
      resp == Failure(400, "request_id is required") && unchanged(db)
    ensures caller.Some? && Truthy(body.requestId) ==>
      var requestId := body.requestId.value;
      match PreCheck(old(db.requests), caller.value, requestId)
      case Some(f) => resp == Failure(RefusalStatus(f), RefusalMessage(f)) && unchanged(db)
      case None =>
        if HasOffer(old(db.offers), requestId, caller.value) then
          resp == Failure(400, AlreadyOffered) && unchanged(db)
        else
          var row := Offer(newId, requestId, caller.value, now);
          var k := FindRequest(old(db.requests), requestId).value;
          match OfferInsertError(old(db.requests), old(db.offers), db.profiles, row, fault)
          case Some(e) => resp == Failure(400, InsertErrorMessage(e)) && unchanged(db)
          case None =>
            && resp == Response(201, Json(row))
            && db.offers == old(db.offers) + [row]
            && db.requests == old(db.requests)[k := old(db.requests)[k].(status := InProgress)]
  {
    AdvancesReflexive(db.requests);
    if caller.None? {
      return Failure(401, Unauthorized);
    }
    var user := caller.value;
    if !Truthy(body.requestId) {
      return Failure(400, "request_id is required");
    }
    var requestId := body.requestId.value;
    var found := FindRequest(db.requests, requestId);
    if found.None? {
      return Failure(404, RefusalMessage(NotFound));
    }
    var k := found.value;
    if db.requests[k].authorId == user {
      return Failure(400, RefusalMessage(OwnRequest));
    }
    if db.requests[k].status != Open {
      return Failure(400, RefusalMessage(NotOpen));
    }
    if HasOffer(db.offers, requestId, user) {
      return Failure(400, AlreadyOffered);
    }
    var row := Offer(newId, requestId, user, now);
    ghost var offersBefore := db.offers;
    var error := db.InsertOffer(row, fault);
    if error.Some? {
      return Failure(400, InsertErrorMessage(error.value));
    }
    AppendForeignOffer(db.requests, offersBefore, row, k);
    StatusChangeKeepsInvariants(db.requests, db.offers, k, InProgress);
    AdvancesByStatusStep(db.requests, k, InProgress);
    var _ := db.UpdateStatus(requestId, Some(Open), InProgress);
    resp := Response(201, Json(row));
  }
}
