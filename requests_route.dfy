/**
 * `GET /api/requests` (the public listing, driven by query-string parameters)
 * and `POST /api/requests` (validate the body, then insert a request for the
 * signed-in caller).
 */
module RequestsRoute {
  import opened Optional
  import opened Domain
  import opened Store
  import opened Http
  import Listing
  import RequestActions

  /** The listing filters read from the query string. */
  function ParseFilters(params: map<string, string>): (f: Listing.Filters)
    ensures f.paidOnly <==> "paid_only" in params && params["paid_only"] == "true"
    ensures f.status == Lookup(params, "status") && f.search == Lookup(params, "q")
    ensures f.district == Lookup(params, "district") && f.category == Lookup(params, "category")
    ensures f.urgency == Lookup(params, "urgency")
  {
    Listing.Filters(
      Lookup(params, "district"),
      Lookup(params, "category"),
      Lookup(params, "urgency"),
      Lookup(params, "paid_only") == Some("true"),
      Lookup(params, "q"),
      Lookup(params, "status"))
  }

  /** The fixed message a failed listing query is reported with. */
  function GetErrorMessage(e: DbError): (m: string)
    ensures m == "No rows found" <==> e.code == NoRowsFound
    ensures m == "Duplicate entry" <==> e.code == UniqueViolation
    ensures m == "No rows found" || m == "Duplicate entry" || m == "Database query failed"
  {
    if e.code == NoRowsFound then "No rows found"
    else if e.code == UniqueViolation then "Duplicate entry"
    else "Database query failed"
  }

  /** `GET /api/requests` */
  function Get(params: map<string, string>, textMatch: Listing.TextMatch, rows: seq<Request>, queryError: Option<DbError>)
    : (resp: Response<seq<SafeRequest>>)
    ensures queryError.Some? ==> resp == Failure(400, GetErrorMessage(queryError.value))
    ensures queryError.None? ==> resp.status == 200 && resp.body.Json? && Listing.NewestFirst(resp.body.value)
    ensures queryError.None? ==> forall s :: s in resp.body.value <==>
      exists row :: row in rows && Listing.Matches(ParseFilters(params), textMatch, row) && Redact(row) == s
    ensures queryError.None? ==> |resp.body.value| == |Listing.Select(ParseFilters(params), textMatch, rows)|
  {
    if queryError.Some? then
      Failure(400, GetErrorMessage(queryError.value))
    else
      var f := ParseFilters(params);
      Listing.QueryNewestFirst(f, textMatch, rows);
      Listing.QueryIsFilteredRows(f, textMatch, rows);
      Response(200, Json(Listing.Query(f, textMatch, rows)))
  }

  /** Without a `status` parameter only open requests are listed. */
  lemma GetDefaultsToOpen(params: map<string, string>, textMatch: Listing.TextMatch, rows: seq<Request>)
    requires "status" !in params || params["status"] == ""
    ensures forall s :: s in Get(params, textMatch, rows, None).body.value ==> s.status == Open
  {
    Listing.QueryRespectsFilters(ParseFilters(params), textMatch, rows);
  }

  /** Paid-only applies exactly when `paid_only` is the string `true`. */
  lemma GetPaidOnlyFilter(params: map<string, string>, textMatch: Listing.TextMatch, rows: seq<Request>)
    requires "paid_only" in params && params["paid_only"] == "true"
    ensures forall s :: s in Get(params, textMatch, rows, None).body.value ==> s.rewardType == Money
  {
    Listing.QueryRespectsFilters(ParseFilters(params), textMatch, rows);
  }

  /** A failed query is always a 400 whose body depends on the code alone. */
  lemma GetErrorHidesStoreMessage(params: map<string, string>, textMatch: Listing.TextMatch, rows: seq<Request>, code: string, m1: string, m2: string)
    ensures Get(params, textMatch, rows, Some(DbError(code, m1))) == Get(params, textMatch, rows, Some(DbError(code, m2)))
    ensures Get(params, textMatch, rows, Some(DbError(code, m1))).status == 400
  {
  }

  /** The JSON body of `POST /api/requests`. */
  datatype RequestBody = RequestBody(
    title: Option<string>,
    description: Option<string>,
    category: Option<string>,
    urgency: Option<string>,
    rewardType: RewardType,
    rewardAmount: Option<int>,
    district: Option<string>,
    contactType: ContactType,
    contactValue: Option<string>)

  predicate HasRequiredFields(b: RequestBody)
  {
    Truthy(b.title) && Truthy(b.description) && Truthy(b.category) && Truthy(b.urgency)
    && Truthy(b.district) && Truthy(b.contactValue)
  }

  /** `!reward_amount` for a number: absent or zero. */
  predicate AmountMissing(a: Option<int>)
  {
    a.None? || a.value == 0
  }

  /** The row the route inserts for `authorId`. */
  function BodyRow(b: RequestBody, authorId: UserId, id: RequestId, now: int): (row: Request)
    requires HasRequiredFields(b)
    ensures row.id == id && row.authorId == authorId && row.status == Open && row.createdAt == now
    ensures row.rewardType == Money ==> row.rewardAmount == b.rewardAmount
    ensures row.rewardType != Money ==> row.rewardAmount.None?
    ensures row.contactValue == b.contactValue.value
    ensures row.rewardType == b.rewardType && row.title == b.title.value && row.description == b.description.value
    ensures row.category == b.category.value && row.urgency == b.urgency.value && row.district == b.district.value
    ensures row.contactType == b.contactType
  {
    Request(id, authorId, b.title.value, b.description.value, b.category.value, b.urgency.value, b.rewardType,
            if b.rewardType == Money then b.rewardAmount else None,
            b.district.value, Open, b.contactType, b.contactValue.value, now)
  }

  /**
   * A body that passes validation yields a row whose amount is present exactly
   * when its reward is money.
   */
  lemma ValidatedRowPairsReward(b: RequestBody, authorId: UserId, id: RequestId, now: int)
    requires HasRequiredFields(b) && !(b.rewardType == Money && AmountMissing(b.rewardAmount))
    ensures BodyRow(b, authorId, id, now).rewardAmount.Some? <==> BodyRow(b, authorId, id, now).rewardType == Money
    ensures BodyRow(b, authorId, id, now).rewardAmount != Some(0)
  {
  }

  /** The fixed message a failed insert is reported with. */
  function PostErrorMessage(e: DbError): (m: string)
    ensures m == "Duplicate entry" <==> e.code == UniqueViolation
    ensures m == "Invalid reference" <==> e.code == ForeignKeyViolation
    ensures m == "Duplicate entry" || m == "Invalid reference" || m == "Failed to create request"
  {
    if e.code == UniqueViolation then "Duplicate entry"
    else if e.code == ForeignKeyViolation then "Invalid reference"
    else "Failed to create request"
  }

  /** `POST /api/requests` */
  method Post(db: Database, caller: Option<UserId>, body: RequestBody, newId: RequestId, now: int, fault: Option<DbError>)
    returns (resp: Response<SafeRequest>)
    requires db.Consistent()
    modifies db`requests
    ensures db.Consistent() && Advances(old(db.requests), db.requests)
    ensures caller.None? ==> resp == Failure(401, "Unauthorized") && db.requests == old(db.requests)
    ensures caller.Some? && !HasRequiredFields(body) ==>
      resp == Failure(400, "Missing required fields") && db.requests == old(db.requests)
    ensures caller.Some? && HasRequiredFields(body) && body.rewardType == Money && AmountMissing(body.rewardAmount) ==>
      resp == Failure(400, "reward_amount is required for money rewards") && db.requests == old(db.requests)
    ensures caller.Some? && HasRequiredFields(body) && !(body.rewardType == Money && AmountMissing(body.rewardAmount)) ==>
      var row := BodyRow(body, caller.value, newId, now);
      match RequestInsertError(old(db.requests), db.profiles, row, fault)
      case Some(e) => resp == Failure(400, PostErrorMessage(e)) && db.requests == old(db.requests)
      case None => resp == Response(201, Json(Redact(row))) && db.requests == old(db.requests) + [row]
  {
    AdvancesReflexive(db.requests);
    if caller.None? {
      return Failure(401, "Unauthorized");
    }
    if !HasRequiredFields(body) {
      return Failure(400, "Missing required fields");
    }
    if body.rewardType == Money && AmountMissing(body.rewardAmount) {
      return Failure(400, "reward_amount is required for money rewards");
    }
    var row := BodyRow(body, caller.value, newId, now);
    ghost var before := db.requests;
    AdvancesByAppend(before, row);
    var error := db.InsertRequest(row, fault);
    if error.Some? {
      return Failure(400, PostErrorMessage(error.value));
    }
    RequestActions.AppendFreshRow(before, db.offers, db.profiles, row);
    resp := Response(201, Json(Redact(row)));
  }
}
