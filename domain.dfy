/**
 * The records of the marketplace's store: a help request with its private
 * contact, the same request with the contact removed (what leaves the server),
 * and an offer to help. Also the order in which a request's status may move.
 */
module Domain {
  import opened Optional

  type UserId = string
  type RequestId = string

  datatype Status = Open | InProgress | Closed

  /** The text the store keeps in the `status` column. */
  function StatusText(s: Status): (t: string)
    ensures t == "open" <==> s == Open
  {
    match s
    case Open => "open"
    case InProgress => "in_progress"
    case Closed => "closed"
  }

  datatype RewardType = Thanks | Money
  datatype ContactType = Telegram | Phone

  /** A row of the `requests` table, including the private `contact_value`. */
  datatype Request = Request(
    id: RequestId,
    authorId: UserId,
    title: string,
    description: string,
    category: string,
    urgency: string,
    rewardType: RewardType,
    rewardAmount: Option<int>,
    district: string,
    status: Status,
    contactType: ContactType,
    contactValue: string,
    createdAt: int)  // milliseconds since the epoch

  /** A request without `contact_value`: the only shape that is handed to clients. */
  datatype SafeRequest = SafeRequest(
    id: RequestId,
    authorId: UserId,
    title: string,
    description: string,
    category: string,
    urgency: string,
    rewardType: RewardType,
    rewardAmount: Option<int>,
    district: string,
    status: Status,
    contactType: ContactType,
    createdAt: int)

  /** A row of the `offers` table. */
  datatype Offer = Offer(id: string, requestId: RequestId, helperId: UserId, createdAt: int)

  /** What `get_request_contact` returns for a request. */
  datatype Contact = Contact(contactType: ContactType, contactValue: string)

  function ContactOf(r: Request): Contact
  {
    Contact(r.contactType, r.contactValue)
  }

  /** `const { contact_value, ...rest } = row; rest` */
  function Redact(r: Request): SafeRequest
  {
    SafeRequest(r.id, r.authorId, r.title, r.description, r.category, r.urgency,
                r.rewardType, r.rewardAmount, r.district, r.status, r.contactType, r.createdAt)
  }

  /** Puts a contact value back on a redacted request. */
  function Restore(s: SafeRequest, contactValue: string): Request
  {
    Request(s.id, s.authorId, s.title, s.description, s.category, s.urgency,
            s.rewardType, s.rewardAmount, s.district, s.status, s.contactType, contactValue, s.createdAt)
  }

  /** Redaction removes exactly `contact_value`: every other field survives it. */
  lemma RedactKeepsAllButContact(r: Request)
    ensures Restore(Redact(r), r.contactValue) == r
  {
  }

  /** Nothing of the contact value is left in a redacted request. */
  lemma RedactForgetsContact(r: Request, c: string)
    ensures Redact(r.(contactValue := c)) == Redact(r)
  {
  }

  function RedactAll(rs: seq<Request>): (ss: seq<SafeRequest>)
    ensures |ss| == |rs|
    ensures forall i :: 0 <= i < |rs| ==> ss[i] == Redact(rs[i])
  {
    seq(|rs|, i requires 0 <= i < |rs| => Redact(rs[i]))
  }

  lemma RedactAllAppend(a: seq<Request>, b: seq<Request>)
    ensures RedactAll(a + b) == RedactAll(a) + RedactAll(b)
  {
  }

  lemma RedactAllTail(rs: seq<Request>)
    requires rs != []
    ensures RedactAll(rs[1..]) == RedactAll(rs)[1..]
    ensures RedactAll(rs)[0] == Redact(rs[0])
  {
  }

  /** Position of a status along `open -> in_progress -> closed`. */
  function Rank(s: Status): nat
  {
    match s
    case Open => 0
    case InProgress => 1
    case Closed => 2
  }

  /**
   * The status changes some operation of the core can make to one request:
   * none, the automatic `open -> in_progress` on an offer, or the author's
   * close from any status.
   */
  predicate Step(from: Status, to: Status)
  {
    from == to || (from == Open && to == InProgress) || to == Closed
  }

  /**
   * Along any sequence of steps the status only moves forward: it never comes
   * back to `open`, and once `closed` it stays `closed`.
   */
  lemma {:induction false} StepsMoveForward(trace: seq<Status>)
    requires forall i :: 0 <= i < |trace| - 1 ==> Step(trace[i], trace[i + 1])
    ensures forall i, j :: 0 <= i <= j < |trace| ==> Rank(trace[i]) <= Rank(trace[j])
    ensures forall j :: 0 <= j < |trace| && trace[j] == Open ==> trace[0] == Open
    ensures forall j :: 0 <= j < |trace| && trace[0] == Closed ==> trace[j] == Closed
  {
    if |trace| > 1 {
      StepsMoveForward(trace[1..]);
      assert forall j :: 1 <= j < |trace| ==> trace[j] == trace[1..][j - 1];
      assert Rank(trace[0]) <= Rank(trace[1]);
    }
  }
}
