/**
 * The "my offers" tab: the relative time shown beside each offer and the
 * per-request contact cache filled by the "get contact" button.
 */
module MyOffersTab {
  import opened Optional
  import opened Text
  import opened Domain
  import opened Store
  import opened RequestActions

  const MinuteMs := 60000
  const HourMs := 3600000
  const DayMs := 86400000

  /** The three forms of "time ago", with their count. */
  datatype TimeAgo = MinutesAgo(n: int) | HoursAgo(n: int) | DaysAgo(n: int)

  /**
   * The form `formatTimeAgo` picks for an elapsed time of `diffMs`
   * milliseconds, with `Math.floor` of each quotient (Dafny's `/` by a
   * positive divisor rounds down as well). Minutes are used exactly below one
   * hour, hours exactly from one hour to below one day, days from one day on;
   * each count is the number of whole units elapsed.
   */
  function TimeAgoOf(diffMs: int): (t: TimeAgo)
    ensures t.MinutesAgo? <==> diffMs < HourMs
    ensures t.HoursAgo? <==> HourMs <= diffMs < DayMs
    ensures t.DaysAgo? <==> DayMs <= diffMs
    ensures t.MinutesAgo? ==> t.n < 60 && t.n * MinuteMs <= diffMs < (t.n + 1) * MinuteMs
    ensures t.HoursAgo? ==> 1 <= t.n <= 23 && t.n * HourMs <= diffMs < (t.n + 1) * HourMs
    ensures t.DaysAgo? ==> 1 <= t.n && t.n * DayMs <= diffMs < (t.n + 1) * DayMs
  {
    var diffMins := diffMs / MinuteMs;
    var diffHours := diffMs / HourMs;
    var diffDays := diffMs / DayMs;
    if diffMins < 60 then MinutesAgo(diffMins)
    else if diffHours < 24 then HoursAgo(diffHours)
    else DaysAgo(diffDays)
  }

  /** The words after the count, one per form. */
  function UnitText(t: TimeAgo): string
  {
    match t
    case MinutesAgo(_) => " мин назад"
    case HoursAgo(_) => " ч назад"
    case DaysAgo(_) => " дн назад"
  }

  /**
   * The text shown for each form: the count, then the words of its unit.
   * A non-negative count reads back with `parseInt`.
   */
  function Render(t: TimeAgo): (s: string)
    ensures t.n >= 0 ==> ParseInt(s) == Some(t.n)
    ensures |UnitText(t)| < |s| && s[|s| - |UnitText(t)|..] == UnitText(t)
  {
    var s := IntToString(t.n) + UnitText(t);
    assert t.n >= 0 ==> ParseInt(s) == Some(t.n) by {
      if t.n >= 0 {
        ParseNatThen(t.n, UnitText(t));
      }
    }
    s
  }

  /** Different forms or counts never show the same text. */
  lemma RenderIsInjective(a: TimeAgo, b: TimeAgo)
    requires a.n >= 0 && b.n >= 0
    requires Render(a) == Render(b)
    ensures a == b
  {
    assert a.n == b.n;
    assert |UnitText(a)| == |UnitText(b)|;
  }

  /**
   * `formatTimeAgo(date)` with the current time `nowMs`: for a date in the
   * past, the number of whole units elapsed followed by the unit's words.
   */
  function FormatTimeAgo(nowMs: int, dateMs: int): (s: string)
    ensures dateMs <= nowMs ==> ParseInt(s) == Some(TimeAgoOf(nowMs - dateMs).n)
    ensures |UnitText(TimeAgoOf(nowMs - dateMs))| < |s|
    ensures s[|s| - |UnitText(TimeAgoOf(nowMs - dateMs))|..] == UnitText(TimeAgoOf(nowMs - dateMs))
  {
    Render(TimeAgoOf(nowMs - dateMs))
  }

  predicate SameForm(a: TimeAgo, b: TimeAgo)
  {
    (a.MinutesAgo? && b.MinutesAgo?) || (a.HoursAgo? && b.HoursAgo?) || (a.DaysAgo? && b.DaysAgo?)
  }

  /** As more time passes the form only moves to a coarser unit, and within one form the count never drops. */
  lemma TimeAgoCoarsens(d1: int, d2: int)
    requires d1 <= d2
    ensures TimeAgoOf(d1).DaysAgo? ==> TimeAgoOf(d2).DaysAgo?
    ensures TimeAgoOf(d2).MinutesAgo? ==> TimeAgoOf(d1).MinutesAgo?
    ensures TimeAgoOf(d1).HoursAgo? ==> !TimeAgoOf(d2).MinutesAgo?
    ensures SameForm(TimeAgoOf(d1), TimeAgoOf(d2)) ==> TimeAgoOf(d1).n <= TimeAgoOf(d2).n
  {
  }

  /** The component's `contacts` and `loadingContact` state. */
  class ContactPanel {
    var contacts: map<RequestId, Contact>
    var loadingContact: Option<RequestId>

    constructor ()
      ensures contacts == map[] && loadingContact == None
    {
      contacts := map[];
      loadingContact := None;
    }

    /**
     * `handleGetContact`: a cached request is left alone; otherwise the
     * contact is fetched through the `getRequestContact` action and cached
     * only if the action returns one, and the loading marker is cleared.
     */
    method HandleGetContact(requestId: RequestId, db: Database, caller: Option<UserId>, fault: Option<DbError>)
      modifies this
      ensures requestId in old(contacts) ==>
        contacts == old(contacts) && loadingContact == old(loadingContact)
      ensures requestId !in old(contacts) ==> loadingContact == None
      ensures requestId !in old(contacts) && caller.Some? && fault.None?
              && MayViewContact(db.requests, db.offers, requestId, caller.value) ==>
        && requestId in contacts
        && contacts == old(contacts)[requestId := contacts[requestId]]
        && exists k :: 0 <= k < |db.requests| && db.requests[k].id == requestId
                       && contacts[requestId] == ContactOf(db.requests[k])
      ensures !(caller.Some? && fault.None? && MayViewContact(db.requests, db.offers, requestId, caller.value)) ==>
        contacts == old(contacts)
    {
      if requestId in contacts {
        return;
      }
      loadingContact := Some(requestId);
      var result := GetRequestContact(db, caller, requestId, fault);
      if result.Returned? {
        contacts := contacts[requestId := result.value];
      }
      loadingContact := None;
    }
  }
}
