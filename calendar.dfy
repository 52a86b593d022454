/**
 * The calendar tab: the tasks shown in one (day, time slot) cell, the Monday
 * a week starts on, and week-by-week navigation.
 *
 * Times are integers (milliseconds); `toLocal` is the browser's conversion of
 * a time to its local calendar day and hour. Days are local day numbers:
 * day 0 is 1 January 1970, a Thursday, so `getDay()` is `(day + 4) % 7`
 * (0 = Sunday). `setDate(getDate() + n)` moves a date by `n` days whatever
 * the month, so it is addition on day numbers.
 */
module CalendarTab {
  import opened Optional
  import opened Text
  import opened Domain

  datatype LocalTime = LocalTime(day: int, hour: int)

  /** The request nested into an offer row by the `requests(...)` join. */
  datatype NestedRequest = NestedRequest(id: Option<string>, title: string, createdAt: int)

  /** An offer row as the page loads it, with the helper's display name joined in. */
  datatype OfferRow = OfferRow(
    id: string,
    requestId: Option<string>,
    request: Option<NestedRequest>,
    helperName: Option<string>)

  datatype TaskKind = RequestTask | OfferTask

  datatype Task = Task(id: string, title: string, time: string, assignee: string, color: string, kind: TaskKind)

  /** The slot labels of the grid. */
  const TimeSlots: seq<string> := ["08:00", "10:00", "12:00", "14:00", "16:00", "18:00", "20:00"]

  /** `parseInt(timeSlot.split(':')[0])`; None is NaN. */
  function SlotHour(timeSlot: string): Option<nat>
  {
    ParseInt(BeforeFirst(timeSlot, ':'))
  }

  /** Slot `k` of the grid starts at hour 8 + 2k, so the slots start at 8, 10, ..., 20. */
  lemma TimeSlotHour(k: nat)
    requires k < |TimeSlots|
    ensures SlotHour(TimeSlots[k]) == Some(8 + 2 * k)
  {
    var slot := TimeSlots[k];
    assert |slot| == 5 && slot[2] == ':';
    TwoDigitSlot(slot);
  }

  /** A slot written `hh:...` has hour `hh`. */
  lemma TwoDigitSlot(slot: string)
    requires |slot| >= 3 && IsDigit(slot[0]) && IsDigit(slot[1]) && slot[2] == ':'
    ensures SlotHour(slot) == Some((slot[0] as int - '0' as int) * 10 + (slot[1] as int - '0' as int))
  {
    var a, b := slot[0], slot[1];
    var hh := [a, b];
    assert BeforeFirst(slot, ':') == hh by {
      assert BeforeFirst(slot[2..], ':') == [];
      assert BeforeFirst(slot[1..], ':') == [b] + BeforeFirst(slot[1..][1..], ':');
      assert slot[1..][1..] == slot[2..];
    }
    assert LeadingDigits(hh) == hh by {
      assert hh[1..] == [b];
      assert LeadingDigits([b]) == [b] + LeadingDigits([]);
    }
    assert DigitsValue(hh) == (a as int - '0' as int) * 10 + (b as int - '0' as int) by {
      assert hh[..1] == [a] && [a][..0] == [];
      assert DigitsValue([a]) == a as int - '0' as int;
    }
  }

  /** `createdTime >= slotHour && createdTime < slotHour + 2`; false against NaN. */
  predicate InSlot(hour: int, slotHour: Option<nat>)
  {
    slotHour.Some? && slotHour.value <= hour < slotHour.value + 2
  }

  /**
   * An hour from 8 to 21 falls in exactly one slot of the grid; any other
   * hour falls in none.
   */
  lemma SlotsCoverDay(hour: int)
    ensures 8 <= hour <= 21 ==>
      exists i :: 0 <= i < |TimeSlots| && InSlot(hour, SlotHour(TimeSlots[i]))
    ensures forall i, j ::
      (0 <= i < |TimeSlots| && 0 <= j < |TimeSlots|
       && InSlot(hour, SlotHour(TimeSlots[i])) && InSlot(hour, SlotHour(TimeSlots[j]))) ==> i == j
    ensures !(8 <= hour <= 21) ==> forall i :: 0 <= i < |TimeSlots| ==> !InSlot(hour, SlotHour(TimeSlots[i]))
  {
    forall i | 0 <= i < |TimeSlots|
      ensures SlotHour(TimeSlots[i]) == Some(8 + 2 * i)
    {
      TimeSlotHour(i);
    }
    if 8 <= hour <= 21 {
      var i := (hour - 8) / 2;
      assert InSlot(hour, SlotHour(TimeSlots[i]));
    }
  }

  /** `Math.min(slotHour + 2, 24)` */
  function EndHour(slotHour: nat): (e: nat)
    ensures e <= slotHour + 2 && e <= 24
    ensures e == slotHour + 2 || e == 24
  {
    if slotHour + 2 < 24 then slotHour + 2 else 24
  }

  /** The cell's `hh:00 - hh:00` label. */
  function SlotLabel(slotHour: nat): string
  {
    PadStart2(slotHour) + ":00 - " + PadStart2(EndHour(slotHour)) + ":00"
  }

  /** The label every task of a cell carries; a NaN slot hour has no tasks to label. */
  function CellLabel(slotHour: Option<nat>): string
  {
    if slotHour.Some? then SlotLabel(slotHour.value) else ""
  }

  /**
   * Read back, the label starts with the slot hour and its second half (from
   * position 8) starts with the end hour.
   */
  lemma SlotLabelReadsBack(slotHour: nat)
    requires slotHour < 100
    ensures ParseInt(SlotLabel(slotHour)) == Some(slotHour)
    ensures |SlotLabel(slotHour)| >= 8 && ParseInt(SlotLabel(slotHour)[8..]) == Some(EndHour(slotHour))
  {
    var endLabel := PadStart2(EndHour(slotHour)) + ":00";
    SlotLabelHalves(slotHour, endLabel);
    ParsePadded(slotHour, ":00 - " + endLabel);
    ParsePadded(EndHour(slotHour), ":00");
  }

  /** The label is the padded start hour, `:00 - `, then its second half. */
  lemma SlotLabelHalves(slotHour: nat, endLabel: string)
    requires slotHour < 100 && endLabel == PadStart2(EndHour(slotHour)) + ":00"
    ensures SlotLabel(slotHour) == PadStart2(slotHour) + (":00 - " + endLabel)
    ensures |SlotLabel(slotHour)| >= 8 && SlotLabel(slotHour)[8..] == endLabel
  {
    var start := PadStart2(slotHour);
    assert |start| == 2;
    assert SlotLabel(slotHour) == start + (":00 - " + endLabel);
  }

  /** `o.requests?.id || o.request_id` */
  function LinkedRequestId(o: OfferRow): Option<string>
  {
    if o.request.Some? && Truthy(o.request.value.id) then o.request.value.id else o.requestId
  }

  /** `offers.find(...)`: the index of the first offer linked to request `id`. */
  function FirstOfferFor(offers: seq<OfferRow>, id: RequestId): (k: Option<nat>)
    ensures k.Some? ==> k.value < |offers|
  {
    if offers == [] then None
    else if LinkedRequestId(offers[0]) == Some(id) then Some(0)
    else match FirstOfferFor(offers[1..], id)
      case None => None
      case Some(k) => Some(k + 1)
  }

  /**
   * The offer found is linked to the request and no earlier offer is; None
   * means no offer is linked to it.
   */
  lemma {:induction false} FirstOfferForIsFirst(offers: seq<OfferRow>, id: RequestId)
    ensures var k := FirstOfferFor(offers, id);
      && (k.Some? ==> LinkedRequestId(offers[k.value]) == Some(id))
      && (k.Some? ==> forall j :: 0 <= j < k.value ==> LinkedRequestId(offers[j]) != Some(id))
      && (k.None? ==> forall j :: 0 <= j < |offers| ==> LinkedRequestId(offers[j]) != Some(id))
  {
    if offers != [] && LinkedRequestId(offers[0]) != Some(id) {
      FirstOfferForIsFirst(offers[1..], id);
      var k := FirstOfferFor(offers[1..], id);
      forall j | 0 < j < |offers| && (k.None? || j < k.value + 1)
        ensures LinkedRequestId(offers[j]) != Some(id)
      {
        assert offers[j] == offers[1..][j - 1];
      }
    }
  }

  /** `offer?.profiles?.display_name || 'Исполнитель'` */
  function Assignee(offersOnMyRequests: seq<OfferRow>, id: RequestId): string
  {
    match FirstOfferFor(offersOnMyRequests, id)
    case None => "Исполнитель"
    case Some(k) => OrElse(offersOnMyRequests[k].helperName, "Исполнитель")
  }

  /** The green task for one of the caller's own requests. */
  function TaskOfRequest(r: SafeRequest, shown: string, offersOnMyRequests: seq<OfferRow>): Task
  {
    Task(r.id, r.title, shown, Assignee(offersOnMyRequests, r.id), "green", RequestTask)
  }

  /** The blue task for one of the caller's offers (`offer.requests` present). */
  function TaskOfOffer(o: OfferRow, shown: string): Task
    requires o.request.Some?
  {
    Task(o.id, o.request.value.title, shown, OrElse(o.helperName, "Я"), "blue", OfferTask)
  }

  /** Created on `day` within the slot. */
  predicate Scheduled(createdAt: int, day: int, slotHour: Option<nat>, toLocal: int -> LocalTime)
  {
    toLocal(createdAt).day == day && InSlot(toLocal(createdAt).hour, slotHour)
  }

  /** The request tasks of a cell, in input order. */
  function RequestTasks(day: int, slotHour: Option<nat>, shown: string, myRequests: seq<SafeRequest>,
                        offersOnMyRequests: seq<OfferRow>, toLocal: int -> LocalTime): seq<Task>
  {
    if myRequests == [] then []
    else
      RequestTasks(day, slotHour, shown, myRequests[..|myRequests| - 1], offersOnMyRequests, toLocal)
      + RequestTaskIn(day, slotHour, shown, myRequests[|myRequests| - 1], offersOnMyRequests, toLocal)
  }

  /** The task one own request contributes to the cell, if any. */
  function RequestTaskIn(day: int, slotHour: Option<nat>, shown: string, r: SafeRequest,
                         offersOnMyRequests: seq<OfferRow>, toLocal: int -> LocalTime): seq<Task>
  {
    if Scheduled(r.createdAt, day, slotHour, toLocal) then [TaskOfRequest(r, shown, offersOnMyRequests)] else []
  }

  /** The offer tasks of a cell, in input order; offers without a nested request are skipped. */
  function OfferTasks(day: int, slotHour: Option<nat>, shown: string, myOffers: seq<OfferRow>, toLocal: int -> LocalTime): seq<Task>
  {
    if myOffers == [] then []
    else
      OfferTasks(day, slotHour, shown, myOffers[..|myOffers| - 1], toLocal)
      + OfferTaskIn(day, slotHour, shown, myOffers[|myOffers| - 1], toLocal)
  }

  /** The task one offer contributes to the cell, if any. */
  function OfferTaskIn(day: int, slotHour: Option<nat>, shown: string, o: OfferRow, toLocal: int -> LocalTime): seq<Task>
  {
    if o.request.Some? && Scheduled(o.request.value.createdAt, day, slotHour, toLocal)
    then [TaskOfOffer(o, shown)] else []
  }

  /**
   * `getTasksForSlot`: the caller's own requests first, then the caller's
   * offers. The public `requests` list is accepted and not consulted.
   */
  method GetTasksForSlot(day: int, timeSlot: string, requests: seq<SafeRequest>, myOffers: seq<OfferRow>,
                         myRequests: seq<SafeRequest>, offersOnMyRequests: seq<OfferRow>, toLocal: int -> LocalTime)
    returns (tasks: seq<Task>)
    ensures tasks == RequestTasks(day, SlotHour(timeSlot), CellLabel(SlotHour(timeSlot)), myRequests, offersOnMyRequests, toLocal)
                     + OfferTasks(day, SlotHour(timeSlot), CellLabel(SlotHour(timeSlot)), myOffers, toLocal)
  {
    var slotHour := SlotHour(timeSlot);
    var shown := CellLabel(slotHour);
    var requestTasks := CollectRequestTasks(day, slotHour, shown, myRequests, offersOnMyRequests, toLocal);
    var offerTasks := CollectOfferTasks(day, slotHour, shown, myOffers, toLocal);
    tasks := requestTasks + offerTasks;
  }

  /** The first loop of `getTasksForSlot`: one green task per own request in the cell. */
  method CollectRequestTasks(day: int, slotHour: Option<nat>, shown: string, myRequests: seq<SafeRequest>,
                             offersOnMyRequests: seq<OfferRow>, toLocal: int -> LocalTime)
    returns (tasks: seq<Task>)
    ensures tasks == RequestTasks(day, slotHour, shown, myRequests, offersOnMyRequests, toLocal)
  {
    tasks := [];
    var i := 0;
    while i < |myRequests|
      invariant 0 <= i <= |myRequests|
      invariant tasks == RequestTasks(day, slotHour, shown, myRequests[..i], offersOnMyRequests, toLocal)
    {
      var r := myRequests[i];
      RequestTasksStep(day, slotHour, shown, myRequests, i, offersOnMyRequests, toLocal);
      var found: seq<Task> := [];
      if toLocal(r.createdAt).day == day {
        var createdTime := toLocal(r.createdAt).hour;
        if InSlot(createdTime, slotHour) {
          found := [TaskOfRequest(r, shown, offersOnMyRequests)];
        }
      }
      assert found == RequestTaskIn(day, slotHour, shown, r, offersOnMyRequests, toLocal);
      tasks := tasks + found;
      i := i + 1;
    }
    assert myRequests[..i] == myRequests;
  }

  /** One more request adds exactly the task it contributes, after the earlier ones. */
  lemma RequestTasksStep(day: int, slotHour: Option<nat>, shown: string, myRequests: seq<SafeRequest>, i: nat,
                         offersOnMyRequests: seq<OfferRow>, toLocal: int -> LocalTime)
    requires i < |myRequests|
    ensures RequestTasks(day, slotHour, shown, myRequests[..i + 1], offersOnMyRequests, toLocal)
         == RequestTasks(day, slotHour, shown, myRequests[..i], offersOnMyRequests, toLocal)
            + RequestTaskIn(day, slotHour, shown, myRequests[i], offersOnMyRequests, toLocal)
  {
    assert myRequests[..i + 1][..i] == myRequests[..i];
  }

  /** The second loop of `getTasksForSlot`: one blue task per offer whose request is in the cell. */
  method CollectOfferTasks(day: int, slotHour: Option<nat>, shown: string, myOffers: seq<OfferRow>, toLocal: int -> LocalTime)
    returns (tasks: seq<Task>)
    ensures tasks == OfferTasks(day, slotHour, shown, myOffers, toLocal)
  {
    tasks := [];
    var j := 0;
    while j < |myOffers|
      invariant 0 <= j <= |myOffers|
      invariant tasks == OfferTasks(day, slotHour, shown, myOffers[..j], toLocal)
    {
      var offer := myOffers[j];
      OfferTasksStep(day, slotHour, shown, myOffers, j, toLocal);
      var found: seq<Task> := [];
      if offer.request.Some? {
        var request := offer.request.value;
        if toLocal(request.createdAt).day == day {
          var createdTime := toLocal(request.createdAt).hour;
          if InSlot(createdTime, slotHour) {
            found := [TaskOfOffer(offer, shown)];
          }
        }
      }
      assert found == OfferTaskIn(day, slotHour, shown, offer, toLocal);
      tasks := tasks + found;
      j := j + 1;
    }
    assert myOffers[..j] == myOffers;
  }

  /** One more offer adds exactly the task it contributes, after the earlier ones. */
  lemma OfferTasksStep(day: int, slotHour: Option<nat>, shown: string, myOffers: seq<OfferRow>, j: nat, toLocal: int -> LocalTime)
    requires j < |myOffers|
    ensures OfferTasks(day, slotHour, shown, myOffers[..j + 1], toLocal)
         == OfferTasks(day, slotHour, shown, myOffers[..j], toLocal) + OfferTaskIn(day, slotHour, shown, myOffers[j], toLocal)
  {
    assert myOffers[..j + 1][..j] == myOffers[..j];
  }

  /**
   * A request task is in the cell exactly when one of the caller's requests
   * was created on that day within the slot, and it carries that request's
   * id and title and the assignee of its first offer.
   */
  lemma {:induction false} RequestTasksExactly(day: int, slotHour: Option<nat>, shown: string, myRequests: seq<SafeRequest>,
                                               offersOnMyRequests: seq<OfferRow>, toLocal: int -> LocalTime)
    ensures forall i :: 0 <= i < |myRequests| && Scheduled(myRequests[i].createdAt, day, slotHour, toLocal) ==>
      TaskOfRequest(myRequests[i], shown, offersOnMyRequests) in RequestTasks(day, slotHour, shown, myRequests, offersOnMyRequests, toLocal)
    ensures forall t :: t in RequestTasks(day, slotHour, shown, myRequests, offersOnMyRequests, toLocal) ==>
      exists i :: 0 <= i < |myRequests| && Scheduled(myRequests[i].createdAt, day, slotHour, toLocal)
                  && t == TaskOfRequest(myRequests[i], shown, offersOnMyRequests)
  {
    if myRequests != [] {
      var n := |myRequests| - 1;
      var front := myRequests[..n];
      RequestTasksExactly(day, slotHour, shown, front, offersOnMyRequests, toLocal);
      forall t | t in RequestTasks(day, slotHour, shown, myRequests, offersOnMyRequests, toLocal)
        ensures exists i :: 0 <= i < |myRequests| && Scheduled(myRequests[i].createdAt, day, slotHour, toLocal)
                  && t == TaskOfRequest(myRequests[i], shown, offersOnMyRequests)
      {
        if t in RequestTasks(day, slotHour, shown, front, offersOnMyRequests, toLocal) {
          var i :| 0 <= i < |front| && Scheduled(front[i].createdAt, day, slotHour, toLocal)
                  && t == TaskOfRequest(front[i], shown, offersOnMyRequests);
          assert front[i] == myRequests[i];
        } else {
          assert t == TaskOfRequest(myRequests[n], shown, offersOnMyRequests);
        }
      }
      forall i | 0 <= i < |myRequests| && Scheduled(myRequests[i].createdAt, day, slotHour, toLocal)
        ensures TaskOfRequest(myRequests[i], shown, offersOnMyRequests) in RequestTasks(day, slotHour, shown, myRequests, offersOnMyRequests, toLocal)
      {
        if i < n {
          assert front[i] == myRequests[i];
        }
      }
    }
  }

  /**
   * An offer task is in the cell exactly when one of the caller's offers has
   * a nested request created on that day within the slot.
   */
  lemma {:induction false} OfferTasksExactly(day: int, slotHour: Option<nat>, shown: string, myOffers: seq<OfferRow>, toLocal: int -> LocalTime)
    ensures forall i ::
      (0 <= i < |myOffers| && myOffers[i].request.Some?
       && Scheduled(myOffers[i].request.value.createdAt, day, slotHour, toLocal)) ==>
      TaskOfOffer(myOffers[i], shown) in OfferTasks(day, slotHour, shown, myOffers, toLocal)
    ensures forall t :: t in OfferTasks(day, slotHour, shown, myOffers, toLocal) ==>
      exists i :: 0 <= i < |myOffers| && myOffers[i].request.Some?
                  && Scheduled(myOffers[i].request.value.createdAt, day, slotHour, toLocal)
                  && t == TaskOfOffer(myOffers[i], shown)
  {
    if myOffers != [] {
      var n := |myOffers| - 1;
      var front := myOffers[..n];
      OfferTasksExactly(day, slotHour, shown, front, toLocal);
      forall t | t in OfferTasks(day, slotHour, shown, myOffers, toLocal)
        ensures exists i :: 0 <= i < |myOffers| && myOffers[i].request.Some?
                  && Scheduled(myOffers[i].request.value.createdAt, day, slotHour, toLocal)
                  && t == TaskOfOffer(myOffers[i], shown)
      {
        if t in OfferTasks(day, slotHour, shown, front, toLocal) {
          var i :| 0 <= i < |front| && front[i].request.Some?
                  && Scheduled(front[i].request.value.createdAt, day, slotHour, toLocal)
                  && t == TaskOfOffer(front[i], shown);
          assert front[i] == myOffers[i];
        } else {
          assert t == TaskOfOffer(myOffers[n], shown);
        }
      }
      forall i | 0 <= i < |myOffers| && myOffers[i].request.Some?
          && Scheduled(myOffers[i].request.value.createdAt, day, slotHour, toLocal)
        ensures TaskOfOffer(myOffers[i], shown) in OfferTasks(day, slotHour, shown, myOffers, toLocal)
      {
        if i < n {
          assert front[i] == myOffers[i];
        }
      }
    }
  }

  /** Splitting the requests splits their tasks: each group keeps input order. */
  lemma {:induction false} RequestTasksAppend(day: int, slotHour: Option<nat>, shown: string, a: seq<SafeRequest>, b: seq<SafeRequest>,
                                              offersOnMyRequests: seq<OfferRow>, toLocal: int -> LocalTime)
    ensures RequestTasks(day, slotHour, shown, a + b, offersOnMyRequests, toLocal)
         == RequestTasks(day, slotHour, shown, a, offersOnMyRequests, toLocal) + RequestTasks(day, slotHour, shown, b, offersOnMyRequests, toLocal)
  {
    if b == [] {
      assert a + b == a;
    } else {
      var n := |b| - 1;
      var ab := a + b;
      DropLastOfAppend(a, b);
      RequestTasksAppend(day, slotHour, shown, a, b[..n], offersOnMyRequests, toLocal);
    }
  }

  /** Splitting the offers splits their tasks: each group keeps input order. */
  lemma {:induction false} OfferTasksAppend(day: int, slotHour: Option<nat>, shown: string, a: seq<OfferRow>, b: seq<OfferRow>, toLocal: int -> LocalTime)
    ensures OfferTasks(day, slotHour, shown, a + b, toLocal) == OfferTasks(day, slotHour, shown, a, toLocal) + OfferTasks(day, slotHour, shown, b, toLocal)
  {
    if b == [] {
      assert a + b == a;
    } else {
      var n := |b| - 1;
      var ab := a + b;
      DropLastOfAppend(a, b);
      OfferTasksAppend(day, slotHour, shown, a, b[..n], toLocal);
    }
  }

  /**
   * In a cell, every request task comes before every offer task; request
   * tasks are green and offer tasks blue.
   */
  lemma CellGroupsByKind(day: int, timeSlot: string, myOffers: seq<OfferRow>, myRequests: seq<SafeRequest>,
                         offersOnMyRequests: seq<OfferRow>, toLocal: int -> LocalTime)
    ensures var tasks := RequestTasks(day, SlotHour(timeSlot), CellLabel(SlotHour(timeSlot)), myRequests, offersOnMyRequests, toLocal)
                         + OfferTasks(day, SlotHour(timeSlot), CellLabel(SlotHour(timeSlot)), myOffers, toLocal);
      && (forall i, j :: 0 <= i < j < |tasks| && tasks[i].kind == OfferTask ==> tasks[j].kind == OfferTask)
      && (forall t :: t in tasks ==> (t.kind == RequestTask <==> t.color == "green") && (t.kind == OfferTask <==> t.color == "blue"))
  {
    var slotHour := SlotHour(timeSlot);
    var shown := CellLabel(slotHour);
    var rt := RequestTasks(day, slotHour, shown, myRequests, offersOnMyRequests, toLocal);
    var ot := OfferTasks(day, slotHour, shown, myOffers, toLocal);
    RequestTasksAreGreen(day, slotHour, shown, myRequests, offersOnMyRequests, toLocal);
    OfferTasksAreBlue(day, slotHour, shown, myOffers, toLocal);
    var tasks := rt + ot;
    forall i | 0 <= i < |tasks|
      ensures (i < |rt| ==> tasks[i].kind == RequestTask) && (i >= |rt| ==> tasks[i].kind == OfferTask)
    {
      if i >= |rt| {
        assert tasks[i] == ot[i - |rt|];
      }
    }
  }

  /** Every request task is a green request task. */
  lemma {:induction false} RequestTasksAreGreen(day: int, slotHour: Option<nat>, shown: string, myRequests: seq<SafeRequest>,
                                                offersOnMyRequests: seq<OfferRow>, toLocal: int -> LocalTime)
    ensures forall t :: t in RequestTasks(day, slotHour, shown, myRequests, offersOnMyRequests, toLocal) ==>
      t.kind == RequestTask && t.color == "green"
  {
    if myRequests != [] {
      RequestTasksAreGreen(day, slotHour, shown, myRequests[..|myRequests| - 1], offersOnMyRequests, toLocal);
    }
  }

  /** Every offer task is a blue offer task. */
  lemma {:induction false} OfferTasksAreBlue(day: int, slotHour: Option<nat>, shown: string, myOffers: seq<OfferRow>, toLocal: int -> LocalTime)
    ensures forall t :: t in OfferTasks(day, slotHour, shown, myOffers, toLocal) ==> t.kind == OfferTask && t.color == "blue"
  {
    if myOffers != [] {
      OfferTasksAreBlue(day, slotHour, shown, myOffers[..|myOffers| - 1], toLocal);
    }
  }

  /** `getDay()`: 0 for Sunday, 1 for Monday, ..., 6 for Saturday. */
  function Weekday(day: int): (w: nat)
    ensures w < 7
  {
    (day + 4) % 7
  }

  /** `getWeekStart`: step back to Monday, from a Sunday six days back. */
  function WeekStart(day: int): (monday: int)
    ensures Weekday(monday) == 1
    ensures monday <= day < monday + 7
  {
    var w := Weekday(day);
    day - w + (if w == 0 then -6 else 1)
  }

  /** The week start is the only Monday of the seven days ending with `day`. */
  lemma WeekStartIsTheMonday(day: int, monday: int)
    requires Weekday(monday) == 1 && monday <= day < monday + 7
    ensures WeekStart(day) == monday
  {
    var s := WeekStart(day);
    assert (s + 4) % 7 == (monday + 4) % 7;
    assert -7 < s - monday < 7;
  }

  /** Moving a date by a week moves its week start by a week. */
  lemma WeekStartShifts(day: int)
    ensures WeekStart(day + 7) == WeekStart(day) + 7
    ensures WeekStart(day - 7) == WeekStart(day) - 7
  {
    var s := WeekStart(day);
    assert Weekday(s + 7) == Weekday(s);
    assert Weekday(s - 7) == Weekday(s);
    WeekStartIsTheMonday(day + 7, s + 7);
    WeekStartIsTheMonday(day - 7, s - 7);
  }

  /** `weekDays`: the seven days from the week start. */
  method WeekDays(weekStart: int) returns (days: seq<int>)
    ensures |days| == 7
    ensures forall i :: 0 <= i < 7 ==> days[i] == weekStart + i
    ensures Weekday(weekStart) == 1 ==> forall i :: 0 <= i < 7 ==> Weekday(days[i]) == (i + 1) % 7
  {
    days := [];
    for i := 0 to 7
      invariant |days| == i
      invariant forall k :: 0 <= k < i ==> days[k] == weekStart + k
    {
      days := days + [weekStart + i];
    }
  }

  /** The week shown: `currentWeek` is a day of it. */
  class WeekNavigator {
    var currentWeek: int

    constructor (today: int)
      ensures currentWeek == today
    {
      currentWeek := today;
    }

    function WeekShown(): (monday: int)
      reads this
      ensures Weekday(monday) == 1 && monday <= currentWeek < monday + 7
    {
      WeekStart(currentWeek)
    }

    method GoToPreviousWeek()
      modifies this
      ensures currentWeek == old(currentWeek) - 7
      ensures WeekShown() == old(WeekShown()) - 7
    {
      WeekStartShifts(currentWeek);
      currentWeek := currentWeek - 7;
    }

    method GoToNextWeek()
      modifies this
      ensures currentWeek == old(currentWeek) + 7
      ensures WeekShown() == old(WeekShown()) + 7
    {
      WeekStartShifts(currentWeek);
      currentWeek := currentWeek + 7;
    }

    method GoToToday(today: int)
      modifies this
      ensures currentWeek == today
      ensures WeekShown() <= today < WeekShown() + 7
    {
      currentWeek := today;
    }
  }

  /** Going back a week and then forward again shows the same week. */
  lemma BackAndForthShowsSameWeek(day: int)
    ensures WeekStart(day - 7 + 7) == WeekStart(day)
    ensures WeekStart(day - 7) + 7 == WeekStart(day)
  {
    WeekStartShifts(day);
  }
}
