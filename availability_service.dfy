/**
 * The doctor-availability ledger: a table of slots, each open (`is_available`
 * = 1, here `true`) or booked (0, here `false`), guarded by a check that the
 * doctor exists. The SQL storage is modelled as the table itself: every
 * query becomes a pure function over the rows, every INSERT or UPDATE an
 * assignment to the table field.
 */
module AvailabilityService {
  import Split
  import opened Requests

  /** One row of the `doctor_availability` table. */
  datatype Slot = Slot(
    id: int,
    doctorId: int,
    dayOfWeek: string,
    locationId: int,
    startTime: string,
    endTime: string,
    isAvailable: bool)

  /** The failures the service reports instead of a slot. */
  datatype Error =
    | DoctorNotFound(doctorId: int)
    | AvailabilityAlreadyPresent
    | InvalidTimeRange(time: string)
    | SlotNotFound
    | AppointmentAlreadyExists
    | AppointmentNotFound(availabilityId: int)

  datatype Result<T> = Ok(value: T) | Err(error: Error)

  datatype Option<T> = None | Some(value: T)

  /** The start and end of a booking, as parsed from `"start-end"`. */
  datatype TimeRange = TimeRange(startTime: string, endTime: string)

  // ---------------------------------------------------------------------
  // Parsing the time string

  /** Python's `time.split('-')[0]` and `[1]`: the text before the first
      `-` and the text between the first and the second. A string without
      `-` has no second piece; the model reports it as an error. */
  function ParseTimeRange(time: string): (r: Result<TimeRange>)
    ensures r.Err? <==> '-' !in time
    ensures r.Err? ==> r.error == InvalidTimeRange(time)
    ensures r.Ok? ==> '-' !in r.value.startTime && '-' !in r.value.endTime
  {
    var parts := Split.SplitOn(time, '-');
    if |parts| < 2 then Err(InvalidTimeRange(time))
    else Ok(TimeRange(parts[0], parts[1]))
  }

  /** A parsed range is read off the front of the input: the start, a `-`,
      the end, and then either nothing or a further `-`. */
  lemma ParseTimeRangeSound(time: string)
    requires ParseTimeRange(time).Ok?
    ensures var tr := ParseTimeRange(time).value;
            var n := |tr.startTime| + 1 + |tr.endTime|;
            n <= |time| && time[..n] == tr.startTime + "-" + tr.endTime &&
            (n < |time| ==> time[n] == '-')
  {
    var parts := Split.SplitOn(time, '-');
    Split.JoinSplit(time, '-');
    var tail := if |parts| == 2 then [] else ['-'] + Split.Join(parts[2..], '-');
    assert Split.Join(parts[1..], '-') == parts[1] + tail by {
      assert parts[1..][1..] == parts[2..];
    }
    assert time == parts[0] + "-" + parts[1] + tail;
  }

  /** Conversely, every such input parses to exactly its start and end. */
  lemma ParseTimeRangeComplete(a: string, b: string, tail: string)
    requires '-' !in a && '-' !in b
    requires tail == [] || tail[0] == '-'
    ensures ParseTimeRange(a + "-" + b + tail) == Ok(TimeRange(a, b))
  {
    assert a + "-" + b + tail == a + ['-'] + (b + tail);
    Split.SplitOnFirstSeparator(a, '-', b + tail);
    if tail == [] {
      assert b + tail == b;
      Split.SplitOnNoSeparator(b, '-');
    } else {
      assert b + tail == b + ['-'] + tail[1..];
      Split.SplitOnFirstSeparator(b, '-', tail[1..]);
    }
  }

  // ---------------------------------------------------------------------
  // Queries over the table

  /** The duplicate and booking lookups match a row on these four fields. */
  predicate HasKey(s: Slot, doctorId: int, dayOfWeek: string, startTime: string, endTime: string)
  {
    s.doctorId == doctorId && s.dayOfWeek == dayOfWeek &&
    s.startTime == startTime && s.endTime == endTime
  }

  predicate SameKey(s: Slot, t: Slot)
  {
    HasKey(s, t.doctorId, t.dayOfWeek, t.startTime, t.endTime)
  }

  ghost predicate UniqueKeys(table: seq<Slot>)
  {
    forall i, j :: 0 <= i < j < |table| ==> !SameKey(table[i], table[j])
  }

  ghost predicate UniqueIds(table: seq<Slot>)
  {
    forall i, j :: 0 <= i < j < |table| ==> table[i].id != table[j].id
  }

  /** `SELECT ... WHERE doctor_id = ? AND day_of_week = ? AND start_time = ?
      AND end_time = ?`, reduced to the position of the first row returned. */
  function FirstMatch(table: seq<Slot>, doctorId: int, dayOfWeek: string, startTime: string, endTime: string)
    : (r: Option<nat>)
    ensures r.None? <==> forall i :: 0 <= i < |table| ==> !HasKey(table[i], doctorId, dayOfWeek, startTime, endTime)
    ensures r.Some? ==> r.value < |table| && HasKey(table[r.value], doctorId, dayOfWeek, startTime, endTime)
    ensures r.Some? ==> forall i :: 0 <= i < r.value ==> !HasKey(table[i], doctorId, dayOfWeek, startTime, endTime)
  {
    if table == [] then None
    else if HasKey(table[0], doctorId, dayOfWeek, startTime, endTime) then Some(0)
    else
      match FirstMatch(table[1..], doctorId, dayOfWeek, startTime, endTime)
      case None => None
      case Some(k) => Some(k + 1)
  }

  /** `SELECT is_available ... WHERE id = ?`, reduced to the position of the
      first row returned. */
  function FindId(table: seq<Slot>, id: int): (r: Option<nat>)
    ensures r.None? <==> forall i :: 0 <= i < |table| ==> table[i].id != id
    ensures r.Some? ==> r.value < |table| && table[r.value].id == id
    ensures r.Some? ==> forall i :: 0 <= i < r.value ==> table[i].id != id
  {
    if table == [] then None
    else if table[0].id == id then Some(0)
    else
      match FindId(table[1..], id)
      case None => None
      case Some(k) => Some(k + 1)
  }

  /** `doctor_slot`: the rows of one doctor in one state, in table order,
      each as often as the table holds it. */
  function DoctorSlot(table: seq<Slot>, doctorId: int, isAvailable: bool): (r: seq<Slot>)
    ensures forall s :: s in r <==> s in table && s.doctorId == doctorId && s.isAvailable == isAvailable
    ensures forall s :: multiset(r)[s] ==
              (if s.doctorId == doctorId && s.isAvailable == isAvailable then multiset(table)[s] else 0)
    ensures |r| <= |table|
  {
    if table == [] then []
    else
      var rest := DoctorSlot(table[1..], doctorId, isAvailable);
      assert table == [table[0]] + table[1..];
      assert multiset(table) == multiset([table[0]]) + multiset(table[1..]);
      if table[0].doctorId == doctorId && table[0].isAvailable == isAvailable
      then [table[0]] + rest
      else rest
  }

  /** All rows of one doctor, whatever their state, in table order, each as
      often as the table holds it. */
  function DoctorRows(table: seq<Slot>, doctorId: int): (r: seq<Slot>)
    ensures forall s :: s in r <==> s in table && s.doctorId == doctorId
    ensures forall s :: multiset(r)[s] == (if s.doctorId == doctorId then multiset(table)[s] else 0)
  {
    if table == [] then []
    else
      var rest := DoctorRows(table[1..], doctorId);
      assert table == [table[0]] + table[1..];
      assert multiset(table) == multiset([table[0]]) + multiset(table[1..]);
      if table[0].doctorId == doctorId then [table[0]] + rest else rest
  }

  /** The open and the booked rows of a doctor are disjoint and together
      are exactly that doctor's rows, duplicates counted. */
  lemma OpenBookedPartition(table: seq<Slot>, doctorId: int)
    ensures multiset(DoctorSlot(table, doctorId, true)) + multiset(DoctorSlot(table, doctorId, false))
            == multiset(DoctorRows(table, doctorId))
    ensures |DoctorSlot(table, doctorId, true)| + |DoctorSlot(table, doctorId, false)|
            == |DoctorRows(table, doctorId)|
    ensures forall s :: !(s in DoctorSlot(table, doctorId, true) && s in DoctorSlot(table, doctorId, false))
  {
  }

  // ---------------------------------------------------------------------
  // Updates of the table

  /** `UPDATE doctor_availability SET is_available = ? WHERE id = ?`: every
      row carrying `id` gets the flag; no other field and no other row
      changes. */
  function SetFlag(table: seq<Slot>, id: int, flag: bool): (r: seq<Slot>)
    ensures |r| == |table|
    ensures forall i :: 0 <= i < |table| && table[i].id != id ==> r[i] == table[i]
    ensures forall i :: 0 <= i < |table| && table[i].id == id ==> r[i].isAvailable == flag
    ensures forall i :: 0 <= i < |table| ==> r[i].(isAvailable := table[i].isAvailable) == table[i]
  {
    seq(|table|, i requires 0 <= i < |table| =>
      if table[i].id == id then table[i].(isAvailable := flag) else table[i])
  }

  /** With unique ids the UPDATE touches the one row found by `FindId`. */
  lemma SetFlagAtUniqueId(table: seq<Slot>, i: nat, flag: bool)
    requires UniqueIds(table) && i < |table|
    ensures FindId(table, table[i].id) == Some(i)
    ensures SetFlag(table, table[i].id, flag) == table[i := table[i].(isAvailable := flag)]
  {
  }

  /** Changing flags keeps the four-field keys and the ids unique. */
  lemma SetFlagKeepsUnique(table: seq<Slot>, id: int, flag: bool)
    requires UniqueKeys(table) && UniqueIds(table)
    ensures UniqueKeys(SetFlag(table, id, flag)) && UniqueIds(SetFlag(table, id, flag))
  {
  }

  /** Appending a row whose key and id are both new keeps them unique. */
  lemma AppendKeepsUnique(table: seq<Slot>, s: Slot)
    requires UniqueKeys(table) && UniqueIds(table)
    requires FirstMatch(table, s.doctorId, s.dayOfWeek, s.startTime, s.endTime).None?
    requires forall i :: 0 <= i < |table| ==> table[i].id != s.id
    ensures UniqueKeys(table + [s]) && UniqueIds(table + [s])
  {
  }

  /** Booking an open row and then cancelling it by id restores the table. */
  lemma BookThenCancelRestores(table: seq<Slot>, i: nat)
    requires UniqueIds(table) && i < |table| && table[i].isAvailable
    ensures var booked := SetFlag(table, table[i].id, false);
            FindId(booked, table[i].id) == Some(i) && SetFlag(booked, table[i].id, true) == table
  {
  }

  /** Cancelling twice leaves the same table as cancelling once. */
  lemma CancelIdempotent(table: seq<Slot>, id: int)
    ensures SetFlag(SetFlag(table, id, true), id, true) == SetFlag(table, id, true)
    ensures FindId(SetFlag(table, id, true), id) == FindId(table, id)
  {
  }

  // ---------------------------------------------------------------------
  // Cancelling as the source writes it

  /** The rows `SELECT is_available ... WHERE id = ?` returns. */
  function RowsWithId(table: seq<Slot>, id: int): (r: seq<Slot>)
    ensures forall s :: s in r <==> s in table && s.id == id
    ensures r == [] <==> FindId(table, id).None?
  {
    if table == [] then []
    else (if table[0].id == id then [table[0]] else []) + RowsWithId(table[1..], id)
  }

  /** `cancel_appointment` exactly as written: the lookup yields a list of
      rows, possibly empty, and the guard asks whether that list `is None`,
      which it never is. Gives the answer and the new table. */
  function CancelAsWritten(table: seq<Slot>, availabilityId: int): (out: (Result<int>, seq<Slot>))
    ensures out.0 == Ok(availabilityId)
    ensures var m := FindId(table, availabilityId);
            UniqueIds(table) && m.Some? ==> out.1 == table[m.value := table[m.value].(isAvailable := true)]
  {
    var m := FindId(table, availabilityId);
    assert UniqueIds(table) && m.Some? ==>
             SetFlag(table, availabilityId, true) == table[m.value := table[m.value].(isAvailable := true)] by {
      if UniqueIds(table) && m.Some? {
        SetFlagAtUniqueId(table, m.value, true);
      }
    }
    var currentValue: Option<seq<Slot>> := Some(RowsWithId(table, availabilityId));
    if currentValue.None? then (Err(AppointmentNotFound(availabilityId)), table)
    else (Ok(availabilityId), SetFlag(table, availabilityId, true))
  }

  /** The guard is dead: an id no row carries is answered as a successful
      cancel of that id, and the table is left as it was. */
  lemma CancelAsWrittenAcceptsUnknownId(table: seq<Slot>, availabilityId: int)
    requires FindId(table, availabilityId).None?
    ensures CancelAsWritten(table, availabilityId) == (Ok(availabilityId), table)
  {
    assert SetFlag(table, availabilityId, true) == table;
  }

  /** The input of the test at app/tests/availability_tests.py:101-106: on
      an empty table, id 999 is reported cancelled. This is one instance of
      `CancelAsWritten`'s first `ensures` and adds nothing beyond it; it
      names the concrete input of the finding. */
  lemma CancelAsWrittenOnEmptyTable()
    ensures CancelAsWritten([], 999).0 == Ok(999)
  {
  }

  // ---------------------------------------------------------------------
  // The service

  /** `InDatabaseAvailabilityService`: the slot table, the set of doctor ids
      it checks against, and the next row id the storage will assign. */
  class InDatabaseAvailabilityService {
    var doctors: set<int>
    var slots: seq<Slot>
    var nextId: int

    /** Row ids are positive, below the next id, and unique; no two rows
        share the four-field key. */
    ghost predicate Valid()
      reads this
    {
      1 <= nextId &&
      (forall i :: 0 <= i < |slots| ==> 1 <= slots[i].id < nextId) &&
      UniqueIds(slots) && UniqueKeys(slots)
    }

    constructor (doctors: set<int>)
      ensures Valid()
      ensures this.doctors == doctors && slots == [] && nextId == 1
    {
      this.doctors := doctors;
      slots := [];
      nextId := 1;
    }

    /** `doctor_exists`: `SELECT 1 FROM doctors WHERE id = ?`. */
    predicate DoctorExists(doctorId: int)
      reads this
    {
      doctorId in doctors
    }

    /** `get_available_slots`. */
    function GetAvailableSlots(doctorId: int): (r: Result<seq<Slot>>)
      reads this
      ensures r.Err? <==> doctorId !in doctors
      ensures r.Err? ==> r.error == DoctorNotFound(doctorId)
      ensures r.Ok? ==> forall s :: s in r.value <==> s in slots && s.doctorId == doctorId && s.isAvailable
      ensures r.Ok? ==>
                forall s :: multiset(r.value)[s] ==
                  (if s.doctorId == doctorId && s.isAvailable then multiset(slots)[s] else 0)
    {
      if !DoctorExists(doctorId) then Err(DoctorNotFound(doctorId))
      else Ok(DoctorSlot(slots, doctorId, true))
    }

    /** `get_booked_appointments`. */
    function GetBookedAppointments(doctorId: int): (r: Result<seq<Slot>>)
      reads this
      ensures r.Err? <==> doctorId !in doctors
      ensures r.Err? ==> r.error == DoctorNotFound(doctorId)
      ensures r.Ok? ==> forall s :: s in r.value <==> s in slots && s.doctorId == doctorId && !s.isAvailable
      ensures r.Ok? ==>
                forall s :: multiset(r.value)[s] ==
                  (if s.doctorId == doctorId && !s.isAvailable then multiset(slots)[s] else 0)
    {
      if !DoctorExists(doctorId) then Err(DoctorNotFound(doctorId))
      else Ok(DoctorSlot(slots, doctorId, false))
    }

    /** `add_doctor_availability`: insert an open slot unless the doctor is
        unknown or a row already has the same four-field key. */
    method AddDoctorAvailability(req: AvailabilityRequest) returns (r: Result<Slot>)
      requires Valid()
      modifies this
      ensures Valid()
      ensures doctors == old(doctors)
      ensures req.doctorId !in doctors ==>
                r == Err(DoctorNotFound(req.doctorId)) && slots == old(slots) && nextId == old(nextId)
      ensures req.doctorId in doctors &&
              FirstMatch(old(slots), req.doctorId, req.dayOfWeek, req.startTime, req.endTime).Some? ==>
                r == Err(AvailabilityAlreadyPresent) && slots == old(slots) && nextId == old(nextId)
      ensures req.doctorId in doctors &&
              FirstMatch(old(slots), req.doctorId, req.dayOfWeek, req.startTime, req.endTime).None? ==>
                r == Ok(Slot(old(nextId), req.doctorId, req.dayOfWeek, req.locationId,
                             req.startTime, req.endTime, true)) &&
                slots == old(slots) + [r.value] && nextId == old(nextId) + 1 &&
                (forall i :: 0 <= i < |old(slots)| ==> old(slots)[i].id != r.value.id)
    {
      if !DoctorExists(req.doctorId) {
        return Err(DoctorNotFound(req.doctorId));
      }
      var existing := FirstMatch(slots, req.doctorId, req.dayOfWeek, req.startTime, req.endTime);
      if existing.Some? {
        return Err(AvailabilityAlreadyPresent);
      }
      var row := Slot(nextId, req.doctorId, req.dayOfWeek, req.locationId, req.startTime, req.endTime, true);
      AppendKeepsUnique(slots, row);
      slots := slots + [row];
      nextId := nextId + 1;
      r := Ok(row);
    }

    /** `book_appointment`: split the time string, check the doctor, find
        the row with the four-field key and flip it from open to booked. */
    method BookAppointment(req: AppointmentRequest) returns (r: Result<Slot>)
      requires Valid()
      modifies this
      ensures Valid()
      ensures doctors == old(doctors) && nextId == old(nextId)
      ensures ParseTimeRange(req.time).Err? ==>
                r == Err(InvalidTimeRange(req.time)) && slots == old(slots)
      ensures ParseTimeRange(req.time).Ok? && req.doctorId !in doctors ==>
                r == Err(DoctorNotFound(req.doctorId)) && slots == old(slots)
      ensures ParseTimeRange(req.time).Ok? && req.doctorId in doctors ==>
                var tr := ParseTimeRange(req.time).value;
                var m := FirstMatch(old(slots), req.doctorId, req.dayOfWeek, tr.startTime, tr.endTime);
                (m.None? ==> r == Err(SlotNotFound) && slots == old(slots)) &&
                (m.Some? && !old(slots)[m.value].isAvailable ==>
                   r == Err(AppointmentAlreadyExists) && slots == old(slots)) &&
                (m.Some? && old(slots)[m.value].isAvailable ==>
                   r == Ok(Slot(old(slots)[m.value].id, req.doctorId, req.dayOfWeek, req.locationId,
                                tr.startTime, tr.endTime, false)) &&
                   slots == old(slots)[m.value := old(slots)[m.value].(isAvailable := false)])
    {
      var parsed := ParseTimeRange(req.time);
      if parsed.Err? {
        return Err(parsed.error);
      }
      var tr := parsed.value;
      if !DoctorExists(req.doctorId) {
        return Err(DoctorNotFound(req.doctorId));
      }
      var m := FirstMatch(slots, req.doctorId, req.dayOfWeek, tr.startTime, tr.endTime);
      if m.None? {
        return Err(SlotNotFound);
      }
      var row := slots[m.value];
      if !row.isAvailable {
        return Err(AppointmentAlreadyExists);
      }
      SetFlagAtUniqueId(slots, m.value, false);
      SetFlagKeepsUnique(slots, row.id, false);
      slots := SetFlag(slots, row.id, false);
      r := Ok(Slot(row.id, req.doctorId, req.dayOfWeek, req.locationId, tr.startTime, tr.endTime, false));
    }

    /** `cancel_appointment`: mark the row with this id open again,
        whatever its current state. */
    method CancelAppointment(availabilityId: int) returns (r: Result<int>)
      requires Valid()
      modifies this
      ensures Valid()
      ensures doctors == old(doctors) && nextId == old(nextId)
      ensures FindId(old(slots), availabilityId).None? ==>
                r == Err(AppointmentNotFound(availabilityId)) && slots == old(slots)
      ensures FindId(old(slots), availabilityId).Some? ==>
                var i := FindId(old(slots), availabilityId).value;
                r == Ok(availabilityId) && slots == old(slots)[i := old(slots)[i].(isAvailable := true)]
    {
      var current := FindId(slots, availabilityId);
      if current.None? {
        return Err(AppointmentNotFound(availabilityId));
      }
      SetFlagAtUniqueId(slots, current.value, true);
      SetFlagKeepsUnique(slots, availabilityId, true);
      slots := SetFlag(slots, availabilityId, true);
      r := Ok(availabilityId);
    }
  }

  // ---------------------------------------------------------------------
  // Properties of call sequences

  /** A successful booking followed by cancelling the returned id restores
      the table exactly; the cancel returns that id. */
  method BookThenCancel(svc: InDatabaseAvailabilityService, req: AppointmentRequest)
    returns (booked: Result<Slot>, cancelled: Option<Result<int>>)
    requires svc.Valid()
    modifies svc
    ensures svc.Valid() && svc.doctors == old(svc.doctors) && svc.nextId == old(svc.nextId)
    ensures booked.Ok? ==> cancelled == Some(Ok(booked.value.id)) && svc.slots == old(svc.slots)
    ensures booked.Err? ==> cancelled == None && svc.slots == old(svc.slots)
  {
    ghost var before := svc.slots;
    booked := svc.BookAppointment(req);
    if booked.Err? {
      return booked, None;
    }
    var tr := ParseTimeRange(req.time).value;
    var i := FirstMatch(before, req.doctorId, req.dayOfWeek, tr.startTime, tr.endTime).value;
    BookThenCancelRestores(before, i);
    SetFlagAtUniqueId(before, i, false);
    var c := svc.CancelAppointment(booked.value.id);
    cancelled := Some(c);
  }

  /** Booking, cancelling the booking and booking the same request again:
      the second booking gives the same answer as the first, and a
      successful first booking is cancelled by its own id. */
  method BookCancelBook(svc: InDatabaseAvailabilityService, req: AppointmentRequest)
    returns (first: Result<Slot>, cancelled: Option<Result<int>>, second: Result<Slot>)
    requires svc.Valid()
    modifies svc
    ensures svc.Valid() && svc.doctors == old(svc.doctors) && svc.nextId == old(svc.nextId)
    ensures first.Ok? ==> cancelled == Some(Ok(first.value.id))
    ensures second == first
    ensures first.Err? ==> svc.slots == old(svc.slots)
    ensures first.Ok? ==> svc.slots == SetFlag(old(svc.slots), first.value.id, false)
  {
    ghost var before := svc.slots;
    first := svc.BookAppointment(req);
    cancelled := None;
    if first.Ok? {
      var tr := ParseTimeRange(req.time).value;
      var i := FirstMatch(before, req.doctorId, req.dayOfWeek, tr.startTime, tr.endTime).value;
      BookThenCancelRestores(before, i);
      SetFlagAtUniqueId(before, i, false);
      var c := svc.CancelAppointment(first.value.id);
      cancelled := Some(c);
    }
    assert svc.slots == before;
    second := svc.BookAppointment(req);
  }

  /** Cancelling the same id twice answers the same both times and leaves
      the table as one cancel does. */
  method CancelTwice(svc: InDatabaseAvailabilityService, availabilityId: int)
    returns (first: Result<int>, second: Result<int>)
    requires svc.Valid()
    modifies svc
    ensures svc.Valid() && svc.doctors == old(svc.doctors) && svc.nextId == old(svc.nextId)
    ensures second == first
    ensures svc.slots == SetFlag(old(svc.slots), availabilityId, true)
  {
    ghost var before := svc.slots;
    first := svc.CancelAppointment(availabilityId);
    if first.Ok? {
      SetFlagAtUniqueId(before, FindId(before, availabilityId).value, true);
    }
    ghost var once := svc.slots;
    CancelIdempotent(before, availabilityId);
    second := svc.CancelAppointment(availabilityId);
    if second.Ok? {
      SetFlagAtUniqueId(once, FindId(once, availabilityId).value, true);
    }
  }

  /** A table of one row lists that row under its doctor and flag. */
  lemma OneRowListed(s: Slot)
    ensures DoctorSlot([s], s.doctorId, s.isAvailable) == [s]
  {
    assert [s][1..] == [];
  }

  /** Scenario, first part: a fresh ledger that knows doctor `d` accepts a
      slot once, lists it as open and not as booked, and rejects the same
      day and times a second time, even at another location. */
  method ScenarioAdd(d: int, day: string, start: string, end: string)
    returns (svc: InDatabaseAvailabilityService, slot: Slot)
    ensures fresh(svc)
    ensures svc.Valid() && svc.doctors == {d} && svc.slots == [slot] && svc.nextId == 2
    ensures slot == Slot(1, d, day, 0, start, end, true)
  {
    svc := new InDatabaseAvailabilityService({d});
    var added := svc.AddDoctorAvailability(AvailabilityRequest(d, day, 0, start, end));
    slot := Slot(1, d, day, 0, start, end, true);
    assert added == Ok(slot);
    assert [slot][1..] == [];
    assert DoctorSlot(svc.slots, d, true) == [slot] + DoctorSlot([], d, true) == [slot];
    assert svc.DoctorExists(d);
    assert svc.GetAvailableSlots(d) == Ok([slot]);
    assert svc.GetBookedAppointments(d) == Ok([]);
    var again := svc.AddDoctorAvailability(AvailabilityRequest(d, day, 3, start, end));
    assert again == Err(AvailabilityAlreadyPresent);
  }

  /** Scenario, second part: booking `start-end` moves the slot from the
      open list to the booked list. */
  method ScenarioBook(svc: InDatabaseAvailabilityService, slot: Slot)
    requires svc.Valid() && svc.doctors == {slot.doctorId} && svc.slots == [slot] && slot.isAvailable
    requires '-' !in slot.startTime && '-' !in slot.endTime
    modifies svc
    ensures svc.Valid() && svc.doctors == {slot.doctorId} && svc.nextId == old(svc.nextId)
    ensures svc.slots == [slot.(isAvailable := false)]
  {
    var time := slot.startTime + "-" + slot.endTime;
    ParseTimeRangeComplete(slot.startTime, slot.endTime, []);
    assert time + [] == time;
    var booked := svc.BookAppointment(AppointmentRequest(7, slot.doctorId, slot.dayOfWeek, time));
    var taken := slot.(isAvailable := false);
    assert booked == Ok(taken.(locationId := 7));
    assert svc.slots == [taken];
    assert [taken][1..] == [];
    assert DoctorSlot(svc.slots, slot.doctorId, false) == [taken] + DoctorSlot([], slot.doctorId, false) == [taken];
    assert svc.DoctorExists(slot.doctorId);
    assert svc.GetAvailableSlots(slot.doctorId) == Ok([]);
    assert svc.GetBookedAppointments(slot.doctorId) == Ok([taken]);
  }

  /** Scenario, third part: booking the booked slot again, booking for a
      doctor the ledger does not know and booking with no `-` in the time
      all fail and change nothing. */
  method ScenarioBookFailures(svc: InDatabaseAvailabilityService, slot: Slot, other: int)
    requires svc.Valid() && svc.doctors == {slot.doctorId} && svc.slots == [slot] && !slot.isAvailable
    requires '-' !in slot.startTime && '-' !in slot.endTime && other != slot.doctorId
    modifies svc
    ensures svc.Valid() && svc.doctors == old(svc.doctors) && svc.nextId == old(svc.nextId)
    ensures svc.slots == [slot]
  {
    var time := slot.startTime + "-" + slot.endTime;
    ParseTimeRangeComplete(slot.startTime, slot.endTime, []);
    assert time + [] == time;
    var request := AppointmentRequest(slot.locationId, slot.doctorId, slot.dayOfWeek, time);
    var twice := svc.BookAppointment(request);
    assert twice == Err(AppointmentAlreadyExists);
    var unknown := svc.BookAppointment(request.(doctorId := other));
    assert unknown == Err(DoctorNotFound(other));
    var malformed := svc.BookAppointment(request.(time := slot.startTime));
    assert malformed == Err(InvalidTimeRange(slot.startTime));
  }

  /** Scenario, fourth part: cancelling the booked slot lists it as open
      again, an unknown id is not found, and the slot can be booked once
      more. */
  method ScenarioCancel(svc: InDatabaseAvailabilityService, slot: Slot, other: int)
    requires svc.Valid() && svc.slots == [slot] && !slot.isAvailable && slot.doctorId in svc.doctors
    requires '-' !in slot.startTime && '-' !in slot.endTime && other != slot.id
    modifies svc
    ensures svc.Valid() && svc.doctors == old(svc.doctors) && svc.nextId == old(svc.nextId)
    ensures svc.slots == [slot]
  {
    var cancelled := svc.CancelAppointment(slot.id);
    var open := slot.(isAvailable := true);
    assert cancelled == Ok(slot.id) && svc.slots == [open];
    OneRowListed(open);
    assert svc.GetAvailableSlots(slot.doctorId) == Ok([open]);
    var missing := svc.CancelAppointment(other);
    assert missing == Err(AppointmentNotFound(other));
    var time := slot.startTime + "-" + slot.endTime;
    ParseTimeRangeComplete(slot.startTime, slot.endTime, []);
    assert time + [] == time;
    var rebooked := svc.BookAppointment(AppointmentRequest(slot.locationId, slot.doctorId, slot.dayOfWeek, time));
    assert rebooked == Ok(slot);
  }

  /** The whole scenario on one ledger: add a slot, book it, see the
      failing bookings, cancel it and book it again. The ledger it returns
      holds the one slot, booked, under the first id. */
  method Scenario(d: int, day: string, start: string, end: string, other: int)
    returns (svc: InDatabaseAvailabilityService)
    requires '-' !in start && '-' !in end && other != d && other != 1
    ensures fresh(svc)
    ensures svc.Valid() && svc.doctors == {d} && svc.nextId == 2
    ensures svc.slots == [Slot(1, d, day, 0, start, end, false)]
  {
    var slot;
    svc, slot := ScenarioAdd(d, day, start, end);
    ScenarioBook(svc, slot);
    var taken := slot.(isAvailable := false);
    ScenarioBookFailures(svc, taken, other);
    ScenarioCancel(svc, taken, other);
  }
}
