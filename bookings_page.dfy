/** `app/bookings/page.tsx`: the list of booked slots, fed by the form. */
module BookingsPage {
  import opened Schema
  import opened TimeBookingForm

  /** `useState([])`: no slot is booked yet. */
  const InitialSlots: seq<Slot> := []

  /** `handleAddSlot`: a new array with the slot after every existing one. */
  function AddSlot(timeSlots: seq<Slot>, slot: Slot): (r: seq<Slot>)
    ensures |r| == |timeSlots| + 1
    ensures r[..|timeSlots|] == timeSlots && r[|timeSlots|] == slot
  {
    timeSlots + [slot]
  }

  /** The list after the form has emitted `emitted`, one `handleAddSlot` per slot. */
  function AddAll(timeSlots: seq<Slot>, emitted: seq<Slot>): seq<Slot>
    decreases |emitted|
  {
    if emitted == [] then timeSlots
    else AddAll(AddSlot(timeSlots, emitted[0]), emitted[1..])
  }

  /** Adding slots one by one keeps every earlier slot in place and appends
      the new ones in the order they were emitted. */
  lemma {:induction false} AddAllAppends(timeSlots: seq<Slot>, emitted: seq<Slot>)
    ensures AddAll(timeSlots, emitted) == timeSlots + emitted
    decreases |emitted|
  {
    if emitted != [] {
      AddAllAppends(AddSlot(timeSlots, emitted[0]), emitted[1..]);
      assert timeSlots + [emitted[0]] + emitted[1..] == timeSlots + emitted;
    }
  }

  /** Starting from the empty list, the page shows exactly the emitted slots,
      in emission order. */
  lemma PageShowsEmissionHistory(emitted: seq<Slot>)
    ensures AddAll(InitialSlots, emitted) == emitted
  {
    AddAllAppends(InitialSlots, emitted);
  }

  /** Slots come only from the form, so every listed slot ends after it
      starts and carries its own length as duration. */
  lemma {:induction false} ListedSlotsAreValid(timeSlots: seq<Slot>, emitted: seq<Slot>)
    requires forall s :: s in timeSlots ==> ValidSlot(s)
    requires forall k :: 0 <= k < |emitted| ==>
      exists st: TimeInput, et: TimeInput, now: nat :: Submission(st, et, now) == Some(emitted[k])
    ensures forall s :: s in AddAll(timeSlots, emitted) ==> ValidSlot(s)
  {
    AddAllAppends(timeSlots, emitted);
    forall s | s in timeSlots + emitted ensures ValidSlot(s) {
      if s !in timeSlots {
        var k :| 0 <= k < |emitted| && emitted[k] == s;
        var st: TimeInput, et: TimeInput, now: nat :| Submission(st, et, now) == Some(emitted[k]);
      }
    }
  }
}
