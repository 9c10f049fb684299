/** `app/components/TimeBookingForm.tsx`: two time inputs and an error line.
    Submitting checks the pair and hands one slot to the page. */
module TimeBookingForm {
  import opened Schema

  /** Minutes since midnight: the time of day an `<input type="time">`
      value "HH:MM" denotes. */
  type Minute = m: nat | m < 1440

  /** The value of a time input: empty, or a time of day. */
  datatype TimeInput = Empty | At(time: Minute)

  /** A booked slot; `duration` is in minutes. */
  datatype Slot = Slot(id: nat, startTime: Minute, endTime: Minute, duration: nat)

  const FillBothMessage := "Please fill in both start and end times."
  const EndAfterStartMessage := "End time must be after start time."

  /** A slot that ends after it starts and lasts exactly the difference. */
  predicate ValidSlot(s: Slot) {
    s.startTime < s.endTime && s.duration == s.endTime - s.startTime
  }

  /** The error `handleSubmit` reports for a pair of inputs, if any. The
      emptiness check comes first, so an empty input never reaches the
      ordering check. */
  function Rejection(startTime: TimeInput, endTime: TimeInput): (r: Option<string>)
    ensures r == Some(FillBothMessage) <==> startTime.Empty? || endTime.Empty?
    ensures r == Some(EndAfterStartMessage) <==>
      startTime.At? && endTime.At? && endTime.time <= startTime.time
    ensures r == None <==> startTime.At? && endTime.At? && startTime.time < endTime.time
  {
    if startTime.Empty? || endTime.Empty? then Some(FillBothMessage)
    else if endTime.time <= startTime.time then Some(EndAfterStartMessage)
    else None
  }

  /** The slot a submission emits, if any; `now` stands for `Date.now()`,
      which becomes the slot's id. */
  function Submission(startTime: TimeInput, endTime: TimeInput, now: nat): (r: Option<Slot>)
    ensures r.Some? <==> Rejection(startTime, endTime) == None
    ensures r.Some? ==>
      && ValidSlot(r.value) && r.value.id == now
      && startTime == At(r.value.startTime) && endTime == At(r.value.endTime)
  {
    if Rejection(startTime, endTime).Some? then None
    else Some(Slot(now, startTime.time, endTime.time, endTime.time - startTime.time))
  }

  /** The component's state: the two inputs and the error line. */
  class Form {
    var startTime: TimeInput
    var endTime: TimeInput
    var error: string

    /** The three `useState('')` hooks. */
    constructor ()
      ensures startTime == Empty && endTime == Empty && error == ""
    {
      startTime, endTime, error := Empty, Empty, "";
    }

    /** The start input's `onChange`. */
    method SetStartTime(value: TimeInput)
      modifies this
      ensures startTime == value && endTime == old(endTime) && error == old(error)
    {
      startTime := value;
    }

    /** The end input's `onChange`. */
    method SetEndTime(value: TimeInput)
      modifies this
      ensures endTime == value && startTime == old(startTime) && error == old(error)
    {
      endTime := value;
    }

    /** `handleSubmit`: a rejected pair sets the error and keeps both inputs;
        an accepted pair emits its slot once (the `onAddSlot` call) and
        clears the error and both inputs. */
    method HandleSubmit(now: nat) returns (emitted: Option<Slot>)
      modifies this
      ensures emitted == Submission(old(startTime), old(endTime), now)
      ensures emitted.None? ==>
        && error == Rejection(old(startTime), old(endTime)).value
        && startTime == old(startTime) && endTime == old(endTime)
      ensures emitted.Some? ==> error == "" && startTime == Empty && endTime == Empty
    {
      if startTime.Empty? || endTime.Empty? {
        error := FillBothMessage;
        return None;
      }
      var start := startTime.time;
      var end := endTime.time;
      if end <= start {
        error := EndAfterStartMessage;
        return None;
      }
      var duration := end - start;
      emitted := Some(Slot(now, start, end, duration));
      error := "";
      startTime := Empty;
      endTime := Empty;
    }
  }
}
