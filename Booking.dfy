/**
 * The booking wizard (src/pages/BookAppointment.tsx): the step machine
 * with its per-step required fields, the slot-loading effect with its
 * selection rules, date and clinic selection, and the choice of the
 * appointment's scheduled time.
 *
 * Dates and slot times are instants on the local time axis of the slot
 * computation; an empty selected time ("") is None.
 */
module Booking {
  import opened Common
  import Slots

  /** The fields of the booking form. */
  datatype Form = Form(name: string, phone: string, email: string, clinic: string, doctor: string, symptoms: string, location: string)

  /** `type === "online" ? 4 : 3`. */
  function StepCount(online: bool): int
  {
    if online then 4 else 3
  }

  /** The guards of handleNext: where the wizard stays when a required field is missing, else step + 1. */
  function NextStep(step: int, online: bool, form: Form, selectedDate: Option<int>, selectedTime: Option<int>): int
  {
    if step == 1 && (form.name == "" || form.phone == "" || form.email == "") then step
    else if step == 2 && (form.clinic == "" || form.symptoms == "") then step
    else if step == 2 && online && form.doctor == "" then step
    else if step == 3 && online && (selectedDate.None? || selectedTime.None?) then step
    else step + 1
  }

  /**
   * Each step holds the wizard back until its fields are filled: step 1
   * needs name, phone and email; step 2 clinic and symptoms, plus a
   * doctor for online visits; online step 3 a date and a time. When
   * nothing is missing the wizard moves forward by exactly one step.
   */
  lemma NextStepRules(step: int, online: bool, form: Form, selectedDate: Option<int>, selectedTime: Option<int>)
    ensures var next := NextStep(step, online, form, selectedDate, selectedTime);
      (next == step || next == step + 1) &&
      (step == 1 ==> (next == step + 1 <==> form.name != "" && form.phone != "" && form.email != "")) &&
      (step == 2 ==> (next == step + 1 <==> form.clinic != "" && form.symptoms != "" && (online ==> form.doctor != ""))) &&
      (step == 3 ==> (next == step + 1 <==> !online || (selectedDate.Some? && selectedTime.Some?)))
  {
  }

  /** The step-3 guard applies to online visits only; hospital and home visits end at step 3 with Submit. */
  lemma OfflineStepThreeFree(form: Form, selectedDate: Option<int>, selectedTime: Option<int>)
    ensures NextStep(3, false, form, selectedDate, selectedTime) == 4
  {
  }

  /**
   * The selection rule of the slot-loading effect as written: a fresh
   * non-empty list selects its first slot only when nothing is selected,
   * so an earlier selection is kept even when the new list lacks it.
   */
  function KeptSelection(selected: Option<int>, slots: seq<int>): Option<int>
  {
    if |slots| > 0 then (if selected.None? then Some(slots[0]) else selected) else None
  }

  /** The corrected rule: keep the selection only while the new list still offers it. */
  function ReconciledSelection(selected: Option<int>, slots: seq<int>): Option<int>
  {
    if |slots| > 0 then (if selected.Some? && selected.value in slots then selected else Some(slots[0])) else None
  }

  /**
   * After loading, the corrected selection is one of the offered slots,
   * there is one exactly when a slot is offered, and a still-offered
   * selection is never replaced.
   */
  lemma ReconciledSelectionOffered(selected: Option<int>, slots: seq<int>)
    ensures ReconciledSelection(selected, slots).Some? <==> slots != []
    ensures ReconciledSelection(selected, slots).Some? ==> ReconciledSelection(selected, slots).value in slots
    ensures selected.Some? && selected.value in slots ==> ReconciledSelection(selected, slots) == selected
    ensures selected.None? && slots != [] ==> ReconciledSelection(selected, slots) == Some(slots[0])
  {
  }

  /** The two rules agree except on a selection the new list does not offer. */
  lemma SelectionRulesAgree(selected: Option<int>, slots: seq<int>)
    requires selected.None? || selected.value in slots || slots == []
    ensures KeptSelection(selected, slots) == ReconciledSelection(selected, slots)
  {
  }

  /**
   * As written: with 09:00 selected among doctor A's slots, switching to a
   * doctor B who offers only 10:00 on the same day keeps 09:00 selected.
   */
  lemma StaleSelectionAfterDoctorChange()
    ensures var nine := 9 * Slots.HourMs;
      var ten := 10 * Slots.HourMs;
      KeptSelection(Some(nine), [ten]) == Some(nine) && nine !in [ten] &&
      ReconciledSelection(Some(nine), [ten]) == Some(ten)
  {
  }

  /** `normalizedDate.setHours(12, 0, 0, 0)`: noon of the picked day. */
  function Noon(date: int): int
  {
    Slots.DayStart(date) + 12 * Slots.HourMs
  }

  /** handleSubmit's scheduled_at: the selected slot for an online booking with date and time, else the submission time. */
  function ScheduledAt(online: bool, selectedDate: Option<int>, selectedTime: Option<int>, now: int): int
  {
    if online && selectedDate.Some? && selectedTime.Some? then selectedTime.value else now
  }

  /** The selected slot is booked exactly for online visits with a date and a time. */
  lemma ScheduledAtChoice(online: bool, selectedDate: Option<int>, selectedTime: Option<int>, now: int)
    ensures online && selectedDate.Some? && selectedTime.Some? ==> ScheduledAt(online, selectedDate, selectedTime, now) == selectedTime.value
    ensures !online || selectedDate.None? || selectedTime.None? ==> ScheduledAt(online, selectedDate, selectedTime, now) == now
  {
  }

  /** The wizard's state. */
  class BookingWizard {
    const online: bool
    var step: int
    var form: Form
    var selectedDate: Option<int>
    var selectedTime: Option<int>
    var availableSlots: seq<int>
    var isLoadingSlots: bool

    /** The wizard stays within its steps, and a selected time is one the list offers. */
    predicate Valid()
      reads this
    {
      1 <= step <= StepCount(online) &&
      (selectedTime.Some? ==> selectedTime.value in availableSlots)
    }

    constructor(online: bool, form: Form)
      ensures Valid()
      ensures this.online == online && step == 1 && this.form == form
      ensures selectedDate.None? && selectedTime.None? && availableSlots == [] && !isLoadingSlots
    {
      this.online := online;
      step := 1;
      this.form := form;
      selectedDate := None;
      selectedTime := None;
      availableSlots := [];
      isLoadingSlots := false;
    }

    /** Next is offered only while step < steps. */
    method HandleNext()
      requires Valid() && step < StepCount(online)
      modifies this
      ensures Valid()
      ensures step == NextStep(old(step), online, form, selectedDate, selectedTime)
      ensures form == old(form) && selectedDate == old(selectedDate) && selectedTime == old(selectedTime)
      ensures availableSlots == old(availableSlots) && isLoadingSlots == old(isLoadingSlots)
    {
      if step == 1 && (form.name == "" || form.phone == "" || form.email == "") {
        return;
      }
      if step == 2 && (form.clinic == "" || form.symptoms == "") {
        return;
      }
      if step == 2 && online && form.doctor == "" {
        return;
      }
      if step == 3 && online && (selectedDate.None? || selectedTime.None?) {
        return;
      }
      step := step + 1;
    }

    /** Back is offered only when step > 1. */
    method Back()
      requires Valid() && step > 1
      modifies this
      ensures Valid()
      ensures step == old(step) - 1
      ensures form == old(form) && selectedDate == old(selectedDate) && selectedTime == old(selectedTime)
      ensures availableSlots == old(availableSlots) && isLoadingSlots == old(isLoadingSlots)
    {
      step := step - 1;
    }

    /** The submit button replaces Next at the last step. */
    predicate SubmitOffered()
      reads this
    {
      step == StepCount(online)
    }

    /** handleDateSelect: clearing the date clears the time; a new date is taken at noon and resets the time. */
    method HandleDateSelect(date: Option<int>)
      requires Valid()
      modifies this
      ensures Valid()
      ensures selectedDate == (if date.Some? then Some(Noon(date.value)) else None)
      ensures selectedTime.None?
      ensures step == old(step) && form == old(form) && availableSlots == old(availableSlots) && isLoadingSlots == old(isLoadingSlots)
    {
      if date.None? {
        selectedDate := None;
        selectedTime := None;
        return;
      }
      selectedDate := Some(Noon(date.value));
      selectedTime := None;
    }

    /** Choosing a clinic resets the doctor. */
    method SelectClinic(clinic: string)
      requires Valid()
      modifies this
      ensures Valid()
      ensures form == old(form).(clinic := clinic, doctor := "")
      ensures step == old(step) && selectedDate == old(selectedDate) && selectedTime == old(selectedTime)
      ensures availableSlots == old(availableSlots) && isLoadingSlots == old(isLoadingSlots)
    {
      form := form.(clinic := clinic, doctor := "");
    }

    /** Choosing a doctor. */
    method SelectDoctor(doctor: string)
      requires Valid()
      modifies this
      ensures Valid()
      ensures form == old(form).(doctor := doctor)
      ensures step == old(step) && selectedDate == old(selectedDate) && selectedTime == old(selectedTime)
      ensures availableSlots == old(availableSlots) && isLoadingSlots == old(isLoadingSlots)
    {
      form := form.(doctor := doctor);
    }

    /** A slot button selects its slot; only listed slots have buttons. */
    method SelectTime(slot: int)
      requires Valid() && slot in availableSlots
      modifies this
      ensures Valid()
      ensures selectedTime == Some(slot)
      ensures step == old(step) && form == old(form) && selectedDate == old(selectedDate)
      ensures availableSlots == old(availableSlots) && isLoadingSlots == old(isLoadingSlots)
    {
      selectedTime := Some(slot);
    }

    /**
     * loadAvailableSlots, with the hook's answer passed in (None when it
     * throws): without a date or a doctor the list and the selection are
     * cleared without a query; an answer replaces the list and the
     * selection follows the corrected rule; a thrown error clears both.
     */
    method LoadAvailableSlots(answer: Option<seq<int>>)
      requires Valid()
      modifies this
      ensures Valid()
      ensures selectedDate.None? || form.doctor == "" ==>
        availableSlots == [] && selectedTime.None? && isLoadingSlots == old(isLoadingSlots)
      ensures selectedDate.Some? && form.doctor != "" && answer.None? ==> availableSlots == [] && selectedTime.None?
      ensures selectedDate.Some? && form.doctor != "" && answer.Some? ==>
        availableSlots == answer.value && selectedTime == ReconciledSelection(old(selectedTime), answer.value)
      ensures selectedDate.Some? && form.doctor != "" ==> !isLoadingSlots
      ensures step == old(step) && form == old(form) && selectedDate == old(selectedDate)
    {
      if selectedDate.None? || form.doctor == "" {
        availableSlots := [];
        selectedTime := None;
        return;
      }
      isLoadingSlots := true;
      if answer.None? {
        availableSlots := [];
        selectedTime := None;
      } else {
        var slots := answer.value;
        availableSlots := slots;
        ReconciledSelectionOffered(selectedTime, slots);
        selectedTime := ReconciledSelection(selectedTime, slots);
      }
      isLoadingSlots := false;
    }
  }
}
