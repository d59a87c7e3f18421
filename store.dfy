/**
 * The appointment store as the program runs it (appointments_manager.py): the
 * appointments file and the entry points that read it and rewrite it. Each
 * entry point loads the whole file, works on that list and, when it books a
 * slot, writes the whole list back.
 */
module AppointmentStore {
  import opened Wrappers
  import opened PyStr
  import opened Appointments

  /**
   * Sequence `appointments[..k]` is the first `k` scoring steps; once they have
   * raised, the whole loop raises with the same exception.
   */
  lemma {:induction false} ScoreAllFailsEarly(appointments: seq<Slot>, k: nat, score: Slot -> Result<int, Failure>)
    requires k <= |appointments| && ScoreAll(appointments[..k], score).Err?
    ensures ScoreAll(appointments, score) == ScoreAll(appointments[..k], score)
    decreases |appointments| - k
  {
    if k < |appointments| {
      var next := appointments[..k + 1];
      assert next[..k] == appointments[..k];
      assert ScoreAll(next, score) == ScoreAll(appointments[..k], score);
      ScoreAllFailsEarly(appointments, k + 1, score);
    } else {
      assert appointments[..k] == appointments;
    }
  }

  /** The scoring loop skips a booked record. */
  lemma ScoreAllSkips(appointments: seq<Slot>, i: nat, score: Slot -> Result<int, Failure>, scored: seq<(int, Slot)>)
    requires i < |appointments| && ScoreAll(appointments[..i], score) == Ok(scored)
    ensures IsBooked(appointments[i]) ==> ScoreAll(appointments[..i + 1], score) == Ok(scored)
  {
    assert appointments[..i + 1][..i] == appointments[..i];
  }

  /** The scoring loop raises on an unbooked record whose scoring raises. */
  lemma ScoreAllRaises(appointments: seq<Slot>, i: nat, score: Slot -> Result<int, Failure>, scored: seq<(int, Slot)>, e: Failure)
    requires i < |appointments| && ScoreAll(appointments[..i], score) == Ok(scored)
    requires !IsBooked(appointments[i]) && score(appointments[i]) == Err(e)
    ensures ScoreAll(appointments, score) == Err(e)
  {
    assert appointments[..i + 1][..i] == appointments[..i];
    ScoreAllFailsEarly(appointments, i + 1, score);
  }

  /** The scoring loop appends the pair of an unbooked record it can score. */
  lemma ScoreAllAppends(appointments: seq<Slot>, i: nat, score: Slot -> Result<int, Failure>, scored: seq<(int, Slot)>, points: int)
    requires i < |appointments| && ScoreAll(appointments[..i], score) == Ok(scored)
    requires !IsBooked(appointments[i]) && score(appointments[i]) == Ok(points)
    ensures ScoreAll(appointments[..i + 1], score) == Ok(scored + [(points, appointments[i])])
  {
    assert appointments[..i + 1][..i] == appointments[..i];
  }

  /**
   * The score of a record with a location and a doctor with a last word is the
   * referral part plus the city part.
   */
  lemma ScoredAs(slot: Slot, requestedCity: string, referralDoctor: string,
                 doctorLastName: string, slotCity: string, hasReferral: bool, points: int)
    requires slot.location.Some? && slotCity == SlotCity(slot.location.value)
    requires slot.doctor.Some? && GetLastWord(slot.doctor.value) == Ok(doctorLastName)
    requires hasReferral == (referralDoctor != [] && Contains(doctorLastName, referralDoctor))
    requires points == (if hasReferral then 100 else 0) + (if requestedCity != [] && requestedCity == slotCity then 1 else 0)
    ensures Scorer(requestedCity, referralDoctor)(slot) == Ok(points)
  {
  }

  /** The appointments file: None while no file exists, else the records it holds. */
  class Store {
    var file: Option<seq<Slot>>

    constructor(file: Option<seq<Slot>>)
      ensures this.file == file
    {
      this.file := file;
    }

    /** `load_appointments`: the records of the file; a missing file reads as no records. */
    function Load(): (appointments: seq<Slot>)
      reads this
      ensures file.None? ==> appointments == []
      ensures file.Some? ==> appointments == file.value
    {
      match file
      case None => []
      case Some(records) => records
    }

    /** `save_appointments`: the file now holds `appointments`, and loading gives them back. */
    method Save(appointments: seq<Slot>)
      modifies this
      ensures file == Some(appointments) && Load() == appointments
    {
      file := Some(appointments);
    }

    /** `get_available_slots`: the unbooked records, in file order. */
    method GetAvailableSlots() returns (r: seq<Slot>)
      ensures r == Available(Load())
      ensures forall s :: s in r <==> s in Load() && !IsBooked(s)
    {
      var appointments := Load();
      r := Available(appointments);
      AvailableMembers(appointments);
    }

    /**
     * `book_slot`: books the first record with id `slotId` for `patientInfo`
     * and rewrites the file. When no record has that id, or the first one is
     * already booked, it answers None and the file is left as it was.
     */
    method BookSlot(slotId: int, patientInfo: PatientInfo) returns (r: Option<Slot>)
      modifies this
      ensures match Book(old(Load()), slotId, patientInfo)
        case Booked(_, slot, slots) => r == Some(slot) && file == Some(slots)
        case _ => r == None && file == old(file)
    {
      var appointments := Load();
      var i := 0;
      while i < |appointments|
        invariant i <= |appointments| && appointments == old(Load()) && file == old(file)
        invariant forall j :: 0 <= j < i ==> appointments[j].id != Some(slotId)
      {
        var appt := appointments[i];
        if appt.id == Some(slotId) {
          if IsBooked(appt) {
            return None;
          }
          appt := appt.(booked := Some(true));
          appt := appt.(patientInfo := Some(patientInfo));
          appointments := appointments[i := appt];
          Save(appointments);
          return Some(appt);
        }
        i := i + 1;
      }
      return None;
    }

    /**
     * `get_best_appointments`: scores every unbooked record against the
     * requested city and the referral's last word, and keeps the five best.
     */
    method GetBestAppointments(city: string, referral: string) returns (r: Result<seq<Slot>, Failure>)
      ensures r == BestAppointments(Load(), city, referral)
    {
      var appointments := GetAvailableSlots();
      var requestedCity := RequestedCity(city);
      var referralLast := GetLastWord(referral);
      if referralLast.Err? {
        return Err(referralLast.error);
      }
      var referralDoctor := referralLast.value;
      ghost var score := Scorer(requestedCity, referralDoctor);
      BestAppointmentsByScoring(Load(), city, referral);
      var scored: seq<(int, Slot)> := [];
      var i := 0;
      while i < |appointments|
        invariant i <= |appointments|
        invariant ScoreAll(appointments[..i], score) == Ok(scored)
      {
        var slot := appointments[i];
        ScoreAllSkips(appointments, i, score, scored);
        if IsBooked(slot) {
          i := i + 1;
          continue;
        }
        if slot.location.None? {
          ScoreAllRaises(appointments, i, score, scored, KeyError);
          return Err(KeyError);
        }
        var points := 0;
        var slotCity := SlotCity(slot.location.value);
        if slot.doctor.None? {
          ScoreAllRaises(appointments, i, score, scored, KeyError);
          return Err(KeyError);
        }
        var doctorLastName := GetLastWord(slot.doctor.value);
        if doctorLastName.Err? {
          ScoreAllRaises(appointments, i, score, scored, doctorLastName.error);
          return Err(doctorLastName.error);
        }
        var hasReferral := referralDoctor != [] && Contains(doctorLastName.value, referralDoctor);
        if hasReferral {
          points := points + 100;
        }
        if requestedCity != [] && requestedCity == slotCity {
          points := points + 1;
        }
        ScoredAs(slot, requestedCity, referralDoctor, doctorLastName.value, slotCity, hasReferral, points);
        ScoreAllAppends(appointments, i, score, scored, points);
        scored := scored + [(points, slot)];
        i := i + 1;
      }
      assert appointments[..i] == appointments;
      r := Ok(Best(scored));
    }
  }
}
