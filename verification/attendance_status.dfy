/** The time-window classifier (class AttendanceStatus): a clock text
    "HH:MM:SS" is mapped to a status and a number of minutes late by comparing
    it, as a string, with fixed boundary texts.
 */
module AttendanceStatus {
  import opened Wrappers
  import opened Builtins
  import opened TimeOfDay

  datatype Status = Present | Retard | Absent {

    /** The text the program stores for the status. */
    function Text(): string {
      match this
      case Present => "present"
      case Retard => "retard"
      case Absent => "absent"
    }

    /** Position in the order in which a later arrival moves through the statuses. */
    function Rank(): int {
      match this
      case Present => 0
      case Retard => 1
      case Absent => 2
    }
  }

  /** The pair `(statut, tempRetard)` the classifiers return. */
  datatype Verdict = Verdict(status: Status, lateness: int)

  const MatinDebut: string := "06:30:00"
  const MatinFinRetard: string := "11:00:00"
  const MatinFin: string := "12:00:00"
  const ApremDebut: string := "14:30:00"
  const ApremFinRetard: string := "15:00:00"

  lemma MatinDebutMinutes()
    ensures MinutesFromTime(MatinDebut) == Ok(390)
  {
    BoundaryTexts();
    MinutesOfFormat(Time(6, 30, 0));
  }

  /** `get_status_matin`: before 06:30:00 present, from there until 11:00:00
      late by the minutes elapsed since 06:30, otherwise absent. Only the late
      branch reads the text as a time, so only it can raise. */
  function GetStatusMatin(heure: string): (r: Result<Verdict>)
    ensures r.Ok? && r.value.status != Retard ==> r.value.lateness == 0
    ensures Less(heure, MatinDebut) ==> r == Ok(Verdict(Present, 0))
    ensures !Less(heure, MatinDebut) && !Less(heure, MatinFinRetard) ==> r == Ok(Verdict(Absent, 0))
    ensures !Less(heure, MatinDebut) && Less(heure, MatinFinRetard) ==>
      (r.Ok? <==> MinutesFromTime(heure).Ok?) && (r.Ok? ==> r.value.status == Retard)
    ensures r.Ok? && r.value.status == Retard ==>
      && Less(heure, MatinFinRetard)
      && MinutesFromTime(heure).Ok?
      && r.value.lateness == MinutesFromTime(heure).value - 390
    ensures r.Err? ==> MinutesFromTime(heure).Err?
  {
    LessTotal(heure, MatinDebut);
    if Less(heure, MatinDebut) then
      Ok(Verdict(Present, 0))
    else if LessEq(MatinDebut, heure) && Less(heure, MatinFinRetard) then
      var minutes :- MinutesFromTime(heure);
      MatinDebutMinutes();
      var start := MinutesFromTime(MatinDebut).value;
      Ok(Verdict(Retard, minutes - start))
    else
      Ok(Verdict(Absent, 0))
  }

  /** `get_status_aprem`: before 14:30:00 present, until 15:00:00 late by the
      minutes elapsed since 14:30 (the literal 870), otherwise absent. */
  function GetStatusAprem(heure: string): (r: Result<Verdict>)
    ensures r.Ok? && r.value.status != Retard ==> r.value.lateness == 0
    ensures Less(heure, ApremDebut) ==> r == Ok(Verdict(Present, 0))
    ensures !Less(heure, ApremDebut) && !Less(heure, ApremFinRetard) ==> r == Ok(Verdict(Absent, 0))
    ensures !Less(heure, ApremDebut) && Less(heure, ApremFinRetard) ==>
      (r.Ok? <==> MinutesFromTime(heure).Ok?) && (r.Ok? ==> r.value.status == Retard)
    ensures r.Ok? && r.value.status == Retard ==>
      && Less(heure, ApremFinRetard)
      && MinutesFromTime(heure).Ok?
      && r.value.lateness == MinutesFromTime(heure).value - 870
    ensures r.Err? ==> MinutesFromTime(heure).Err?
  {
    LessTotal(heure, ApremDebut);
    if Less(heure, ApremDebut) then
      Ok(Verdict(Present, 0))
    else if LessEq(ApremDebut, heure) && Less(heure, ApremFinRetard) then
      var minutes :- MinutesFromTime(heure);
      Ok(Verdict(Retard, minutes - 870))
    else
      Ok(Verdict(Absent, 0))
  }

  // ---------------------------------------------------------------------------
  // Reference schedules over the time itself
  // ---------------------------------------------------------------------------

  /** The morning schedule read as a function of the time of day. */
  function MorningSchedule(t: Time): (v: Verdict)
    requires t.Valid()
    ensures v.status == Retard ==> 0 <= v.lateness <= 269
    ensures v.status != Retard ==> v.lateness == 0
  {
    if t.Seconds() < Time(6, 30, 0).Seconds() then Verdict(Present, 0)
    else if t.Seconds() < Time(11, 0, 0).Seconds() then Verdict(Retard, t.Minutes() - 390)
    else Verdict(Absent, 0)
  }

  /** The afternoon schedule read as a function of the time of day. */
  function AfternoonSchedule(t: Time): (v: Verdict)
    requires t.Valid()
    ensures v.status == Retard ==> 0 <= v.lateness <= 29
    ensures v.status != Retard ==> v.lateness == 0
  {
    if t.Seconds() < Time(14, 30, 0).Seconds() then Verdict(Present, 0)
    else if t.Seconds() < Time(15, 0, 0).Seconds() then Verdict(Retard, t.Minutes() - 870)
    else Verdict(Absent, 0)
  }

  lemma BoundaryTexts()
    ensures MatinDebut == Format(Time(6, 30, 0))
    ensures MatinFinRetard == Format(Time(11, 0, 0))
    ensures ApremDebut == Format(Time(14, 30, 0))
    ensures ApremFinRetard == Format(Time(15, 0, 0))
  {
  }

  /** On every well-formed time the string-comparing classifier agrees with
      the morning schedule: it never raises, and the lateness of a late
      arrival is between 0 and 269 minutes. */
  lemma {:induction false} StatusMatinFollowsSchedule(t: Time)
    requires t.Valid()
    ensures GetStatusMatin(Format(t)) == Ok(MorningSchedule(t))
  {
    var text := Format(t);
    assert Less(text, MatinDebut) <==> t.Seconds() < Time(6, 30, 0).Seconds() by {
      BoundaryTexts();
      FormatOrder(t, Time(6, 30, 0));
    }
    assert Less(text, MatinFinRetard) <==> t.Seconds() < Time(11, 0, 0).Seconds() by {
      BoundaryTexts();
      FormatOrder(t, Time(11, 0, 0));
    }
    MinutesOfFormat(t);
    MorningScheduleCases(t);
    MatinByPosition(text, t.Seconds(), t.Minutes(), Ok(MorningSchedule(t)));
  }

  /** The morning classifier on a text whose position against the two
      boundaries and whose minute count are known. */
  lemma MatinByPosition(text: string, seconds: int, minutes: int, v: Result<Verdict>)
    requires MinutesFromTime(text) == Ok(minutes)
    requires Less(text, MatinDebut) <==> seconds < Time(6, 30, 0).Seconds()
    requires Less(text, MatinFinRetard) <==> seconds < Time(11, 0, 0).Seconds()
    requires v ==
      if seconds < Time(6, 30, 0).Seconds() then Ok(Verdict(Present, 0))
      else if seconds < Time(11, 0, 0).Seconds() then Ok(Verdict(Retard, minutes - 390))
      else Ok(Verdict(Absent, 0))
    ensures GetStatusMatin(text) == v
  {
    var r := GetStatusMatin(text);
    if seconds < Time(6, 30, 0).Seconds() {
      assert Less(text, MatinDebut);
    } else if seconds < Time(11, 0, 0).Seconds() {
      assert !Less(text, MatinDebut) && Less(text, MatinFinRetard);
      assert r.Ok? && r.value.status == Retard;
      assert r.value.lateness == minutes - 390;
    } else {
      assert !Less(text, MatinDebut) && !Less(text, MatinFinRetard);
    }
  }

  /** The morning schedule written as a decision list on the clock
      position and the minute count. */
  lemma MorningScheduleCases(t: Time)
    requires t.Valid()
    ensures Ok(MorningSchedule(t)) ==
      if t.Seconds() < Time(6, 30, 0).Seconds() then Ok(Verdict(Present, 0))
      else if t.Seconds() < Time(11, 0, 0).Seconds() then Ok(Verdict(Retard, t.Minutes() - 390))
      else Ok(Verdict(Absent, 0))
  {
  }

  /** On every well-formed time the afternoon classifier agrees with the
      afternoon schedule; a late arrival is between 0 and 29 minutes late. */
  lemma {:induction false} StatusApremFollowsSchedule(t: Time)
    requires t.Valid()
    ensures GetStatusAprem(Format(t)) == Ok(AfternoonSchedule(t))
  {
    var text := Format(t);
    assert Less(text, ApremDebut) <==> t.Seconds() < Time(14, 30, 0).Seconds() by {
      BoundaryTexts();
      FormatOrder(t, Time(14, 30, 0));
    }
    assert Less(text, ApremFinRetard) <==> t.Seconds() < Time(15, 0, 0).Seconds() by {
      BoundaryTexts();
      FormatOrder(t, Time(15, 0, 0));
    }
    MinutesOfFormat(t);
    AfternoonScheduleCases(t);
    ApremByPosition(text, t.Seconds(), t.Minutes(), Ok(AfternoonSchedule(t)));
  }

  /** The afternoon classifier on a text whose position against the two
      boundaries and whose minute count are known. */
  lemma ApremByPosition(text: string, seconds: int, minutes: int, v: Result<Verdict>)
    requires MinutesFromTime(text) == Ok(minutes)
    requires Less(text, ApremDebut) <==> seconds < Time(14, 30, 0).Seconds()
    requires Less(text, ApremFinRetard) <==> seconds < Time(15, 0, 0).Seconds()
    requires v ==
      if seconds < Time(14, 30, 0).Seconds() then Ok(Verdict(Present, 0))
      else if seconds < Time(15, 0, 0).Seconds() then Ok(Verdict(Retard, minutes - 870))
      else Ok(Verdict(Absent, 0))
    ensures GetStatusAprem(text) == v
  {
    var r := GetStatusAprem(text);
    if seconds < Time(14, 30, 0).Seconds() {
      assert Less(text, ApremDebut);
    } else if seconds < Time(15, 0, 0).Seconds() {
      assert !Less(text, ApremDebut) && Less(text, ApremFinRetard);
      assert r.Ok? && r.value.status == Retard;
      assert r.value.lateness == minutes - 870;
    } else {
      assert !Less(text, ApremDebut) && !Less(text, ApremFinRetard);
    }
  }

  /** The afternoon schedule written as a decision list on the clock
      position and the minute count. */
  lemma AfternoonScheduleCases(t: Time)
    requires t.Valid()
    ensures Ok(AfternoonSchedule(t)) ==
      if t.Seconds() < Time(14, 30, 0).Seconds() then Ok(Verdict(Present, 0))
      else if t.Seconds() < Time(15, 0, 0).Seconds() then Ok(Verdict(Retard, t.Minutes() - 870))
      else Ok(Verdict(Absent, 0))
  {
  }

  /** A later arrival never gets a better status, and within the late window
      never fewer minutes of lateness. */
  lemma {:induction false} StatusMonotone(a: Time, b: Time)
    requires a.Valid() && b.Valid() && a.Seconds() <= b.Seconds()
    ensures var (va, vb) := (GetStatusMatin(Format(a)), GetStatusMatin(Format(b)));
      && va.Ok? && vb.Ok?
      && va.value.status.Rank() <= vb.value.status.Rank()
      && (va.value.status == Retard == vb.value.status ==> va.value.lateness <= vb.value.lateness)
    ensures var (va, vb) := (GetStatusAprem(Format(a)), GetStatusAprem(Format(b)));
      && va.Ok? && vb.Ok?
      && va.value.status.Rank() <= vb.value.status.Rank()
      && (va.value.status == Retard == vb.value.status ==> va.value.lateness <= vb.value.lateness)
  {
    StatusMatinFollowsSchedule(a);
    StatusMatinFollowsSchedule(b);
    StatusApremFollowsSchedule(a);
    StatusApremFollowsSchedule(b);
    SchedulesMonotone(a, b);
  }

  /** Both reference schedules are monotone in the time of day. */
  lemma SchedulesMonotone(a: Time, b: Time)
    requires a.Valid() && b.Valid() && a.Seconds() <= b.Seconds()
    ensures var (va, vb) := (MorningSchedule(a), MorningSchedule(b));
      va.status.Rank() <= vb.status.Rank() && (va.status == Retard == vb.status ==> va.lateness <= vb.lateness)
    ensures var (va, vb) := (AfternoonSchedule(a), AfternoonSchedule(b));
      va.status.Rank() <= vb.status.Rank() && (va.status == Retard == vb.status ==> va.lateness <= vb.lateness)
  {
    assert a.Minutes() <= b.Minutes();
  }

  /** Every boundary falls on a whole minute, so the seconds never matter:
      two times in the same minute are classified alike. */
  lemma {:induction false} SecondsIgnored(a: Time, b: Time)
    requires a.Valid() && b.Valid() && a.h == b.h && a.m == b.m
    ensures GetStatusMatin(Format(a)) == GetStatusMatin(Format(b))
    ensures GetStatusAprem(Format(a)) == GetStatusAprem(Format(b))
  {
    assert MorningSchedule(a) == MorningSchedule(b);
    assert AfternoonSchedule(a) == AfternoonSchedule(b);
    StatusMatinFollowsSchedule(a);
    StatusMatinFollowsSchedule(b);
    StatusApremFollowsSchedule(a);
    StatusApremFollowsSchedule(b);
  }

  /** The forced end-of-day time 23:00:00 is always absent with no lateness. */
  lemma ForcedTimeIsAbsent()
    ensures GetStatusMatin("23:00:00") == Ok(Verdict(Absent, 0))
    ensures GetStatusAprem("23:00:00") == Ok(Verdict(Absent, 0))
  {
    assert Format(Time(23, 0, 0)) == "23:00:00";
    StatusMatinFollowsSchedule(Time(23, 0, 0));
    StatusApremFollowsSchedule(Time(23, 0, 0));
  }

  /** The edges of the morning windows, one second apart. */
  lemma MorningEdges()
    ensures GetStatusMatin("06:29:59") == Ok(Verdict(Present, 0))
    ensures GetStatusMatin("06:30:00") == Ok(Verdict(Retard, 0))
    ensures GetStatusMatin("10:59:59") == Ok(Verdict(Retard, 269))
    ensures GetStatusMatin("11:00:00") == Ok(Verdict(Absent, 0))
  {
    EdgeTexts();
    EdgeAt(Time(6, 29, 59), "06:29:59");
    EdgeAt(Time(6, 30, 0), "06:30:00");
    EdgeAt(Time(10, 59, 59), "10:59:59");
    EdgeAt(Time(11, 0, 0), "11:00:00");
  }

  lemma EdgeTexts()
    ensures Format(Time(6, 29, 59)) == "06:29:59"
    ensures Format(Time(6, 30, 0)) == "06:30:00"
    ensures Format(Time(10, 59, 59)) == "10:59:59"
    ensures Format(Time(11, 0, 0)) == "11:00:00"
  {
  }

  lemma EdgeAt(t: Time, text: string)
    requires t.Valid() && Format(t) == text
    ensures GetStatusMatin(text) == Ok(MorningSchedule(t))
  {
    StatusMatinFollowsSchedule(t);
  }
}
