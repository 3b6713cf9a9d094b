/** The earlier single-script version of the pipeline (Main.py): its own
    classifiers, keyed on an 08:05 start, the deduplication of the rows built
    from the dictionary of present students, and the merge of those rows into
    the spreadsheet already on disk.

    The wall clock ("%H:%M:%S" text) is the parameter `now`; the spreadsheet
    is the list of its rows, absent before the first save.
 */
module LegacyMain {
  import opened Wrappers
  import opened Builtins
  import opened TimeOfDay
  import opened AttendanceStatus
  import Students

  const LegacyDebut: string := "08:05:00"

  lemma LegacyTexts()
    ensures LegacyDebut == Format(Time(8, 5, 0))
    ensures MatinFin == Format(Time(12, 0, 0))
  {
  }

  // ---------------------------------------------------------------------------
  // Classifiers
  // ---------------------------------------------------------------------------

  /** `statutEtudiant(heure)` with the clock as `now`. The minutes are read
      first, so a malformed text raises whatever the branch. Up to noon the
      08:05 table applies and a time at or after 12:00:00 matches no branch:
      `statut` is then unbound and the return raises. After noon it is the
      afternoon table of the newer classifier. */
  function StatutEtudiant(heure: string, now: string): (r: Result<Verdict>)
    ensures MinutesFromTime(heure).Err? ==> r == Err(MinutesFromTime(heure).error)
    ensures r.Ok? && r.value.status != Retard ==> r.value.lateness == 0
    ensures MinutesFromTime(heure).Ok? && LessEq(now, MatinFin) ==>
      var h := MinutesFromTime(heure).value;
      && (Less(heure, LegacyDebut) ==> r == Ok(Verdict(Present, 0)))
      && (!Less(heure, LegacyDebut) && Less(heure, MatinFinRetard) ==> r == Ok(Verdict(Retard, h - 485)))
      && (!Less(heure, LegacyDebut) && !Less(heure, MatinFinRetard) && Less(heure, MatinFin) ==>
            r == Ok(Verdict(Absent, 0)))
      && (!Less(heure, LegacyDebut) && !Less(heure, MatinFinRetard) && !Less(heure, MatinFin) ==>
            r == Err(UnboundLocalError))
    ensures MinutesFromTime(heure).Ok? && !LessEq(now, MatinFin) ==>
      var h := MinutesFromTime(heure).value;
      && (Less(heure, ApremDebut) ==> r == Ok(Verdict(Present, 0)))
      && (!Less(heure, ApremDebut) && Less(heure, ApremFinRetard) ==> r == Ok(Verdict(Retard, h - 870)))
      && (!Less(heure, ApremDebut) && !Less(heure, ApremFinRetard) ==> r == Ok(Verdict(Absent, 0)))
  {
    VerdictFrom(heure, now, MinutesFromTime(heure))
  }

  /** `statutEtudiant` once the minutes have been read into `m`. */
  function VerdictFrom(heure: string, now: string, m: Result<int>): (r: Result<Verdict>)
    ensures m.Err? ==> r == Err(m.error)
    ensures r.Ok? && r.value.status != Retard ==> r.value.lateness == 0
    ensures m.Ok? && LessEq(now, MatinFin) ==> r == MorningBranch(heure, m.value)
    ensures m.Ok? && !LessEq(now, MatinFin) ==> r == AfternoonBranch(heure, m.value)
  {
    var hMinute :- m;
    if LessEq(now, MatinFin) then MorningBranch(heure, hMinute) else AfternoonBranch(heure, hMinute)
  }

  /** The branch of `statutEtudiant` taken up to noon, `h` being the minutes
      already read from `heure`. */
  function MorningBranch(heure: string, h: int): (r: Result<Verdict>)
    ensures Less(heure, LegacyDebut) ==> r == Ok(Verdict(Present, 0))
    ensures !Less(heure, LegacyDebut) && Less(heure, MatinFinRetard) ==> r == Ok(Verdict(Retard, h - 485))
    ensures !Less(heure, LegacyDebut) && !Less(heure, MatinFinRetard) && Less(heure, MatinFin) ==>
      r == Ok(Verdict(Absent, 0))
    ensures !Less(heure, LegacyDebut) && !Less(heure, MatinFinRetard) && !Less(heure, MatinFin) ==>
      r == Err(UnboundLocalError)
  {
    LessTotal(heure, LegacyDebut);
    LessTotal(heure, MatinFinRetard);
    if Less(heure, LegacyDebut) then Ok(Verdict(Present, 0))
    else if LessEq(LegacyDebut, heure) && Less(heure, MatinFinRetard) then Ok(Verdict(Retard, h - 485))
    else if LessEq(MatinFinRetard, heure) && Less(heure, MatinFin) then Ok(Verdict(Absent, 0))
    else Err(UnboundLocalError)
  }

  /** The branch of `statutEtudiant` taken after noon. */
  function AfternoonBranch(heure: string, h: int): (r: Result<Verdict>)
    ensures Less(heure, ApremDebut) ==> r == Ok(Verdict(Present, 0))
    ensures !Less(heure, ApremDebut) && Less(heure, ApremFinRetard) ==> r == Ok(Verdict(Retard, h - 870))
    ensures !Less(heure, ApremDebut) && !Less(heure, ApremFinRetard) ==> r == Ok(Verdict(Absent, 0))
  {
    LessTotal(heure, ApremDebut);
    if Less(heure, ApremDebut) then Ok(Verdict(Present, 0))
    else if LessEq(ApremDebut, heure) && Less(heure, ApremFinRetard) then Ok(Verdict(Retard, h - 870))
    else Ok(Verdict(Absent, 0))
  }

  /** After noon `statutEtudiant` and the newer `get_status_aprem` agree on
      every text whose minutes can be read. */
  lemma AfternoonAgrees(heure: string, now: string)
    requires MinutesFromTime(heure).Ok? && !LessEq(now, MatinFin)
    ensures StatutEtudiant(heure, now) == GetStatusAprem(heure)
  {
    LessTotal(heure, ApremDebut);
  }

  /** The triple `(statut, statut1, tempRetard)` of `statutEtudiant1`. */
  datatype Verdict1 = Verdict1(statut: Status, statut1: Option<Status>, lateness: int)

  /** `statutEtudiant1(heure)`, used for the rows built after noon: the
      morning course is always absent; the afternoon one is unset before
      11:00:00, present until 14:30:00, late until 15:00:00, then absent. The
      lateness is counted from 08:05 in the morning late window and from
      14:30 in the afternoon one. */
  function StatutEtudiant1(heure: string): (r: Result<Verdict1>)
    ensures r.Err? <==> MinutesFromTime(heure).Err?
    ensures r.Ok? ==> r.value.statut == Absent
    ensures r.Ok? ==> r == Branch1(heure, MinutesFromTime(heure).value)
  {
    var hMinute :- MinutesFromTime(heure);
    Branch1(heure, hMinute)
  }

  /** The decision list of `statutEtudiant1`, `h` being the minutes already
      read from `heure`. */
  function Branch1(heure: string, h: int): (r: Result<Verdict1>)
    ensures Less(heure, LegacyDebut) ==> r == Ok(Verdict1(Absent, None, 0))
    ensures !Less(heure, LegacyDebut) && Less(heure, MatinFinRetard) ==>
      r == Ok(Verdict1(Absent, None, h - 485))
    ensures !Less(heure, LegacyDebut) && !Less(heure, MatinFinRetard) && Less(heure, ApremDebut) ==>
      r == Ok(Verdict1(Absent, Some(Present), 0))
    ensures (!Less(heure, LegacyDebut) && !Less(heure, MatinFinRetard) && !Less(heure, ApremDebut)
             && Less(heure, ApremFinRetard)) ==>
      r == Ok(Verdict1(Absent, Some(Retard), h - 870))
    ensures (!Less(heure, LegacyDebut) && !Less(heure, MatinFinRetard) && !Less(heure, ApremDebut)
             && !Less(heure, ApremFinRetard)) ==>
      r == Ok(Verdict1(Absent, Some(Absent), 0))
  {
    LessTotal(heure, LegacyDebut);
    LessTotal(heure, MatinFinRetard);
    LessTotal(heure, ApremDebut);
    if Less(heure, LegacyDebut) then Ok(Verdict1(Absent, None, 0))
    else if LessEq(LegacyDebut, heure) && Less(heure, MatinFinRetard) then Ok(Verdict1(Absent, None, h - 485))
    else if LessEq(MatinFinRetard, heure) && Less(heure, ApremDebut) then Ok(Verdict1(Absent, Some(Present), 0))
    else if LessEq(ApremDebut, heure) && Less(heure, ApremFinRetard) then Ok(Verdict1(Absent, Some(Retard), h - 870))
    else Ok(Verdict1(Absent, Some(Absent), 0))
  }

  /** The legacy morning table read as a function of the time of day: no
      status at all from noon on. */
  function LegacyMorningSchedule(t: Time): (v: Result<Verdict>)
    requires t.Valid()
    ensures v.Ok? && v.value.status == Retard ==> 0 <= v.value.lateness <= 174
    ensures v.Ok? && v.value.status != Retard ==> v.value.lateness == 0
    ensures v.Err? <==> t.Seconds() >= Time(12, 0, 0).Seconds()
  {
    if t.Seconds() < Time(8, 5, 0).Seconds() then Ok(Verdict(Present, 0))
    else if t.Seconds() < Time(11, 0, 0).Seconds() then Ok(Verdict(Retard, t.Minutes() - 485))
    else if t.Seconds() < Time(12, 0, 0).Seconds() then Ok(Verdict(Absent, 0))
    else Err(UnboundLocalError)
  }

  /** On every well-formed time, `statutEtudiant` follows the legacy morning
      table up to noon and the afternoon table after it. */
  lemma StatutFollowsSchedule(t: Time, now: string)
    requires t.Valid()
    ensures StatutEtudiant(Format(t), now) ==
      if LessEq(now, MatinFin) then LegacyMorningSchedule(t) else Ok(AfternoonSchedule(t))
  {
    MinutesOfFormat(t);
    MorningBranchFollows(t);
    AfternoonBranchFollows(t);
  }

  lemma {:induction false} MorningBranchFollows(t: Time)
    requires t.Valid()
    ensures MorningBranch(Format(t), t.Minutes()) == LegacyMorningSchedule(t)
  {
    var text := Format(t);
    assert Less(text, LegacyDebut) <==> t.Seconds() < Time(8, 5, 0).Seconds() by {
      LegacyTexts();
      FormatOrder(t, Time(8, 5, 0));
    }
    assert Less(text, MatinFinRetard) <==> t.Seconds() < Time(11, 0, 0).Seconds() by {
      BoundaryTexts();
      FormatOrder(t, Time(11, 0, 0));
    }
    assert Less(text, MatinFin) <==> t.Seconds() < Time(12, 0, 0).Seconds() by {
      LegacyTexts();
      FormatOrder(t, Time(12, 0, 0));
    }
    MorningByPosition(text, t);
  }

  /** The legacy morning branch on a text whose position against the three
      boundaries is known. */
  lemma MorningByPosition(text: string, t: Time)
    requires t.Valid()
    requires Less(text, LegacyDebut) <==> t.Seconds() < Time(8, 5, 0).Seconds()
    requires Less(text, MatinFinRetard) <==> t.Seconds() < Time(11, 0, 0).Seconds()
    requires Less(text, MatinFin) <==> t.Seconds() < Time(12, 0, 0).Seconds()
    ensures MorningBranch(text, t.Minutes()) == LegacyMorningSchedule(t)
  {
    if t.Seconds() < Time(8, 5, 0).Seconds() {
      assert Less(text, LegacyDebut);
    } else if t.Seconds() < Time(11, 0, 0).Seconds() {
      assert !Less(text, LegacyDebut) && Less(text, MatinFinRetard);
    } else if t.Seconds() < Time(12, 0, 0).Seconds() {
      assert !Less(text, LegacyDebut) && !Less(text, MatinFinRetard) && Less(text, MatinFin);
    } else {
      assert !Less(text, LegacyDebut) && !Less(text, MatinFinRetard) && !Less(text, MatinFin);
    }
  }

  lemma {:induction false} AfternoonBranchFollows(t: Time)
    requires t.Valid()
    ensures AfternoonBranch(Format(t), t.Minutes()) == Ok(AfternoonSchedule(t))
  {
    var text := Format(t);
    assert Less(text, ApremDebut) <==> t.Seconds() < Time(14, 30, 0).Seconds() by {
      BoundaryTexts();
      FormatOrder(t, Time(14, 30, 0));
    }
    assert Less(text, ApremFinRetard) <==> t.Seconds() < Time(15, 0, 0).Seconds() by {
      BoundaryTexts();
      FormatOrder(t, Time(15, 0, 0));
    }
    AfternoonByPosition(text, t);
  }

  /** The legacy afternoon branch on a text whose position against the two
      boundaries is known. */
  lemma AfternoonByPosition(text: string, t: Time)
    requires t.Valid()
    requires Less(text, ApremDebut) <==> t.Seconds() < Time(14, 30, 0).Seconds()
    requires Less(text, ApremFinRetard) <==> t.Seconds() < Time(15, 0, 0).Seconds()
    ensures AfternoonBranch(text, t.Minutes()) == Ok(AfternoonSchedule(t))
  {
    if t.Seconds() < Time(14, 30, 0).Seconds() {
      assert Less(text, ApremDebut);
    } else if t.Seconds() < Time(15, 0, 0).Seconds() {
      assert !Less(text, ApremDebut) && Less(text, ApremFinRetard);
    } else {
      assert !Less(text, ApremDebut) && !Less(text, ApremFinRetard);
    }
  }

  /** The afternoon reading of `statutEtudiant1` on a well-formed time. */
  function Schedule1(t: Time): (v: Verdict1)
    requires t.Valid()
    ensures v.statut == Absent
    ensures v.statut1 == Some(Retard) ==> 0 <= v.lateness <= 29
  {
    if t.Seconds() < Time(8, 5, 0).Seconds() then Verdict1(Absent, None, 0)
    else if t.Seconds() < Time(11, 0, 0).Seconds() then Verdict1(Absent, None, t.Minutes() - 485)
    else if t.Seconds() < Time(14, 30, 0).Seconds() then Verdict1(Absent, Some(Present), 0)
    else if t.Seconds() < Time(15, 0, 0).Seconds() then Verdict1(Absent, Some(Retard), t.Minutes() - 870)
    else Verdict1(Absent, Some(Absent), 0)
  }

  lemma Statut1FollowsSchedule(t: Time)
    requires t.Valid()
    ensures StatutEtudiant1(Format(t)) == Ok(Schedule1(t))
  {
    MinutesOfFormat(t);
    Branch1Follows(t);
  }

  lemma {:induction false} Branch1Follows(t: Time)
    requires t.Valid()
    ensures Branch1(Format(t), t.Minutes()) == Ok(Schedule1(t))
  {
    var text := Format(t);
    assert Less(text, LegacyDebut) <==> t.Seconds() < Time(8, 5, 0).Seconds() by {
      LegacyTexts();
      FormatOrder(t, Time(8, 5, 0));
    }
    assert Less(text, MatinFinRetard) <==> t.Seconds() < Time(11, 0, 0).Seconds() by {
      BoundaryTexts();
      FormatOrder(t, Time(11, 0, 0));
    }
    assert Less(text, ApremDebut) <==> t.Seconds() < Time(14, 30, 0).Seconds() by {
      BoundaryTexts();
      FormatOrder(t, Time(14, 30, 0));
    }
    assert Less(text, ApremFinRetard) <==> t.Seconds() < Time(15, 0, 0).Seconds() by {
      BoundaryTexts();
      FormatOrder(t, Time(15, 0, 0));
    }
    Branch1ByPosition(text, t);
  }

  /** The decision list of `statutEtudiant1` on a text whose position against
      the four boundaries is known. */
  lemma Branch1ByPosition(text: string, t: Time)
    requires t.Valid()
    requires Less(text, LegacyDebut) <==> t.Seconds() < Time(8, 5, 0).Seconds()
    requires Less(text, MatinFinRetard) <==> t.Seconds() < Time(11, 0, 0).Seconds()
    requires Less(text, ApremDebut) <==> t.Seconds() < Time(14, 30, 0).Seconds()
    requires Less(text, ApremFinRetard) <==> t.Seconds() < Time(15, 0, 0).Seconds()
    ensures Branch1(text, t.Minutes()) == Ok(Schedule1(t))
  {
    if t.Seconds() < Time(8, 5, 0).Seconds() {
      assert Less(text, LegacyDebut);
    } else if t.Seconds() < Time(11, 0, 0).Seconds() {
      assert !Less(text, LegacyDebut) && Less(text, MatinFinRetard);
    } else if t.Seconds() < Time(14, 30, 0).Seconds() {
      assert !Less(text, LegacyDebut) && !Less(text, MatinFinRetard) && Less(text, ApremDebut);
    } else if t.Seconds() < Time(15, 0, 0).Seconds() {
      assert !Less(text, LegacyDebut) && !Less(text, MatinFinRetard) && !Less(text, ApremDebut) && Less(text, ApremFinRetard);
    } else {
      assert !Less(text, LegacyDebut) && !Less(text, MatinFinRetard) && !Less(text, ApremDebut) && !Less(text, ApremFinRetard);
    }
  }

  // ---------------------------------------------------------------------------
  // Spreadsheet rows
  // ---------------------------------------------------------------------------

  /** A row of the sheet: prenom, nom, date, cour_1, cour_2, tempRetard. */
  datatype SheetRow = SheetRow(
    prenom: string, nom: string, date: string,
    cour1: Option<Status>, cour2: Option<Status>, tempRetard: int)
  {
    /** The triple rows are matched on. */
    function Key(): (string, string, string) { (prenom, nom, date) }
  }

  /** No two rows share a key. */
  predicate UniqueKeys(rows: seq<SheetRow>)
  {
    forall i, j :: 0 <= i < j < |rows| ==> rows[i].Key() != rows[j].Key()
  }

  predicate HasKey(rows: seq<SheetRow>, key: (string, string, string))
  {
    exists i :: 0 <= i < |rows| && rows[i].Key() == key
  }

  /** The index of the first row with the given key, if any. */
  function FindKey(rows: seq<SheetRow>, key: (string, string, string)): (r: Option<nat>)
    ensures r.Some? ==> r.value < |rows| && rows[r.value].Key() == key
    ensures r.Some? ==> forall j :: 0 <= j < r.value ==> rows[j].Key() != key
    ensures r.None? <==> !HasKey(rows, key)
  {
    if |rows| == 0 then None
    else if rows[0].Key() == key then Some(0)
    else
      var rest := FindKey(rows[1..], key);
      assert forall j :: 1 <= j < |rows| ==> rows[1..][j - 1] == rows[j];
      if rest.Some? then Some(rest.value + 1) else None
  }

  // ---------------------------------------------------------------------------
  // Merging into the sheet on disk
  // ---------------------------------------------------------------------------

  /** One pass of the merge loop: the first existing row with the new row's
      key is replaced by the new row carrying the existing cour_1; without
      such a row the new row is appended. */
  function MergeRow(existing: seq<SheetRow>, row: SheetRow): (r: seq<SheetRow>)
    ensures HasKey(existing, row.Key()) ==>
      var i := FindKey(existing, row.Key()).value;
      && |r| == |existing|
      && r[i] == row.(cour1 := existing[i].cour1)
      && (forall j :: 0 <= j < |existing| && j != i ==> r[j] == existing[j])
    ensures !HasKey(existing, row.Key()) ==> r == existing + [row]
  {
    match FindKey(existing, row.Key())
    case Some(i) => existing[i := row.(cour1 := existing[i].cour1)]
    case None => existing + [row]
  }

  /** The merge loop over the new rows, in order; each later row sees the
      rows merged before it. */
  function Merge(existing: seq<SheetRow>, rows: seq<SheetRow>): (r: seq<SheetRow>)
    ensures |existing| <= |r| <= |existing| + |rows|
    decreases |rows|
  {
    if |rows| == 0 then existing
    else Merge(MergeRow(existing, rows[0]), rows[1..])
  }

  /** A merge into a sheet without repeated keys leaves none, holds a row
      for every key of either side, keeps the cour_1 of every row already on
      disk, and does not touch a row whose key is not among the new rows. */
  lemma {:induction false} MergeSpec(existing: seq<SheetRow>, rows: seq<SheetRow>)
    requires UniqueKeys(existing)
    ensures var r := Merge(existing, rows);
      && UniqueKeys(r)
      && (forall k :: HasKey(r, k) <==> HasKey(existing, k) || HasKey(rows, k))
      && (forall i :: 0 <= i < |existing| ==> r[i].cour1 == existing[i].cour1)
      && (forall i :: 0 <= i < |existing| && !HasKey(rows, existing[i].Key()) ==> r[i] == existing[i])
    decreases |rows|
  {
    if |rows| > 0 {
      var row := rows[0];
      var mid := MergeRow(existing, row);
      MergeRowSpec(existing, row);
      MergeSpec(mid, rows[1..]);
      var r := Merge(existing, rows);
      assert r == Merge(mid, rows[1..]);
      forall k
        ensures HasKey(rows, k) <==> k == row.Key() || HasKey(rows[1..], k)
      {
        if HasKey(rows[1..], k) {
          var j :| 0 <= j < |rows[1..]| && rows[1..][j].Key() == k;
          assert rows[j + 1].Key() == k;
        }
        if HasKey(rows, k) && k != row.Key() {
          var j :| 0 <= j < |rows| && rows[j].Key() == k;
          assert rows[1..][j - 1].Key() == k;
        }
        if k == row.Key() {
          assert rows[0].Key() == k;
        }
      }
    }
  }

  /** One merge step keeps keys unique, adds exactly the new row's key, and
      changes no cour_1 of a row already there. */
  lemma MergeRowSpec(existing: seq<SheetRow>, row: SheetRow)
    requires UniqueKeys(existing)
    ensures var r := MergeRow(existing, row);
      && UniqueKeys(r)
      && (forall k :: HasKey(r, k) <==> HasKey(existing, k) || k == row.Key())
      && (forall i :: 0 <= i < |existing| ==> r[i].cour1 == existing[i].cour1)
      && (forall i :: 0 <= i < |existing| && existing[i].Key() != row.Key() ==> r[i] == existing[i])
  {
    var r := MergeRow(existing, row);
    if HasKey(existing, row.Key()) {
      var i := FindKey(existing, row.Key()).value;
      assert r[i].Key() == existing[i].Key();
      forall k
        ensures HasKey(r, k) <==> HasKey(existing, k) || k == row.Key()
      {
        if HasKey(existing, k) {
          var j :| 0 <= j < |existing| && existing[j].Key() == k;
          assert r[j].Key() == k;
        }
        if HasKey(r, k) {
          var j :| 0 <= j < |r| && r[j].Key() == k;
          assert existing[j].Key() == k;
        }
      }
    } else {
      assert r[|existing|] == row;
      forall k
        ensures HasKey(r, k) <==> HasKey(existing, k) || k == row.Key()
      {
        if HasKey(existing, k) {
          var j :| 0 <= j < |existing| && existing[j].Key() == k;
          assert r[j].Key() == k;
        }
        if HasKey(r, k) && k != row.Key() {
          var j :| 0 <= j < |r| && r[j].Key() == k;
          assert existing[j].Key() == k;
        }
      }
    }
  }

  // ---------------------------------------------------------------------------
  // Building the rows from the present students
  // ---------------------------------------------------------------------------

  /** `name.split('_')[0]` and `name.split('_')[1]`; the second raises when
      the name holds no underscore. */
  function NameParts(name: string): (r: Result<(string, string)>)
    ensures r.Err? <==> '_' !in name
    ensures r.Err? ==> r.error == IndexError
  {
    var parts := Split(name, '_');
    SplitSingle(name, '_');
    if |parts| < 2 then Err(IndexError) else Ok((parts[0], parts[1]))
  }

  /** The script splits a name exactly as the newer Student class does. */
  lemma NamePartsAsStudent(name: string)
    requires '_' in name
    ensures NameParts(name) == Ok((Students.NewStudent(name).prenom, Students.NewStudent(name).nom))
  {
    SplitSingle(name, '_');
  }

  /** The row built for a student first met in the loop: the morning
      classifier up to noon (no cour_2), `statutEtudiant1` after it. */
  function NewRow(prenom: string, nom: string, date: string, heure: string, now: string): (r: Result<SheetRow>)
    ensures r.Ok? ==> r.value.Key() == (prenom, nom, date)
    ensures LessEq(now, MatinFin) ==>
      (r.Ok? <==> StatutEtudiant(heure, now).Ok?) &&
      (r.Ok? ==> var v := StatutEtudiant(heure, now).value;
         r.value.cour1 == Some(v.status) && r.value.cour2 == None && r.value.tempRetard == v.lateness)
    ensures !LessEq(now, MatinFin) ==>
      (r.Ok? <==> StatutEtudiant1(heure).Ok?) &&
      (r.Ok? ==> var v := StatutEtudiant1(heure).value;
         r.value.cour1 == Some(Absent) && r.value.cour2 == v.statut1 && r.value.tempRetard == v.lateness)
  {
    if LessEq(now, MatinFin) then
      var v :- StatutEtudiant(heure, now);
      Ok(SheetRow(prenom, nom, date, Some(v.status), None, v.lateness))
    else
      var v :- StatutEtudiant1(heure);
      Ok(SheetRow(prenom, nom, date, Some(v.statut), v.statut1, v.lateness))
  }

  /** The update of a row already built for the same prenom, nom and date:
      an empty cour_2, then an empty cour_1, is filled from `statutEtudiant`,
      each time overwriting tempRetard. */
  function FillRow(info: SheetRow, heure: string, now: string): (r: Result<SheetRow>)
    ensures r.Ok? ==> r.value.Key() == info.Key()
    ensures info.cour1.Some? && info.cour2.Some? ==> r == Ok(info)
    ensures r.Ok? ==> r.value.cour1.Some? && r.value.cour2.Some?
    ensures r.Ok? && info.cour1.Some? ==> r.value.cour1 == info.cour1
    ensures r.Ok? && info.cour2.Some? ==> r.value.cour2 == info.cour2
    ensures (info.cour1.None? || info.cour2.None?) ==> (r.Ok? <==> StatutEtudiant(heure, now).Ok?)
    ensures r.Ok? && info.cour2.None? ==> r.value.cour2 == Some(StatutEtudiant(heure, now).value.status)
    ensures r.Ok? && info.cour1.None? ==> r.value.cour1 == Some(StatutEtudiant(heure, now).value.status)
    ensures r.Ok? && (info.cour1.None? || info.cour2.None?) ==>
      r.value.tempRetard == StatutEtudiant(heure, now).value.lateness
  {
    var info1 :- if info.cour2.None? then
        var v :- StatutEtudiant(heure, now);
        Ok(info.(cour2 := Some(v.status), tempRetard := v.lateness))
      else Ok(info);
    if info1.cour1.None? then
      var v :- StatutEtudiant(heure, now);
      Ok(info1.(cour1 := Some(v.status), tempRetard := v.lateness))
    else Ok(info1)
  }

  /** The (prenom, nom, date) a present student's row is matched on. */
  function EntryKey(name: string, entryTime: string): (string, string, string)
    requires '_' in name && SplitPair(entryTime, ' ').Ok?
  {
    var (prenom, nom) := NameParts(name).value;
    (prenom, nom, SplitPair(entryTime, ' ').value.0)
  }

  /** One pass of the loop over `present_students.items()`: the row with the
      student's key is filled in place and every other row is left alone, or,
      without such a row, a new row is appended. */
  function AddEntry(lib: seq<SheetRow>, name: string, entryTime: string, now: string): (r: Result<seq<SheetRow>>)
    ensures r.Ok? ==> '_' in name && SplitPair(entryTime, ' ').Ok?
    ensures '_' in name && SplitPair(entryTime, ' ').Ok? ==>
      var (prenom, nom) := NameParts(name).value;
      var (date, heure) := SplitPair(entryTime, ' ').value;
      var key := EntryKey(name, entryTime);
      && (!HasKey(lib, key) ==> r == (var row :- NewRow(prenom, nom, date, heure, now); Ok(lib + [row])))
      && (HasKey(lib, key) ==>
            var i := FindKey(lib, key).value;
            r == (var info :- FillRow(lib[i], heure, now); Ok(lib[i := info])))
    ensures r.Ok? ==>
      var key := EntryKey(name, entryTime);
      && (HasKey(lib, key) ==> |r.value| == |lib| && (forall j :: 0 <= j < |lib| ==> r.value[j].Key() == lib[j].Key()))
      && (!HasKey(lib, key) ==> |r.value| == |lib| + 1 && r.value[..|lib|] == lib && r.value[|lib|].Key() == key)
  {
    var (prenom, nom) :- NameParts(name);
    var (date, heure) :- SplitPair(entryTime, ' ');
    match FindKey(lib, (prenom, nom, date))
    case Some(i) =>
      var info :- FillRow(lib[i], heure, now);
      Ok(lib[i := info])
    case None =>
      var row :- NewRow(prenom, nom, date, heure, now);
      assert (lib + [row])[..|lib|] == lib;
      Ok(lib + [row])
  }

  /** The first loop of `profileEtudiant`, over the present students in
      insertion order; the first exception ends it. A student whose name has
      no underscore or whose entry time does not split at one space makes it
      raise; the rows already built keep their keys. */
  function BuildLibrary(lib: seq<SheetRow>, present: seq<(string, string)>, now: string): (r: Result<seq<SheetRow>>)
    ensures r.Ok? ==> forall k :: 0 <= k < |present| ==> '_' in present[k].0 && SplitPair(present[k].1, ' ').Ok?
    ensures r.Ok? ==> |lib| <= |r.value| && forall k :: 0 <= k < |lib| ==> r.value[k].Key() == lib[k].Key()
    decreases |present|
  {
    if |present| == 0 then Ok(lib)
    else
      var lib' :- AddEntry(lib, present[0].0, present[0].1, now);
      var r := BuildLibrary(lib', present[1..], now);
      assert forall k :: 1 <= k < |present| ==> present[1..][k - 1] == present[k];
      r
  }

  /** Some student of `present` has the key `key`. */
  predicate Listed(present: seq<(string, string)>, key: (string, string, string))
  {
    exists k :: 0 <= k < |present| && '_' in present[k].0 && SplitPair(present[k].1, ' ').Ok?
      && EntryKey(present[k].0, present[k].1) == key
  }

  lemma ListedCons(present: seq<(string, string)>, key: (string, string, string))
    requires |present| > 0 && '_' in present[0].0 && SplitPair(present[0].1, ' ').Ok?
    ensures Listed(present, key) <==> EntryKey(present[0].0, present[0].1) == key || Listed(present[1..], key)
  {
    if Listed(present, key) {
      var k :| 0 <= k < |present| && '_' in present[k].0 && SplitPair(present[k].1, ' ').Ok?
        && EntryKey(present[k].0, present[k].1) == key;
      if k > 0 {
        assert present[1..][k - 1] == present[k];
      }
    }
    if Listed(present[1..], key) {
      var k :| 0 <= k < |present[1..]| && '_' in present[1..][k].0 && SplitPair(present[1..][k].1, ' ').Ok?
        && EntryKey(present[1..][k].0, present[1..][k].1) == key;
      assert present[k + 1] == present[1..][k];
    }
  }

  /** The keys of the rows built are those of the rows given and of the
      students, nothing else. */
  lemma {:induction false} BuildLibraryKeys(lib: seq<SheetRow>, present: seq<(string, string)>, now: string)
    ensures var r := BuildLibrary(lib, present, now);
      r.Ok? ==> forall key :: HasKey(r.value, key) <==> HasKey(lib, key) || Listed(present, key)
    decreases |present|
  {
    var r := BuildLibrary(lib, present, now);
    if |present| == 0 {
      assert forall key :: !Listed(present, key);
    } else if r.Ok? {
      var (name, time) := present[0];
      var lib' := AddEntry(lib, name, time, now).value;
      assert r == BuildLibrary(lib', present[1..], now);
      BuildLibraryKeys(lib', present[1..], now);
      AddEntryKeys(lib, name, time, now);
      forall key
        ensures HasKey(r.value, key) <==> HasKey(lib, key) || Listed(present, key)
      {
        ListedCons(present, key);
      }
    }
  }

  /** One pass adds exactly the student's key. */
  lemma AddEntryKeys(lib: seq<SheetRow>, name: string, entryTime: string, now: string)
    requires AddEntry(lib, name, entryTime, now).Ok?
    ensures var r := AddEntry(lib, name, entryTime, now).value;
      forall key :: HasKey(r, key) <==> HasKey(lib, key) || key == EntryKey(name, entryTime)
  {
    var r := AddEntry(lib, name, entryTime, now).value;
    var k0 := EntryKey(name, entryTime);
    forall key
      ensures HasKey(r, key) <==> HasKey(lib, key) || key == k0
    {
      if HasKey(r, key) {
        var j :| 0 <= j < |r| && r[j].Key() == key;
        if j < |lib| {
          assert lib[j].Key() == key;
        }
      }
      if HasKey(lib, key) {
        var j :| 0 <= j < |lib| && lib[j].Key() == key;
        assert r[j].Key() == key;
      }
      if key == k0 {
        if HasKey(lib, k0) {
          var j :| 0 <= j < |lib| && lib[j].Key() == k0;
          assert r[j].Key() == key;
        } else {
          assert r[|lib|].Key() == key;
        }
      }
    }
  }

  /** The clock texts both classifiers can read. */
  predicate Readable(heure: string, now: string)
  {
    StatutEtudiant(heure, now).Ok? && StatutEtudiant1(heure).Ok?
  }

  /** A well-formed time is readable, unless the clock is at most noon and
      the time is at or after noon (the unbound `statut`). */
  lemma ReadableTimes(t: Time, now: string)
    requires t.Valid()
    ensures Readable(Format(t), now) <==> !LessEq(now, MatinFin) || t.Seconds() < Time(12, 0, 0).Seconds()
  {
    StatutFollowsSchedule(t, now);
    Statut1FollowsSchedule(t);
  }

  /** The loop raises nothing when every student's name and entry time split
      and every time is readable. */
  lemma {:induction false} BuildLibraryOk(lib: seq<SheetRow>, present: seq<(string, string)>, now: string)
    requires forall k :: 0 <= k < |present| ==>
      && '_' in present[k].0 && SplitPair(present[k].1, ' ').Ok?
      && Readable(SplitPair(present[k].1, ' ').value.1, now)
    ensures BuildLibrary(lib, present, now).Ok?
    decreases |present|
  {
    if |present| > 0 {
      var (name, time) := present[0];
      var (prenom, nom) := NameParts(name).value;
      var (date, heure) := SplitPair(time, ' ').value;
      assert Readable(heure, now);
      assert AddEntry(lib, name, time, now).Ok?;
      assert forall k :: 0 <= k < |present[1..]| ==> present[1..][k] == present[k + 1];
      BuildLibraryOk(AddEntry(lib, name, time, now).value, present[1..], now);
    }
  }

  /** `row` is the row `NewRow` builds for a student first met. */
  predicate RowFor(row: SheetRow, name: string, entryTime: string, now: string)
    requires '_' in name && SplitPair(entryTime, ' ').Ok?
  {
    var (prenom, nom) := NameParts(name).value;
    var (date, heure) := SplitPair(entryTime, ' ').value;
    NewRow(prenom, nom, date, heure, now) == Ok(row)
  }

  /** Every student's name and time split. */
  predicate Parsed(present: seq<(string, string)>)
  {
    forall k :: 0 <= k < |present| ==> '_' in present[k].0 && SplitPair(present[k].1, ' ').Ok?
  }

  /** `rows[k]` is the row `NewRow` builds for `present[k]`, for every k. */
  predicate RowsFor(rows: seq<SheetRow>, present: seq<(string, string)>, now: string)
    requires Parsed(present)
  {
    && |rows| == |present|
    && forall k :: 0 <= k < |present| ==> RowFor(rows[k], present[k].0, present[k].1, now)
  }

  /** A sequence that starts with `pre + [x]` starts with `pre`, and
      continues with `x` right after it. */
  lemma PeelAfterPrefix<T>(out: seq<T>, pre: seq<T>, x: T)
    requires |pre| < |out| && out[..|pre| + 1] == pre + [x]
    ensures out[..|pre|] == pre
    ensures out[|pre|..] == [x] + out[|pre| + 1..]
  {
    assert out[..|pre|] == out[..|pre| + 1][..|pre|];
    assert out[|pre|] == out[..|pre| + 1][|pre|];
  }

  lemma RowsForCons(row: SheetRow, rows: seq<SheetRow>, present: seq<(string, string)>, now: string)
    requires Parsed(present) && |present| > 0
    requires RowFor(row, present[0].0, present[0].1, now)
    requires Parsed(present[1..]) && RowsFor(rows, present[1..], now)
    ensures RowsFor([row] + rows, present, now)
  {
    forall k | 0 <= k < |present|
      ensures RowFor(([row] + rows)[k], present[k].0, present[k].1, now)
    {
      if k > 0 {
        assert present[1..][k - 1] == present[k];
      }
    }
  }

  /** Every student parses, no student's key is among `lib`'s, and no two
      students share a key. */
  predicate FreshKeys(lib: seq<SheetRow>, present: seq<(string, string)>)
  {
    && Parsed(present)
    && (forall k :: 0 <= k < |present| ==> !HasKey(lib, EntryKey(present[k].0, present[k].1)))
    && (forall k, l :: 0 <= k < l < |present| ==>
          EntryKey(present[k].0, present[k].1) != EntryKey(present[l].0, present[l].1))
  }

  /** Students whose keys are new and pairwise distinct each get the row
      `NewRow` builds for them, appended in order. */
  lemma {:induction false} BuildLibraryFresh(lib: seq<SheetRow>, present: seq<(string, string)>, now: string)
    requires FreshKeys(lib, present)
    ensures var r := BuildLibrary(lib, present, now);
      r.Ok? ==>
        && |r.value| == |lib| + |present|
        && r.value[..|lib|] == lib
        && RowsFor(r.value[|lib|..], present, now)
    decreases |present|
  {
    var r := BuildLibrary(lib, present, now);
    if |present| > 0 && r.Ok? {
      var (name, time) := present[0];
      var lib' := AddEntry(lib, name, time, now).value;
      var rest := present[1..];
      assert r == BuildLibrary(lib', rest, now);
      var row := lib'[|lib|];
      assert lib' == lib + [row] && RowFor(row, name, time, now) by {
        AddEntryFresh(lib, name, time, now);
      }
      assert FreshKeys(lib', rest) by {
        FreshKeysStep(lib, present, row);
      }
      BuildLibraryFresh(lib', rest, now);
      var out := r.value;
      PeelAfterPrefix(out, lib, row);
      RowsForCons(row, out[|lib'|..], present, now);
    }
  }

  /** A student with a new key gets the row `NewRow` builds, appended. */
  lemma AddEntryFresh(lib: seq<SheetRow>, name: string, entryTime: string, now: string)
    requires '_' in name && SplitPair(entryTime, ' ').Ok?
    requires !HasKey(lib, EntryKey(name, entryTime))
    requires AddEntry(lib, name, entryTime, now).Ok?
    ensures var r := AddEntry(lib, name, entryTime, now).value;
      |r| == |lib| + 1 && r == lib + [r[|lib|]] && RowFor(r[|lib|], name, entryTime, now)
  {
  }

  /** Freshness survives appending the first student's row. */
  lemma FreshKeysStep(lib: seq<SheetRow>, present: seq<(string, string)>, row: SheetRow)
    requires FreshKeys(lib, present) && |present| > 0
    requires row.Key() == EntryKey(present[0].0, present[0].1)
    ensures FreshKeys(lib + [row], present[1..])
  {
    var rest := present[1..];
    forall k | 0 <= k < |rest|
      ensures !HasKey(lib + [row], EntryKey(rest[k].0, rest[k].1))
    {
      assert rest[k] == present[k + 1];
      var key := EntryKey(rest[k].0, rest[k].1);
      assert key != row.Key();
      assert forall j :: 0 <= j < |lib| ==> lib[j].Key() != key;
      assert forall j :: 0 <= j < |lib + [row]| ==> (lib + [row])[j].Key() != key by {
        forall j | 0 <= j < |lib + [row]|
          ensures (lib + [row])[j].Key() != key
        {
          if j < |lib| {
            assert (lib + [row])[j] == lib[j];
          }
        }
      }
    }
    forall k, l | 0 <= k < l < |rest|
      ensures EntryKey(rest[k].0, rest[k].1) != EntryKey(rest[l].0, rest[l].1)
    {
      assert rest[k] == present[k + 1] && rest[l] == present[l + 1];
    }
  }

  /** The rows built never repeat a key, and there are at most as many as
      students. */
  lemma {:induction false} BuildLibraryUnique(lib: seq<SheetRow>, present: seq<(string, string)>, now: string)
    requires UniqueKeys(lib)
    ensures var r := BuildLibrary(lib, present, now);
      r.Ok? ==> UniqueKeys(r.value) && |r.value| <= |lib| + |present|
    decreases |present|
  {
    if |present| > 0 {
      var r0 := AddEntry(lib, present[0].0, present[0].1, now);
      if r0.Ok? {
        var lib' := r0.value;
        var (prenom, nom) := NameParts(present[0].0).value;
        var key := (prenom, nom, SplitPair(present[0].1, ' ').value.0);
        if HasKey(lib, key) {
          assert UniqueKeys(lib');
        } else {
          forall i, j | 0 <= i < j < |lib'|
            ensures lib'[i].Key() != lib'[j].Key()
          {
            if j == |lib| {
              assert lib'[i] == lib[i];
            } else {
              assert lib'[i] == lib[i] && lib'[j] == lib[j];
            }
          }
        }
        BuildLibraryUnique(lib', present[1..], now);
      }
    }
  }

  /** `profileEtudiant(present_students)` with the sheet on disk as `sheet`
      (none before the first save): the new rows alone when there is no
      sheet, otherwise the sheet with the new rows merged in. The result is
      both what is saved and what is returned. */
  function ProfileEtudiant(present: seq<(string, string)>, sheet: Option<seq<SheetRow>>, now: string): (r: Result<seq<SheetRow>>)
    ensures r.Ok? <==> BuildLibrary([], present, now).Ok?
    ensures r.Ok? && sheet.None? ==> r.value == BuildLibrary([], present, now).value
    ensures r.Ok? && sheet.Some? ==> r.value == Merge(sheet.value, BuildLibrary([], present, now).value)
  {
    var rows :- BuildLibrary([], present, now);
    if sheet.Some? then Ok(Merge(sheet.value, rows)) else Ok(rows)
  }

  /** A sheet that starts without repeated keys never gets one, and every
      cour_1 once on disk stays. */
  lemma ProfileKeepsSheet(present: seq<(string, string)>, sheet: Option<seq<SheetRow>>, now: string)
    requires sheet.Some? ==> UniqueKeys(sheet.value)
    ensures var r := ProfileEtudiant(present, sheet, now);
      r.Ok? ==>
        && UniqueKeys(r.value)
        && (sheet.Some? ==> |r.value| >= |sheet.value|)
        && (sheet.Some? ==> forall i :: 0 <= i < |sheet.value| ==> r.value[i].cour1 == sheet.value[i].cour1)
  {
    BuildLibraryUnique([], present, now);
    var rows := BuildLibrary([], present, now);
    if rows.Ok? && sheet.Some? {
      MergeSpec(sheet.value, rows.value);
    }
  }

  // ---------------------------------------------------------------------------
  // The two entry points
  // ---------------------------------------------------------------------------

  /** The script's globals: `present_students` (name, entry time) in
      insertion order, `listeEtudiant`, and the sheet on disk. */
  datatype Legacy = Legacy(present: seq<(string, string)>, liste: seq<string>, sheet: Option<seq<SheetRow>>)

  /** The state after a call and the exception it raised, if any. */
  datatype Step = Step(st: Legacy, error: Option<PyError>)

  /** `name in present_students` */
  predicate Recorded(present: seq<(string, string)>, name: string)
  {
    exists k :: 0 <= k < |present| && present[k].0 == name
  }

  /** The common part of both functions: record the name, split it (which
      raises without an underscore), then rebuild and save the sheet. The
      name stays recorded whatever is raised afterwards. */
  function RecordAndSave(st: Legacy, name: string, entryTime: string, now: string): (r: Step)
    ensures r.st.present == st.present + [(name, entryTime)] && r.st.liste == st.liste
    ensures r.error.None? <==> '_' in name && ProfileEtudiant(r.st.present, st.sheet, now).Ok?
    ensures r.error.None? ==> r.st.sheet == Some(ProfileEtudiant(r.st.present, st.sheet, now).value)
    ensures r.error.Some? ==> r.st.sheet == st.sheet
  {
    var present := st.present + [(name, entryTime)];
    var st1 := st.(present := present);
    if NameParts(name).Err? then Step(st1, Some(IndexError))
    else match ProfileEtudiant(present, st.sheet, now)
      case Err(e) => Step(st1, Some(e))
      case Ok(sheet) => Step(st1.(sheet := Some(sheet)), None)
  }

  /** `process_attendance(name, entry_time)`: a name already recorded changes
      nothing; otherwise it is recorded, the sheet is rebuilt, and the name is
      removed from `listeEtudiant`, which raises if it is not listed. */
  function ProcessAttendance(st: Legacy, name: string, entryTime: string, now: string): (r: Step)
    ensures Recorded(st.present, name) ==> r == Step(st, None)
    ensures !Recorded(st.present, name) ==> r.st.present == st.present + [(name, entryTime)]
    ensures !Recorded(st.present, name) ==> r.st.sheet == RecordAndSave(st, name, entryTime, now).st.sheet
    ensures !Recorded(st.present, name) && RecordAndSave(st, name, entryTime, now).error.Some? ==>
      r == RecordAndSave(st, name, entryTime, now)
    ensures !Recorded(st.present, name) && RecordAndSave(st, name, entryTime, now).error.None? ==>
      && (r.error.None? <==> name in st.liste)
      && (r.error.Some? ==> r.error == Some(ValueError))
      && (r.error.None? ==> r.st.liste == RemoveFirst(st.liste, name).value)
    ensures !Recorded(st.present, name) && r.error.None? ==>
      && name in st.liste
      && multiset(r.st.liste) == multiset(st.liste) - multiset{name}
    ensures r.error.Some? ==> r.st.liste == st.liste
    ensures Recorded(r.st.present, name)
  {
    if Recorded(st.present, name) then Step(st, None)
    else
      var saved := RecordAndSave(st, name, entryTime, now);
      assert saved.st.present[|st.present|].0 == name;
      if saved.error.Some? then saved
      else match RemoveFirst(st.liste, name)
        case Err(e) => Step(saved.st, Some(e))
        case Ok(liste) => Step(saved.st.(liste := liste), None)
  }

  /** Only the first call for a name has any effect. */
  lemma AttendanceOnlyOnce(st: Legacy, name: string, t1: string, t2: string, now1: string, now2: string)
    ensures var r := ProcessAttendance(st, name, t1, now1);
      ProcessAttendance(r.st, name, t2, now2) == Step(r.st, None)
  {
  }

  /** `process_missing(name, entry_time)`: like `process_attendance` but the
      list is left alone. */
  function ProcessMissing(st: Legacy, name: string, entryTime: string, now: string): (r: Step)
    ensures Recorded(st.present, name) ==> r == Step(st, None)
    ensures !Recorded(st.present, name) ==> r == RecordAndSave(st, name, entryTime, now)
    ensures r.st.liste == st.liste
    ensures st.present <= r.st.present
  {
    if Recorded(st.present, name) then Step(st, None)
    else RecordAndSave(st, name, entryTime, now)
  }

  /** Neither function ever changes a time already recorded: the earlier
      entries are a prefix of the new ones, and a name keeps appearing once. */
  lemma NeverOverwrites(st: Legacy, name: string, t: string, now: string)
    requires forall i, j :: 0 <= i < j < |st.present| ==> st.present[i].0 != st.present[j].0
    ensures var (a, m) := (ProcessAttendance(st, name, t, now).st, ProcessMissing(st, name, t, now).st);
      && st.present <= a.present && st.present <= m.present
      && (forall i, j :: 0 <= i < j < |a.present| ==> a.present[i].0 != a.present[j].0)
      && (forall i, j :: 0 <= i < j < |m.present| ==> m.present[i].0 != m.present[j].0)
  {
  }
}
