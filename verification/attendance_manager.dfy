/** The deduplicating attendance state machine (class AttendanceManager).

    The manager holds the known students in a dictionary keyed by full name
    (kept here as the key order plus a map, because the order in which rows
    are saved decides which row wins when two students share a first and last
    name), the list of names not yet seen, and the store. A detection marks a
    student present once; after every change every present student is
    classified with the morning schedule and the whole list is saved.
 */
module AttendanceManager {
  import opened Wrappers
  import opened Builtins
  import opened AttendanceStatus
  import opened Students
  import DBManager

  datatype Manager = Manager(
    names: seq<string>,                // known_students keys, in dictionary order
    students: map<string, Student>,    // known_students
    absent: seq<string>,               // absent_students
    db: DBManager.Table)

  /** The result of a call: the new state, whether `on_update` is invoked,
      and the exception the call raises, if any. */
  datatype Outcome = Outcome(m: Manager, notified: bool, error: Option<PyError>)

  predicate Valid(m: Manager)
  {
    && Distinct(m.names)
    && (forall n :: n in m.names ==> n in m.students)
    && (forall n :: n in m.students ==> n in m.names)
    && (forall n :: n in m.students ==> m.students[n].fullName == n)
    && Distinct(m.absent)
    && (forall n :: n in m.absent ==> n in m.students)
    && DBManager.Valid(m.db)
  }

  /** Before finalisation a name is listed as absent exactly when its student
      has not been seen. */
  predicate Tracking(m: Manager)
  {
    forall n :: n in m.students ==> (n in m.absent <==> !IsPresent(m.students[n]))
  }

  // ---------------------------------------------------------------------------
  // Construction
  // ---------------------------------------------------------------------------

  /** `{s.full_name: s for s in known}`: a later student with the same full
      name replaces the earlier one but keeps its position (see
      `BuildDictCovers`, `BuildDictValues` and `BuildDictLastWins`). */
  function BuildDict(known: seq<Student>): (d: (seq<string>, map<string, Student>))
    ensures Distinct(d.0)
    ensures forall n :: n in d.0 <==> n in d.1
    ensures forall n :: n in d.1 ==> d.1[n].fullName == n
  {
    if |known| == 0 then ([], map[])
    else
      var s := known[|known| - 1];
      var (names, dict) := BuildDict(known[..|known| - 1]);
      if s.fullName in dict then (names, dict[s.fullName := s])
      else (names + [s.fullName], dict[s.fullName := s])
  }

  /** Every student's name is a key. */
  lemma {:induction false} BuildDictCovers(known: seq<Student>)
    ensures forall i :: 0 <= i < |known| ==> known[i].fullName in BuildDict(known).1
  {
    if |known| > 0 {
      var last := |known| - 1;
      var init := known[..last];
      BuildDictCovers(init);
      forall i | 0 <= i < last
        ensures known[i].fullName in BuildDict(known).1
      {
        assert init[i] == known[i];
      }
    }
  }

  /** Every value is one of the students. */
  lemma {:induction false} BuildDictValues(known: seq<Student>)
    ensures forall n :: n in BuildDict(known).1 ==> BuildDict(known).1[n] in known
  {
    if |known| > 0 {
      var last := |known| - 1;
      var init := known[..last];
      BuildDictValues(init);
      var d0 := BuildDict(init).1;
      var d := BuildDict(known).1;
      assert d == d0[known[last].fullName := known[last]];
      forall n | n in d
        ensures d[n] in known
      {
        if n != known[last].fullName {
          assert d0[n] in init;
          var k :| 0 <= k < |init| && init[k] == d0[n];
          assert known[k] == d[n];
        }
      }
    }
  }

  /** The value under a name is the last student carrying it. */
  lemma {:induction false} BuildDictLastWins(known: seq<Student>, i: int)
    requires 0 <= i < |known|
    requires forall j :: i < j < |known| ==> known[j].fullName != known[i].fullName
    ensures known[i].fullName in BuildDict(known).1
    ensures BuildDict(known).1[known[i].fullName] == known[i]
  {
    var last := |known| - 1;
    var init := known[..last];
    if i < last {
      assert init[i] == known[i];
      assert known[last].fullName != known[i].fullName;
      BuildDictLastWins(init, i);
    }
  }

  /** `AttendanceManager(known_students)` over an already opened store: every
      known name starts out listed as absent. */
  function Init(known: seq<Student>, db: DBManager.Table): (m: Manager)
    requires DBManager.Valid(db)
    ensures Valid(m)
    ensures m.absent == m.names && m.db == db
    ensures forall i :: 0 <= i < |known| ==> known[i].fullName in m.students
    ensures forall n :: n in m.students ==> m.students[n] in known
    ensures (forall i :: 0 <= i < |known| ==> !IsPresent(known[i])) ==> Tracking(m)
  {
    BuildDictCovers(known);
    BuildDictValues(known);
    var (names, dict) := BuildDict(known);
    Manager(names, dict, names, db)
  }

  // ---------------------------------------------------------------------------
  // Building the rows to save
  // ---------------------------------------------------------------------------

  /** The names of the present students, in dictionary order: on a list
      without repeats each present name comes once, and in the order the
      list gives. */
  function PresentNames(names: seq<string>, students: map<string, Student>): (r: seq<string>)
    requires forall n :: n in names ==> n in students
    ensures forall n :: n in r <==> n in names && IsPresent(students[n])
    ensures |r| <= |names|
    ensures Distinct(names) ==> Distinct(r)
    ensures Distinct(names) ==> InOrderOf(r, names)
  {
    if |names| == 0 then []
    else
      var rest := PresentNames(names[1..], students);
      assert names == [names[0]] + names[1..];
      if IsPresent(students[names[0]]) then
        KeepHeadInOrder(names, rest);
        [names[0]] + rest
      else
        DropHeadInOrder(names, rest);
        rest
  }

  /** Every element of `r` occurs in `names`, strictly later for later
      positions of `r`. */
  predicate InOrderOf(r: seq<string>, names: seq<string>)
  {
    && (forall i :: 0 <= i < |r| ==> r[i] in names)
    && (forall i, j :: 0 <= i < j < |r| ==> IndexOf(names, r[i]) < IndexOf(names, r[j]))
  }

  /** Positions in the tail of a list are one less than in the list. */
  lemma IndexInTail(names: seq<string>, x: string)
    requires |names| > 0 && Distinct(names) && x in names[1..]
    ensures IndexOf(names, x) == 1 + IndexOf(names[1..], x)
  {
    assert names[0] != x by {
      var k :| 0 <= k < |names[1..]| && names[1..][k] == x;
      assert names[k + 1] == x;
    }
  }

  lemma DropHeadInOrder(names: seq<string>, rest: seq<string>)
    requires |names| > 0
    requires Distinct(names[1..]) ==> InOrderOf(rest, names[1..])
    ensures Distinct(names) ==> InOrderOf(rest, names)
  {
    if Distinct(names) {
      assert Distinct(names[1..]);
      forall i | 0 <= i < |rest|
        ensures rest[i] in names && IndexOf(names, rest[i]) == 1 + IndexOf(names[1..], rest[i])
      {
        IndexInTail(names, rest[i]);
      }
    }
  }

  lemma KeepHeadInOrder(names: seq<string>, rest: seq<string>)
    requires |names| > 0
    requires Distinct(names[1..]) ==> InOrderOf(rest, names[1..])
    ensures Distinct(names) ==> InOrderOf([names[0]] + rest, names) && Distinct([names[0]] + rest)
  {
    if !Distinct(names) {
      return;
    }
    DropHeadInOrder(names, rest);
    var r := [names[0]] + rest;
    assert IndexOf(names, names[0]) == 0;
    forall i, j | 0 <= i < j < |r|
      ensures IndexOf(names, r[i]) < IndexOf(names, r[j])
    {
      assert r[j] == rest[j - 1];
      if 0 < i {
        assert r[i] == rest[i - 1];
      }
    }
    InOrderDistinct(r, names);
  }

  /** Elements listed in strictly increasing positions are distinct. */
  lemma InOrderDistinct(r: seq<string>, names: seq<string>)
    requires InOrderOf(r, names)
    ensures Distinct(r)
  {
    forall i, j | 0 <= i < j < |r|
      ensures r[i] != r[j]
    {
      assert IndexOf(names, r[i]) < IndexOf(names, r[j]);
    }
  }


  /** The row of one present student: its date is the text before the space
      of the entry time, its status and lateness are the morning schedule's
      verdict on the text after it. */
  function RowOf(s: Student): (r: Result<DBManager.Row>)
    requires IsPresent(s)
    ensures r.Ok? <==>
      SplitPair(s.entryTime.value, ' ').Ok? && GetStatusMatin(SplitPair(s.entryTime.value, ' ').value.1).Ok?
    ensures r.Ok? ==>
      var (date, heure) := SplitPair(s.entryTime.value, ' ').value;
      var v := GetStatusMatin(heure).value;
      && r.value.prenom == s.prenom && r.value.nom == s.nom && r.value.date == date
      && r.value.etat == Some(v.status.Text()) && r.value.tempRetard == Some(v.lateness)
  {
    var (date, heure) :- SplitPair(s.entryTime.value, ' ');
    var v :- GetStatusMatin(heure);
    Ok(DBManager.Row(s.prenom, s.nom, date, Some(v.status.Text()), Some(v.lateness)))
  }

  /** The loop of `_build_and_save`: one row per present student, in
      dictionary order; the first student whose entry time cannot be read
      makes the whole call raise. */
  function BuildRows(names: seq<string>, students: map<string, Student>): (r: Result<seq<DBManager.Row>>)
    requires forall n :: n in names ==> n in students
    ensures r.Ok? <==> forall n :: n in names && IsPresent(students[n]) ==> RowOf(students[n]).Ok?
    ensures r.Ok? ==>
      var present := PresentNames(names, students);
      |r.value| == |present| &&
      forall i :: 0 <= i < |present| ==> RowOf(students[present[i]]) == Ok(r.value[i])
  {
    if |names| == 0 then Ok([])
    else
      var s := students[names[0]];
      assert forall n :: n in names <==> n == names[0] || n in names[1..] by {
        assert names == [names[0]] + names[1..];
      }
      if IsPresent(s) then
        var row :- RowOf(s);
        var rest :- BuildRows(names[1..], students);
        RowsAlign(names, students, row, rest);
        Ok([row] + rest)
      else
        BuildRows(names[1..], students)
  }

  /** The rows of the tail, behind the head's row, line up with the present
      names of the whole list. */
  lemma RowsAlign(names: seq<string>, students: map<string, Student>, row: DBManager.Row, rest: seq<DBManager.Row>)
    requires forall n :: n in names ==> n in students
    requires |names| > 0 && IsPresent(students[names[0]]) && RowOf(students[names[0]]) == Ok(row)
    requires var tail := PresentNames(names[1..], students);
      |rest| == |tail| && forall i :: 0 <= i < |tail| ==> RowOf(students[tail[i]]) == Ok(rest[i])
    ensures var present := PresentNames(names, students);
      |[row] + rest| == |present| &&
      forall i :: 0 <= i < |present| ==> RowOf(students[present[i]]) == Ok(([row] + rest)[i])
  {
    var tail := PresentNames(names[1..], students);
    assert PresentNames(names, students) == [names[0]] + tail;
  }

  /** `_build_and_save` followed by the notification: the rows are saved and
      `on_update` runs, or the call raises before anything is saved. */
  function Save(m: Manager): (o: Outcome)
    requires Valid(m)
    ensures Valid(o.m)
    ensures o.m.names == m.names && o.m.students == m.students && o.m.absent == m.absent
    ensures o.error.None? <==> BuildRows(m.names, m.students).Ok?
    ensures o.error.None? ==> o.notified && o.m.db == DBManager.SaveAll(m.db, BuildRows(m.names, m.students).value)
    ensures o.error.Some? ==> !o.notified && o.m.db == m.db
  {
    match BuildRows(m.names, m.students)
    case Err(e) => Outcome(m, false, Some(e))
    case Ok(rows) => Outcome(m.(db := DBManager.SaveAll(m.db, rows)), true, None)
  }

  // ---------------------------------------------------------------------------
  // Transitions
  // ---------------------------------------------------------------------------

  /** `process_presence(name, entry_time)`. An unknown name or a student
      already present changes nothing, saves nothing and notifies no one.
      Otherwise the student gets `entry_time`, leaves the absent list, and the
      rows are saved; if that raises, the student stays marked. */
  function ProcessPresence(m: Manager, name: string, entryTime: string): (o: Outcome)
    requires Valid(m)
    ensures Valid(o.m)
    ensures name !in m.students || IsPresent(m.students[name]) ==> o == Outcome(m, false, None)
    ensures name in m.students && !IsPresent(m.students[name]) ==>
      && o.m.names == m.names
      && o.m.students.Keys == m.students.Keys
      && o.m.students[name] == MarkPresent(m.students[name], entryTime)
      && (forall n :: n in m.students && n != name ==> o.m.students[n] == m.students[n])
      && name !in o.m.absent
      && (forall n :: n != name ==> (n in o.m.absent <==> n in m.absent))
      && o == Save(o.m.(db := m.db))
  {
    var student := if name in m.students then Some(m.students[name]) else None;
    if student.Some? && !IsPresent(student.value) then
      var students := m.students[name := MarkPresent(student.value, entryTime)];
      var marked := Manager(m.names, students, Discard(m.absent, name), m.db);
      MarkKeepsValid(m, name, entryTime);
      Save(marked)
    else
      Outcome(m, false, None)
  }

  /** Marking a known student and discarding it from the absent list keeps
      the manager valid. */
  lemma MarkKeepsValid(m: Manager, name: string, entryTime: string)
    requires Valid(m) && name in m.students
    ensures var students := m.students[name := MarkPresent(m.students[name], entryTime)];
      && students.Keys == m.students.Keys
      && Valid(Manager(m.names, students, Discard(m.absent, name), m.db))
  {
    var students := m.students[name := MarkPresent(m.students[name], entryTime)];
    assert students.Keys == m.students.Keys;
  }

  /** `if name in absent: absent.remove(name)` on a list without repeats. */
  function Discard(absent: seq<string>, name: string): (r: seq<string>)
    requires Distinct(absent)
    ensures Distinct(r) && name !in r
    ensures forall n :: n != name ==> (n in r <==> n in absent)
  {
    if name in absent then
      RemoveFirstDistinct(absent, name);
      RemoveFirst(absent, name).value
    else absent
  }

  /** Every call keeps the absent list in step with the students' state. */
  lemma ProcessPresenceTracks(m: Manager, name: string, entryTime: string)
    requires Valid(m) && Tracking(m)
    ensures Tracking(ProcessPresence(m, name, entryTime).m)
  {
  }

  /** Once a student is present, detecting it again is a no-op: the first
      detection's time stays. */
  lemma FirstDetectionWins(m: Manager, name: string, t1: string, t2: string)
    requires Valid(m) && name in m.students && !IsPresent(m.students[name])
    ensures var o1 := ProcessPresence(m, name, t1);
      && o1.m.students[name].entryTime == Some(t1)
      && ProcessPresence(o1.m, name, t2) == Outcome(o1.m, false, None)
  {
  }

  /** A run of detections, each a name and its entry time, fed to
      `process_presence` one after another; the first exception ends the run
      with the state reached so far. */
  datatype Run = Run(m: Manager, error: Option<PyError>)

  function PresenceRun(m: Manager, ds: seq<(string, string)>): (r: Run)
    requires Valid(m)
    ensures Valid(r.m)
    ensures r.m.names == m.names && r.m.students.Keys == m.students.Keys
    decreases |ds|
  {
    if |ds| == 0 then Run(m, None)
    else
      var o := ProcessPresence(m, ds[0].0, ds[0].1);
      if o.error.Some? then Run(o.m, o.error) else PresenceRun(o.m, ds[1..])
  }

  /** The time of the first detection of `n`, if any. */
  function FirstTime(ds: seq<(string, string)>, n: string): Option<string>
  {
    if |ds| == 0 then None
    else if ds[0].0 == n then Some(ds[0].1)
    else FirstTime(ds[1..], n)
  }

  /** Over a run without an exception, a student seen before keeps its time,
      and an unseen one ends with the time of its first detection (none if it
      was never detected); names and surnames never change. */
  lemma {:induction false} RunFirstDetectionWins(m: Manager, ds: seq<(string, string)>)
    requires Valid(m)
    ensures var r := PresenceRun(m, ds);
      r.error.None? ==> forall n :: n in m.students ==>
        && r.m.students[n].entryTime ==
             (if IsPresent(m.students[n]) then m.students[n].entryTime else FirstTime(ds, n))
        && r.m.students[n].prenom == m.students[n].prenom
        && r.m.students[n].nom == m.students[n].nom
    decreases |ds|
  {
    if |ds| > 0 {
      var (name, t) := ds[0];
      var o := ProcessPresence(m, name, t);
      if o.error.None? {
        RunFirstDetectionWins(o.m, ds[1..]);
        var r := PresenceRun(m, ds);
        assert r == PresenceRun(o.m, ds[1..]);
        forall n | n in m.students && r.error.None?
          ensures r.m.students[n].entryTime ==
            (if IsPresent(m.students[n]) then m.students[n].entryTime else FirstTime(ds, n))
          ensures r.m.students[n].prenom == m.students[n].prenom
          ensures r.m.students[n].nom == m.students[n].nom
        {
          var before := m.students[n];
          var mid := o.m.students[n];
          assert n in o.m.students;
          assert r.m.students[n].entryTime ==
            (if IsPresent(mid) then mid.entryTime else FirstTime(ds[1..], n));
          assert r.m.students[n].prenom == mid.prenom && r.m.students[n].nom == mid.nom;
          if n == name && !IsPresent(before) {
            assert mid == MarkPresent(before, t);
            assert FirstTime(ds, n) == Some(t);
          } else {
            assert mid == before;
            assert !IsPresent(before) ==> FirstTime(ds, n) == FirstTime(ds[1..], n);
          }
        }
      }
    }
  }

  /** A name that is unknown or already present. */
  predicate Settled(m: Manager, n: string)
  {
    n !in m.students || IsPresent(m.students[n])
  }

  /** A detection of a name detected earlier in the same run changes
      nothing: the run gives the same state and the same exception as the
      run without it. */
  lemma {:induction false} RepeatedDetectionIsNoOp(m: Manager, a: seq<(string, string)>, d: (string, string), b: seq<(string, string)>)
    requires Valid(m)
    requires exists k :: 0 <= k < |a| && a[k].0 == d.0
    ensures PresenceRun(m, a + [d] + b) == PresenceRun(m, a + b)
    decreases |a|
  {
    var o := ProcessPresence(m, a[0].0, a[0].1);
    assert (a + [d] + b)[0] == a[0] && (a + b)[0] == a[0];
    assert (a + [d] + b)[1..] == a[1..] + [d] + b;
    assert (a + b)[1..] == a[1..] + b;
    if o.error.None? {
      if a[0].0 == d.0 {
        SettledDetectionIsNoOp(o.m, a[1..], d, b);
      } else {
        var k :| 0 <= k < |a| && a[k].0 == d.0;
        assert a[1..][k - 1].0 == d.0;
        RepeatedDetectionIsNoOp(o.m, a[1..], d, b);
      }
    }
  }

  /** Once a name is settled, detecting it again anywhere later in a run is
      a no-op. */
  lemma {:induction false} SettledDetectionIsNoOp(m: Manager, a: seq<(string, string)>, d: (string, string), b: seq<(string, string)>)
    requires Valid(m) && Settled(m, d.0)
    ensures PresenceRun(m, a + [d] + b) == PresenceRun(m, a + b)
    decreases |a|
  {
    if |a| == 0 {
      assert a + [d] + b == [d] + b && a + b == b;
      assert ([d] + b)[1..] == b;
    } else {
      var o := ProcessPresence(m, a[0].0, a[0].1);
      assert (a + [d] + b)[0] == a[0] && (a + b)[0] == a[0];
      assert (a + [d] + b)[1..] == a[1..] + [d] + b;
      assert (a + b)[1..] == a[1..] + b;
      if o.error.None? {
        assert Settled(o.m, d.0);
        SettledDetectionIsNoOp(o.m, a[1..], d, b);
      }
    }
  }

  /** `process_absences()` with today's date as a parameter: every student
      still listed gets "<today> 23:00:00" (the list itself is not cleared),
      everyone else is untouched, and the rows are saved. */
  function ProcessAbsences(m: Manager, today: string): (o: Outcome)
    requires Valid(m)
    ensures Valid(o.m)
    ensures o.m.names == m.names && o.m.absent == m.absent
    ensures o.m.students.Keys == m.students.Keys
    ensures forall n :: n in m.absent ==> o.m.students[n] == MarkPresent(m.students[n], ForcedTime(today))
    ensures forall n :: n in m.students && n !in m.absent ==> o.m.students[n] == m.students[n]
    ensures o == Save(o.m.(db := m.db))
  {
    Save(m.(students := MarkAll(m.students, m.absent, ForcedTime(today))))
  }

  /** `strftime("%Y-%m-%d 23:00:00")` for the given date text. */
  function ForcedTime(today: string): string
  {
    today + " 23:00:00"
  }

  /** The loop of `process_absences`: marks each listed name, in order. */
  function MarkAll(students: map<string, Student>, names: seq<string>, t: string): (r: map<string, Student>)
    requires forall n :: n in names ==> n in students
    ensures r.Keys == students.Keys
    ensures forall n :: n in names ==> r[n] == MarkPresent(students[n], t)
    ensures forall n :: n in students && n !in names ==> r[n] == students[n]
  {
    if |names| == 0 then students
    else
      assert forall n :: n in names <==> n == names[0] || n in names[1..] by {
        assert names == [names[0]] + names[1..];
      }
      MarkAll(students[names[0] := MarkPresent(students[names[0]], t)], names[1..], t)
  }

  /** After finalisation every student tracked as unseen is present. */
  lemma AbsencesMarkEveryone(m: Manager, today: string)
    requires Valid(m) && Tracking(m)
    ensures var o := ProcessAbsences(m, today);
      forall n :: n in o.m.students ==> IsPresent(o.m.students[n])
  {
  }

  /** After finalisation no detection changes anything any more. */
  lemma PresenceAfterAbsencesIsNoOp(m: Manager, today: string, name: string, t: string)
    requires Valid(m) && Tracking(m)
    ensures var m' := ProcessAbsences(m, today).m;
      ProcessPresence(m', name, t) == Outcome(m', false, None)
  {
    AbsencesMarkEveryone(m, today);
  }

  /** Finalising twice on the same day gives the same students, the same
      rows and the same table as finalising once. */
  lemma ProcessAbsencesIdempotent(m: Manager, today: string)
    requires Valid(m)
    ensures var o := ProcessAbsences(m, today);
      ProcessAbsences(o.m, today) == o
  {
    var t := ForcedTime(today);
    var m1 := m.(students := MarkAll(m.students, m.absent, t));
    var o := ProcessAbsences(m, today);
    assert o == Save(m1);
    MarkAllTwice(m.students, m.absent, t);
    assert o.m.(students := MarkAll(o.m.students, o.m.absent, t)) == o.m;
    SaveTwice(m1);
  }

  /** Marking the same names with the same time twice is marking them once. */
  lemma MarkAllTwice(students: map<string, Student>, names: seq<string>, t: string)
    requires forall n :: n in names ==> n in students
    ensures MarkAll(MarkAll(students, names, t), names, t) == MarkAll(students, names, t)
  {
    var once := MarkAll(students, names, t);
    var twice := MarkAll(once, names, t);
    assert twice.Keys == once.Keys;
    forall n | n in twice
      ensures twice[n] == once[n]
    {
    }
  }

  /** Saving again without any change in between leaves the outcome as it is. */
  lemma SaveTwice(m: Manager)
    requires Valid(m)
    ensures Save(Save(m).m) == Save(m)
  {
    var rows := BuildRows(m.names, m.students);
    if rows.Ok? {
      DBManager.SaveAllIdempotent(m.db, rows.value);
    }
  }

  /** A first detection that saves without raising leaves a row for the
      student on the date of its entry time, visible to `get_records_by_date`. */
  lemma PresenceIsRecorded(m: Manager, name: string, entryTime: string)
    requires Valid(m) && name in m.students && !IsPresent(m.students[name])
    ensures var o := ProcessPresence(m, name, entryTime);
      o.error.None? ==>
        && SplitPair(entryTime, ' ').Ok?
        && exists x :: x in GetRecordsByDate(o.m, SplitPair(entryTime, ' ').value.0)
             && x.prenom == m.students[name].prenom && x.nom == m.students[name].nom
  {
    var o := ProcessPresence(m, name, entryTime);
    if o.error.None? {
      var s := MarkPresent(m.students[name], entryTime);
      var m1 := o.m.(db := m.db);
      assert o == Save(m1);
      assert m1.students[name] == s;
      var rows := BuildRows(m1.names, m1.students).value;
      var present := PresentNames(m1.names, m1.students);
      assert name in present;
      var i := IndexOf(present, name);
      assert RowOf(s) == Ok(rows[i]);
      var date := SplitPair(entryTime, ' ').value.0;
      var k := DBManager.Key(s.prenom, s.nom, date);
      assert rows[i].Id() == k;
      DBManager.SaveAllStoresEveryKey(m.db, rows);
      assert k in o.m.db.rows;
      var x := DBManager.RecordOf(o.m.db, k);
      assert x in GetRecordsByDate(o.m, date);
    }
  }

  // ---------------------------------------------------------------------------
  // Read delegations
  // ---------------------------------------------------------------------------

  /** `get_all_records`: every stored row once, latest date first. */
  function GetAllRecords(m: Manager): (r: seq<DBManager.Record>)
    requires Valid(m)
    ensures DBManager.Sorted(DBManager.DateDescNomAsc, r)
    ensures Distinct(r) && |r| == |m.db.order|
    ensures forall x :: x in r <==> DBManager.Stored(m.db, x)
  {
    DBManager.GetAll(m.db)
  }

  /** `get_records_by_date`: the rows of one date, by last name. */
  function GetRecordsByDate(m: Manager, date: string): (r: seq<DBManager.Record>)
    requires Valid(m)
    ensures DBManager.Sorted(DBManager.NomAsc, r) && Distinct(r)
    ensures forall x :: x in r <==> DBManager.Stored(m.db, x) && x.date == date
  {
    DBManager.GetByDate(m.db, date)
  }

  /** `get_dates`: each date once, latest first. */
  function GetDates(m: Manager): (r: seq<string>)
    requires Valid(m)
    ensures DBManager.StrictlyDescending(r)
    ensures forall d :: d in r <==> exists k :: k in m.db.rows && k.date == d
  {
    DBManager.GetDates(m.db)
  }

  /** `get_stats`: the counts never exceed the rows stored, and on a valid
      store each status count is the number of stored rows with that `etat`. */
  function GetStats(m: Manager): (r: DBManager.Stats)
    ensures r.presents + r.absents + r.retards <= |m.db.rows|
    ensures r.totalEtudiants <= |m.db.rows|
    ensures DBManager.Valid(m.db) ==>
      && r.presents == DBManager.CountEtat(m.db.order, m.db.rows, "present")
      && r.absents == DBManager.CountEtat(m.db.order, m.db.rows, "absent")
      && r.retards == DBManager.CountEtat(m.db.order, m.db.rows, "retard")
  {
    if DBManager.Valid(m.db) then
      DBManager.GetStatsCounts(m.db);
      DBManager.GetStats(m.db)
    else
      DBManager.GetStats(m.db)
  }
}
