/** Capture control and per-frame forwarding (class VideoProcessor).

    The capture device is reduced to whether it is open and, for each read,
    the frame it returns (none when the read fails). The clock is a
    parameter: `now` is the "%Y-%m-%d %H:%M:%S" text taken once per frame.
 */
module VideoProcessor {
  import opened Wrappers
  import opened Students
  import AM = AttendanceManager
  import FR = FaceRecognizer

  datatype Processor = Processor(running: bool, capOpened: bool, attendance: AM.Manager)

  /** What the recogniser sees in one frame. */
  datatype Frame = Frame(
    locations: seq<FR.Box>,
    encodings: seq<FR.Encoding>,
    regions: seq<Option<FR.Encoding>>)

  predicate FrameFits(rec: FR.Recognizer, f: Frame)
  {
    && (forall i :: 0 <= i < |f.encodings| ==> FR.Fits(rec, f.encodings[i]))
    && FR.AllFit(rec, f.regions)
  }

  /** The processed frame: the labels drawn on it, the new state and the
      exception raised, if any. */
  datatype FrameResult = FrameResult(p: Processor, labels: seq<(string, FR.Box)>, error: Option<PyError>)

  /** The detections handed to `process_presence`: every recognised name, in
      order and with repeats, each with the frame's one timestamp. */
  function Forward(labels: seq<(string, FR.Box)>, now: string): (ds: seq<(string, string)>)
    ensures forall k :: 0 <= k < |ds| ==> ds[k].0 != FR.Unknown && ds[k].1 == now
    ensures forall n :: n != FR.Unknown ==> ((exists k :: 0 <= k < |labels| && labels[k].0 == n) <==> AM.FirstTime(ds, n) == Some(now))
    ensures forall n :: (forall k :: 0 <= k < |labels| ==> labels[k].0 != n) ==> AM.FirstTime(ds, n) == None
  {
    if |labels| == 0 then []
    else
      var rest := Forward(labels[1..], now);
      assert forall k :: 1 <= k < |labels| ==> labels[1..][k - 1] == labels[k];
      if labels[0].0 != FR.Unknown then [(labels[0].0, now)] + rest else rest
  }

  /** `n` is among the recognised names of a frame's labels. */
  predicate Recognised(labels: seq<(string, FR.Box)>, n: string)
  {
    n != FR.Unknown && exists k :: 0 <= k < |labels| && labels[k].0 == n
  }

  /** Forwarding distributes over concatenation and keeps exactly the
      recognised labels: the names handed over are those not "Inconnu", in
      the order of the labels. */
  lemma {:induction false} ForwardInOrder(a: seq<(string, FR.Box)>, b: seq<(string, FR.Box)>, now: string)
    ensures Forward(a + b, now) == Forward(a, now) + Forward(b, now)
    ensures forall l: (string, FR.Box) :: l.0 != FR.Unknown ==> Forward([l], now) == [(l.0, now)]
    ensures forall l: (string, FR.Box) :: l.0 == FR.Unknown ==> Forward([l], now) == []
  {
    ForwardConcat(a, b, now);
    forall l: (string, FR.Box)
      ensures Forward([l], now) == if l.0 != FR.Unknown then [(l.0, now)] else []
    {
      assert [l][1..] == [];
    }
  }

  lemma {:induction false} ForwardConcat(a: seq<(string, FR.Box)>, b: seq<(string, FR.Box)>, now: string)
    ensures Forward(a + b, now) == Forward(a, now) + Forward(b, now)
  {
    if |a| > 0 {
      assert (a + b)[1..] == a[1..] + b;
      assert (a + b)[0] == a[0];
      ForwardConcat(a[1..], b, now);
    } else {
      assert a + b == b;
    }
  }

  /** `_process_frame`: identify the faces, then forward each recognised name
      with the same timestamp; an exception stops the loop and leaves the
      frame. The running and capture flags are untouched (see
      `FrameMarksRecognised` for what happens to the students). */
  function ProcessFrame(p: Processor, rec: FR.Recognizer, f: Frame, now: string): (r: FrameResult)
    requires AM.Valid(p.attendance) && FrameFits(rec, f)
    ensures AM.Valid(r.p.attendance)
    ensures r.p.running == p.running && r.p.capOpened == p.capOpened
    ensures r.labels == FR.IdentifyFaces(rec, f.locations, f.encodings, f.regions)
    ensures r.p.attendance.students.Keys == p.attendance.students.Keys
  {
    var labels := FR.IdentifyFaces(rec, f.locations, f.encodings, f.regions);
    var run := AM.PresenceRun(p.attendance, Forward(labels, now));
    FrameResult(p.(attendance := run.m), labels, run.error)
  }

  /** After a frame processed without an exception, a student already present
      keeps its time, an unseen student recognised in the frame has the
      frame's timestamp, and every other student is still unseen. */
  lemma FrameMarksRecognised(p: Processor, rec: FR.Recognizer, f: Frame, now: string, n: string)
    requires AM.Valid(p.attendance) && FrameFits(rec, f)
    requires n in p.attendance.students
    ensures var r := ProcessFrame(p, rec, f, now);
      var before := p.attendance.students[n];
      r.error.None? ==>
        r.p.attendance.students[n].entryTime ==
          (if IsPresent(before) then before.entryTime
           else if Recognised(r.labels, n) then Some(now)
           else None)
  {
    var labels := FR.IdentifyFaces(rec, f.locations, f.encodings, f.regions);
    var ds := Forward(labels, now);
    AM.RunFirstDetectionWins(p.attendance, ds);
    var before := p.attendance.students[n];
    if !IsPresent(before) {
      if Recognised(labels, n) {
        assert AM.FirstTime(ds, n) == Some(now);
      } else if n == FR.Unknown {
        assert forall k :: 0 <= k < |ds| ==> ds[k].0 != n;
        UnknownNeverForwarded(ds, n);
      } else {
        assert AM.FirstTime(ds, n) == None;
      }
    }
  }

  lemma {:induction false} UnknownNeverForwarded(ds: seq<(string, string)>, n: string)
    requires forall k :: 0 <= k < |ds| ==> ds[k].0 != n
    ensures AM.FirstTime(ds, n) == None
  {
    if |ds| > 0 {
      UnknownNeverForwarded(ds[1..], n);
    }
  }

  /** A student recognised twice in the same frame is marked once, with the
      frame's timestamp: the second recognition changes nothing, so the
      frame has the same effect and the same exception as the frame without
      that face. */
  lemma RecognisedTwiceMarkedOnce(p: Processor, rec: FR.Recognizer, f: Frame, now: string, n: string, i: int, j: int)
    requires AM.Valid(p.attendance) && FrameFits(rec, f)
    requires n in p.attendance.students && !IsPresent(p.attendance.students[n]) && n != FR.Unknown
    requires var labels := FR.IdentifyFaces(rec, f.locations, f.encodings, f.regions);
      0 <= i < j < |labels| && labels[i].0 == n && labels[j].0 == n
    ensures var r := ProcessFrame(p, rec, f, now);
      r.error.None? ==> r.p.attendance.students[n].entryTime == Some(now)
    ensures var labels := FR.IdentifyFaces(rec, f.locations, f.encodings, f.regions);
      var r := ProcessFrame(p, rec, f, now);
      var without := AM.PresenceRun(p.attendance, Forward(labels[..j] + labels[j + 1..], now));
      r.p.attendance == without.m && r.error == without.error
  {
    FrameMarksRecognised(p, rec, f, now, n);
    var labels := FR.IdentifyFaces(rec, f.locations, f.encodings, f.regions);
    RepeatedLabelIsNoOp(p.attendance, labels, now, n, i, j);
  }

  /** The detections of a frame in which label `j` repeats the recognised
      label `i` act as the detections without label `j`. */
  lemma RepeatedLabelIsNoOp(m: AM.Manager, labels: seq<(string, FR.Box)>, now: string, n: string, i: int, j: int)
    requires AM.Valid(m) && n != FR.Unknown
    requires 0 <= i < j < |labels| && labels[i].0 == n && labels[j].0 == n
    ensures AM.PresenceRun(m, Forward(labels, now)) == AM.PresenceRun(m, Forward(labels[..j] + labels[j + 1..], now))
  {
    var a, b := Forward(labels[..j], now), Forward(labels[j + 1..], now);
    ForwardAround(labels, j, now);
    assert exists k :: 0 <= k < |a| && a[k].0 == n by {
      assert labels[..j][i].0 == n;
      FirstTimeListed(a, n);
    }
    AM.RepeatedDetectionIsNoOp(m, a, (n, now), b);
  }

  /** Forwarding a frame's labels around a recognised label at `j`. */
  lemma ForwardAround(labels: seq<(string, FR.Box)>, j: int, now: string)
    requires 0 <= j < |labels| && labels[j].0 != FR.Unknown
    ensures Forward(labels, now) == Forward(labels[..j], now) + [(labels[j].0, now)] + Forward(labels[j + 1..], now)
    ensures Forward(labels[..j] + labels[j + 1..], now) == Forward(labels[..j], now) + Forward(labels[j + 1..], now)
  {
    var front, back := labels[..j], labels[j + 1..];
    assert labels == front + [labels[j]] + back;
    ForwardConcat(front + [labels[j]], back, now);
    ForwardConcat(front, [labels[j]], now);
    ForwardConcat(front, back, now);
    assert [labels[j]][1..] == [];
  }

  /** A name with a first detection time is among the detections. */
  lemma {:induction false} FirstTimeListed(ds: seq<(string, string)>, n: string)
    requires AM.FirstTime(ds, n).Some?
    ensures exists k :: 0 <= k < |ds| && ds[k].0 == n
  {
    if ds[0].0 != n {
      FirstTimeListed(ds[1..], n);
      var k :| 0 <= k < |ds[1..]| && ds[1..][k].0 == n;
      assert ds[k + 1].0 == n;
    }
  }

  /** `start`: sets the running flag; it does not reopen a released capture. */
  function Start(p: Processor): (p': Processor)
    ensures p'.running && p'.capOpened == p.capOpened && p'.attendance == p.attendance
  {
    p.(running := true)
  }

  /** `stop`: clears the running flag and releases the capture. */
  function Stop(p: Processor): (p': Processor)
    ensures !p'.running && !p'.capOpened && p'.attendance == p.attendance
  {
    p.(running := false, capOpened := false)
  }

  /** `get_annotated_frame` with the capture's read as `read`: nothing when
      not running, when the capture is closed or when the read fails, and
      the processed frame otherwise. */
  function GetAnnotatedFrame(p: Processor, rec: FR.Recognizer, read: Option<Frame>, now: string): (r: Option<FrameResult>)
    requires AM.Valid(p.attendance)
    requires read.Some? ==> FrameFits(rec, read.value)
    ensures r.None? <==> !p.running || !p.capOpened || read.None?
    ensures r.Some? ==> r.value == ProcessFrame(p, rec, read.value, now)
  {
    if !p.running || !p.capOpened then None
    else if read.None? then None
    else Some(ProcessFrame(p, rec, read.value, now))
  }

  /** Stopping and starting again gives a running processor that never
      yields a frame, whatever the device would return. */
  lemma RestartYieldsNothing(p: Processor, rec: FR.Recognizer, read: Option<Frame>, now: string)
    requires AM.Valid(p.attendance)
    requires read.Some? ==> FrameFits(rec, read.value)
    ensures var q := Start(Stop(p));
      q.running && GetAnnotatedFrame(q, rec, read, now).None? && q.attendance == p.attendance
  {
  }

  /** One step of `run`'s loop as the device and keyboard report it: the
      frame read (none when the read fails), the timestamp, and whether 'q'
      was pressed after showing it. */
  datatype Tick = Tick(read: Option<Frame>, now: string, quit: bool)

  predicate TicksFit(rec: FR.Recognizer, ticks: seq<Tick>)
  {
    forall k :: 0 <= k < |ticks| && ticks[k].read.Some? ==> FrameFits(rec, ticks[k].read.value)
  }

  /** The loop of `run`: process frames while running until a read fails (a
      released capture never returns one; running ticks out counts as a
      failed read), clearing the flag when 'q' is pressed, then release the
      capture. An exception from a frame leaves at once, without releasing
      it. A failed read leaves the running flag set. */
  function RunLoop(p: Processor, rec: FR.Recognizer, ticks: seq<Tick>): (r: (Processor, Option<PyError>))
    requires AM.Valid(p.attendance) && TicksFit(rec, ticks)
    ensures AM.Valid(r.0.attendance)
    ensures r.1.None? ==> !r.0.capOpened
    ensures !p.capOpened ==> r == (Stop(p).(running := p.running), None)
    decreases |ticks|
  {
    if !p.running then (p.(capOpened := false), None)
    else if |ticks| == 0 || !p.capOpened || ticks[0].read.None? then (p.(capOpened := false), None)
    else
      var fr := ProcessFrame(p, rec, ticks[0].read.value, ticks[0].now);
      if fr.error.Some? then (fr.p, fr.error)
      else
        var next := if ticks[0].quit then fr.p.(running := false) else fr.p;
        assert TicksFit(rec, ticks[1..]) by {
          assert forall k :: 0 <= k < |ticks| - 1 ==> ticks[1..][k] == ticks[k + 1];
        }
        RunLoop(next, rec, ticks[1..])
  }

  /** `run`: set the running flag and enter the loop. */
  function Run(p: Processor, rec: FR.Recognizer, ticks: seq<Tick>): (r: (Processor, Option<PyError>))
    requires AM.Valid(p.attendance) && TicksFit(rec, ticks)
    ensures AM.Valid(r.0.attendance)
    ensures r.1.None? ==> !r.0.capOpened
    ensures !p.capOpened ==> r == (Start(Stop(p)), None)
  {
    RunLoop(p.(running := true), rec, ticks)
  }

  /** The result of `finalize`: the state after the absences pass and the
      report it prints, or the exception it raised. */
  datatype Report = Report(p: Processor, records: seq<AM.DBManager.Record>, error: Option<PyError>)

  /** `finalize` with today's date: the absences pass, then every record of
      the store, newest date first. */
  function Finalize(p: Processor, today: string): (r: Report)
    requires AM.Valid(p.attendance)
    ensures AM.Valid(r.p.attendance)
    ensures r.p.running == p.running && r.p.capOpened == p.capOpened
    ensures r.p.attendance == AM.ProcessAbsences(p.attendance, today).m
    ensures r.error == AM.ProcessAbsences(p.attendance, today).error
    ensures r.error.None? ==> AM.DBManager.Sorted(AM.DBManager.DateDescNomAsc, r.records)
    ensures r.error.None? ==> forall x :: x in r.records <==> AM.DBManager.Stored(r.p.attendance.db, x)
    ensures r.error.Some? ==> r.records == []
    ensures AM.Tracking(p.attendance) ==>
      forall n :: n in r.p.attendance.students ==> IsPresent(r.p.attendance.students[n])
  {
    var o := AM.ProcessAbsences(p.attendance, today);
    assert AM.Tracking(p.attendance) ==> forall n :: n in o.m.students ==> IsPresent(o.m.students[n]) by {
      if AM.Tracking(p.attendance) {
        AM.AbsencesMarkEveryone(p.attendance, today);
      }
    }
    var p' := p.(attendance := o.m);
    if o.error.Some? then Report(p', [], o.error)
    else Report(p', AM.GetAllRecords(o.m), None)
  }
}
