# Attendance pipeline — a Dafny model

This project models the decision logic of a face-recognition attendance system. A camera frame yields located faces. Each face is matched to the nearest stored encoding under a strict distance threshold, with a fallback over Haar-cascade regions. Recognised names are handed to an attendance manager, which marks each student present once. After every change the manager classifies each present student's entry time against a fixed schedule ("present", "retard" with minutes late, or "absent") and upserts one row per student and date into a store keyed by (prenom, nom, date). At the end of a session every student still unseen is forced to "<today> 23:00:00", which classifies as absent.

The earlier single-script version (`Main.py`) is modelled too. It has its own 08:05-based classifiers, its own row deduplication, and a rule for merging the new rows into the spreadsheet already on disk.

Everything is pure:

- Python exceptions are values of `Result<T>`, whose errors are `ValueError`, `IndexError` and `UnboundLocalError`.
- The clock is a parameter.
- The camera is a sequence of reads.
- Face encodings are represented by their distances to the stored encodings.

Modules, one per source file, plus the Python built-ins they rely on:

| module | models |
|---|---|
| `Wrappers` | `Option`, `Result` and the exceptions raised |
| `Builtins` | string `<`, `str.split`/`join`, `int()`, `list.remove` |
| `TimeOfDay` | "HH:MM:SS" texts and `_minutes_from_time` |
| `AttendanceStatus` | attendancestatus.py |
| `Students` | student.py |
| `DBManager` | dbmanager.py, the table as a map plus insertion order |
| `AttendanceManager` | attendancemanager.py |
| `FaceRecognizer` | facerecognizer.py |
| `VideoProcessor` | videoprocessor.py |
| `LegacyMain` | Main.py |

## Behaviour worth knowing

- **Morning start.** `AttendanceStatus` opens the morning window at "06:30:00" (minute 390), so 08:10 is 100 minutes late. Only the legacy script (`LegacyMain`) uses "08:05:00" (minute 485).
- **Table choice.** The manager always classifies with the morning table, whatever the time of day. Only the legacy script consults the clock to choose between its morning and afternoon tables.
- **Legacy morning table after noon.** In the legacy script, a time at or after 12:00:00, classified while the clock reads at most 12:00:00, matches no branch and raises `UnboundLocalError`.
- **Restarting capture.** `stop` releases the capture and `start` does not reopen it. A stopped processor that is started again yields no frames.

## Model

| member | source | states |
|---|---|---|
| Builtins.Split | student.py:8 | `str.split(sep)`: the pieces never contain the separator and joining them with it gives the text back |
| Builtins.SplitOfJoin | student.py:8 | splitting the join of separator-free pieces gives those pieces back (split is the inverse of join) |
| Builtins.SplitPair | attendancemanager.py:57 | unpacking `s.split(" ")` into two names succeeds exactly when there are two pieces, and then `s` is first + sep + second; otherwise ValueError |
| Builtins.SplitPairOfJoin | attendancemanager.py:57 | unpacking the split of a + sep + b, where neither piece holds the separator, gives (a, b) back |
| Builtins.RemoveFirst | attendancemanager.py:28 | `list.remove(x)` succeeds iff x is listed, and then cuts out exactly the first occurrence, keeping the order of the rest; otherwise ValueError |
| Builtins.RemoveFirstDistinct | attendancemanager.py:27-28 | on a list without repeats, removal leaves no repeats, drops x and keeps every other element |
| Builtins.ParseInt | attendancestatus.py:18 | `int(s)` succeeds exactly when `s`, stripped of whitespace, is an optional sign followed by digit groups; its value is then the groups' decimal value with the sign applied; otherwise ValueError |
| Builtins.ParseDigits | attendancestatus.py:18 | `int()` of a run of ASCII digits is its decimal value |
| TimeOfDay.MinutesFromTime | attendancestatus.py:16-18 | reads hours and minutes as the first two ':'-pieces: succeeds exactly when both pieces parse, giving hours·60 + minutes; a text without ':' whose first piece parses raises IndexError, any other failure ValueError |
| TimeOfDay.MinutesOfFormat | attendancestatus.py:16-18 | on a zero-padded "HH:MM:SS" text, `_minutes_from_time` gives hours·60 + minutes, ignoring seconds |
| TimeOfDay.FormatOrder | attendancestatus.py:24-26 | string `<` on zero-padded texts agrees with the order of the times they denote |
| TimeOfDay.FormatInjective | attendancestatus.py:24-26 | two zero-padded texts are equal exactly when the times are |
| TimeOfDay.SplitStamp | attendancemanager.py:57 | splitting "<date> <HH:MM:SS>" on the space gives back the date and the time text |
| AttendanceStatus.MatinDebutMinutes | attendancestatus.py:28 | the morning start "06:30:00" is minute 390 |
| AttendanceStatus.GetStatusMatin | attendancestatus.py:21-31 | before 06:30:00 present/0; from 06:30:00 to before 11:00:00 retard with minutes − 390, raising exactly when the minutes cannot be read; otherwise absent/0; lateness is 0 unless retard |
| AttendanceStatus.GetStatusAprem | attendancestatus.py:34-44 | before 14:30:00 present/0; from 14:30:00 to before 15:00:00 retard with minutes − 870, raising exactly when the minutes cannot be read; otherwise absent/0 |
| AttendanceStatus.MorningSchedule | attendancestatus.py:21-31 | reference table over the time of day; a late arrival is 0 to 269 minutes late |
| AttendanceStatus.AfternoonSchedule | attendancestatus.py:34-44 | reference table over the time of day; a late arrival is 0 to 29 minutes late |
| AttendanceStatus.StatusMatinFollowsSchedule | attendancestatus.py:21-31 | on every well-formed time the string-comparing classifier never raises and equals the morning reference table |
| AttendanceStatus.StatusApremFollowsSchedule | attendancestatus.py:34-44 | the same for the afternoon classifier |
| AttendanceStatus.StatusMonotone | attendancestatus.py:24-30 | a later arrival never gets a better status, and within the late window never fewer minutes |
| AttendanceStatus.SecondsIgnored | attendancestatus.py:16-18 | two times within the same minute are classified alike |
| AttendanceStatus.ForcedTimeIsAbsent | attendancestatus.py:23-30 | "23:00:00" is absent with no lateness under both tables |
| AttendanceStatus.MorningEdges | attendancestatus.py:21-31 | 06:29:59 present/0, 06:30:00 retard/0, 10:59:59 retard/269, 11:00:00 absent/0 |
| Students.NewStudent | student.py:7-12 | the full name is the input; prenom is the text before the first `_` (the whole name when there is none), nom the text between the first and second `_` (or ""); a new student is not present |
| Students.NewStudentOfLabel | student.py:8-10 | a name "prenom_nom[_…]" yields exactly that prenom and nom |
| Students.MarkPresent | student.py:14-18 | after marking, the student is present with that entry time and the identity is unchanged |
| Students.MarkPresentOverwrites | student.py:14-15 | marking twice keeps the second time: the student alone is not first-wins |
| DBManager.Empty | dbmanager.py:17-31 | a fresh table has no rows and satisfies the one-row-per-key invariant |
| DBManager.Upsert | dbmanager.py:40-56 | the key's row holds the new status and lateness, every other row is unchanged, and the row count grows by one exactly when the key was absent |
| DBManager.UpsertIdempotent | dbmanager.py:53-55 | upserting the same arguments twice equals upserting once |
| DBManager.SaveAll | dbmanager.py:58-62 | saving a list of rows keeps one row per key |
| DBManager.LastWinsSpec | dbmanager.py:60-62 | the rows saved cover exactly the keys in the list, and a key's stored values come from its last row in the list, with a missing lateness stored as 0 |
| DBManager.SaveAllAsMap | dbmanager.py:58-62 | `save_all` updates the table as the map union with the last-row-wins values of the list |
| DBManager.SaveAllStoresEveryKey | dbmanager.py:58-62 | after saving, every listed key has a row |
| DBManager.SaveAllKnownKeys | dbmanager.py:58-62 | saving rows whose keys are all stored adds no row |
| DBManager.SaveAllIdempotent | dbmanager.py:58-62 | saving the same list twice equals saving it once |
| DBManager.Records | dbmanager.py:67-75 | the records read are exactly the stored rows, each once |
| DBManager.Sort | dbmanager.py:67-86 | the result is sorted in the requested order and is a permutation of the input |
| DBManager.GetAll | dbmanager.py:67-75 | every stored row once, ordered by date descending then nom ascending |
| DBManager.GetByDate | dbmanager.py:77-86 | exactly the stored rows of that date, each once, ordered by nom ascending |
| DBManager.GetDates | dbmanager.py:88-94 | every stored date once, in strictly descending order, and nothing else |
| DBManager.GetStats | dbmanager.py:96-114 | the present, absent and late counts together never exceed the row count; the student count never exceeds it and is positive on a non-empty table |
| DBManager.UpsertNewKeyStats | dbmanager.py:96-108 | inserting a row with a new key adds one to the count of its status, leaves the other two counts unchanged, and adds one student exactly when no stored row has the same concatenation of prenom and nom |
| DBManager.UpsertExistingKeyStats | dbmanager.py:96-108 | re-upserting a stored key moves one row from the count of its old `etat` to that of its new one, and leaves the student count unchanged |
| DBManager.GetStatsCounts | dbmanager.py:100-108 | on a valid table each status count is the number of rows, counted one by one in insertion order, whose `etat` is exactly "present", "absent" or "retard" |
| DBManager.CountEtatMatches | dbmanager.py:100-108 | on keys without repeats, counting matching rows one by one agrees with the size of the set of matching keys |
| DBManager.TotalCountsConcatenations | dbmanager.py:99 | the student count is over `prenom‖nom` texts: "Anna" "Belle" and "Ann" "aBelle" are two rows but one student |
| AttendanceManager.BuildDict | attendancemanager.py:13 | the dictionary's keys are distinct, each maps to a student with that full name |
| AttendanceManager.BuildDictCovers | attendancemanager.py:13 | every given student's full name is a key |
| AttendanceManager.BuildDictValues | attendancemanager.py:13 | every value is one of the given students |
| AttendanceManager.BuildDictLastWins | attendancemanager.py:13 | under a repeated full name the last student given is kept |
| AttendanceManager.Init | attendancemanager.py:12-17 | every known name starts out listed as absent; when no student is present yet, a name is listed exactly when its student is unseen |
| AttendanceManager.PresentNames | attendancemanager.py:53-55 | the names of exactly the present students; on a dictionary without repeats each comes once, in dictionary order |
| AttendanceManager.RowOf | attendancemanager.py:57-66 | a present student's row carries its names, the date before the space, and the morning verdict on the time after it; it fails exactly when the split or the classifier raises |
| AttendanceManager.BuildRows | attendancemanager.py:48-66 | one row per present student in dictionary order, none for the others; it fails iff some present student's row fails |
| AttendanceManager.Save | attendancemanager.py:30-32 | rows are saved and the callback fires, or the exception leaves the table unchanged and nobody is notified |
| AttendanceManager.Discard | attendancemanager.py:27-28 | removing a name if listed leaves no repeats, drops the name and keeps the others |
| AttendanceManager.ProcessPresence | attendancemanager.py:22-32 | an unknown or already present name changes nothing, saves nothing and notifies nobody; otherwise only that student gets the time, only that name leaves the absent list, and the rows are saved |
| AttendanceManager.ProcessPresenceTracks | attendancemanager.py:22-28 | a name is listed as absent exactly when its student is unseen, before and after every detection |
| AttendanceManager.FirstDetectionWins | attendancemanager.py:25-26 | a second detection of the same student is a no-op |
| AttendanceManager.PresenceRun | videoprocessor.py:54-56 | a run of detections stops at the first exception and keeps the manager valid, with the same names and the same known students |
| AttendanceManager.RepeatedDetectionIsNoOp | attendancemanager.py:24-25 | a detection of a name already detected earlier in the run leaves the run's final state and exception as they would be without it |
| AttendanceManager.RunFirstDetectionWins | attendancemanager.py:22-28 | over any run of detections without an exception, an unseen student ends with the time of its first detection (none if never detected) and a present one keeps its time |
| AttendanceManager.MarkAll | attendancemanager.py:37-39 | every listed student is marked with the forced time and no other is touched |
| AttendanceManager.ProcessAbsences | attendancemanager.py:34-43 | every listed student gets "<today> 23:00:00", students already removed from the list are untouched, the list itself is kept, and the rows are saved |
| AttendanceManager.AbsencesMarkEveryone | attendancemanager.py:34-39 | after finalisation every student is present |
| AttendanceManager.PresenceAfterAbsencesIsNoOp | attendancemanager.py:22-39 | after finalisation no detection changes anything |
| AttendanceManager.ProcessAbsencesIdempotent | attendancemanager.py:34-43 | finalising twice on the same day gives the same students, rows and table as finalising once |
| AttendanceManager.GetAllRecords | attendancemanager.py:73-74 | every stored row exactly once, newest date first and by last name within a date |
| AttendanceManager.GetRecordsByDate | attendancemanager.py:76-77 | exactly the stored rows of the date, each once, by last name |
| AttendanceManager.GetDates | attendancemanager.py:79-80 | every date that has a row, each once, newest first |
| AttendanceManager.GetStats | attendancemanager.py:82-83 | the status counts together, and the student count, never exceed the rows stored; on a valid store each status count is the number of rows with that `etat` |
| AttendanceManager.PresenceIsRecorded | attendancemanager.py:22-32 | after a first detection that saves without raising, the entry time has a date part and the store holds a row of that date for the student's prenom and nom |
| FaceRecognizer.ArgMin | facerecognizer.py:52 | `np.argmin`: an index of the least distance, the first one on ties |
| FaceRecognizer.BestMatch | facerecognizer.py:47-53 | an empty store gives (None, ∞); otherwise the first closest name with its distance |
| FaceRecognizer.Fallback | facerecognizer.py:77-85 | the cascade fallback ends with the least region distance, from the earliest region achieving it, or "Inconnu" at ∞ when no region yields an encoding |
| FaceRecognizer.Label | facerecognizer.py:66-88 | a face's own match is taken when strictly under the threshold, else the fallback's when strictly under, else "Inconnu"; the label is always "Inconnu" or a stored name |
| FaceRecognizer.IdentifyFaces | facerecognizer.py:55-90 | one (label, box) per located face paired with an encoding, in order, box unchanged, as many as the shorter list |
| FaceRecognizer.LabelsAreKnownOrUnknown | facerecognizer.py:47-90 | every label is "Inconnu" or a stored name, and with an empty store every face is "Inconnu" |
| FaceRecognizer.ThresholdIsStrict | facerecognizer.py:69-87 | a face exactly at the threshold, with no region closer, is "Inconnu" |
| VideoProcessor.Forward | videoprocessor.py:52-56 | every handed-over detection is recognised and carries the frame's one timestamp; a name is handed over iff it is recognised in the frame |
| VideoProcessor.ForwardInOrder | videoprocessor.py:54-56 | forwarding keeps exactly the non-"Inconnu" labels, in label order |
| VideoProcessor.ProcessFrame | videoprocessor.py:46-63 | the labels are the recogniser's, the flags are untouched and the students keep their names |
| VideoProcessor.FrameMarksRecognised | videoprocessor.py:52-56 | after a frame without an exception an unseen student recognised in it carries the frame's timestamp, a present one keeps its time, and the rest stay unseen |
| VideoProcessor.RecognisedTwiceMarkedOnce | videoprocessor.py:54-56 | a student recognised twice in one frame ends with the frame's timestamp, and the frame has the same effect and exception as the frame without the second face |
| VideoProcessor.RepeatedLabelIsNoOp | videoprocessor.py:54-56 | forwarding a frame whose label j repeats an earlier recognised label acts as forwarding it without label j |
| VideoProcessor.Start | videoprocessor.py:89-91 | sets the running flag without reopening the capture |
| VideoProcessor.Stop | videoprocessor.py:93-96 | clears the running flag and releases the capture |
| VideoProcessor.GetAnnotatedFrame | videoprocessor.py:98-109 | nothing, and no change, when not running, when the capture is closed or when the read fails; otherwise the processed frame |
| VideoProcessor.RestartYieldsNothing | videoprocessor.py:89-109 | after stop then start no frame is ever returned |
| VideoProcessor.RunLoop | videoprocessor.py:73-84 | a loop that ends without an exception has released the capture; on a released capture it does nothing else |
| VideoProcessor.Run | videoprocessor.py:68-84 | the same for `run`, which first sets the running flag |
| VideoProcessor.Finalize | videoprocessor.py:114-121 | the state is the one after the absences pass and the error is the one it raised; without an error the report lists exactly the stored rows, newest date first; when the absent list tracked the unseen students, every student ends up present |
| LegacyMain.StatutEtudiant | Main.py:124-144 | the minutes are read first, so a malformed time raises whatever the branch; up to noon: before 08:05 present, then retard with minutes − 485 until 11:00, absent until 12:00, and UnboundLocalError from 12:00; after noon the afternoon table |
| LegacyMain.MorningBranch | Main.py:128-135 | the decision list of the legacy morning table, ending in UnboundLocalError |
| LegacyMain.AfternoonBranch | Main.py:136-143 | the decision list of the afternoon table |
| LegacyMain.AfternoonAgrees | Main.py:136-143 | after noon the legacy classifier equals the newer `get_status_aprem` on every readable time |
| LegacyMain.LegacyMorningSchedule | Main.py:128-135 | reference table: a late arrival is 0 to 174 minutes late, and there is no status exactly from 12:00:00 on |
| LegacyMain.StatutFollowsSchedule | Main.py:124-144 | on every well-formed time the legacy classifier follows the legacy morning table up to noon and the afternoon table after it |
| LegacyMain.MorningBranchFollows | Main.py:128-135 | on every well-formed time the string-comparing morning branch equals the legacy morning table |
| LegacyMain.AfternoonBranchFollows | Main.py:136-143 | on every well-formed time the string-comparing afternoon branch equals the afternoon table |
| LegacyMain.StatutEtudiant1 | Main.py:146-166 | the first status is always absent; it raises exactly when the minutes cannot be read |
| LegacyMain.Branch1 | Main.py:150-164 | second status none before 11:00, present until 14:30, retard until 15:00 with minutes − 870, then absent; lateness minutes − 485 in the morning late window |
| LegacyMain.Schedule1 | Main.py:146-166 | reference table: first status absent, a late afternoon arrival 0 to 29 minutes late |
| LegacyMain.Statut1FollowsSchedule | Main.py:146-166 | on every well-formed time `statutEtudiant1` equals the reference table |
| LegacyMain.Branch1Follows | Main.py:150-164 | on every well-formed time the decision list of `statutEtudiant1` equals its reference table |
| LegacyMain.FindKey | Main.py:101-104 | the index of the first row with the key, or none when no row has it |
| LegacyMain.MergeRow | Main.py:99-112 | the first existing row with the new row's key is replaced by the new row carrying the existing cour_1; otherwise the row is appended |
| LegacyMain.Merge | Main.py:99-112 | the merged sheet is never shorter than the sheet on disk and grows by at most one row per new row |
| LegacyMain.MergeRowSpec | Main.py:99-112 | one merge step keeps keys unique, adds exactly the new key, keeps every cour_1 and touches no row of another key |
| LegacyMain.MergeSpec | Main.py:99-112 | merging into a sheet without repeated keys leaves none, holds a row for every key of either side, never changes a cour_1 already on disk, and leaves rows of other keys unchanged |
| LegacyMain.NameParts | Main.py:63-64 | the first and second `_`-separated pieces; IndexError exactly when the name has no underscore |
| LegacyMain.NamePartsAsStudent | Main.py:63-64 | the script splits a name exactly as the newer Student class does |
| LegacyMain.NewRow | Main.py:80-88 | a first-seen student's row uses `statutEtudiant` up to noon (no cour_2) and `statutEtudiant1` after it |
| LegacyMain.FillRow | Main.py:71-78 | a repeated (prenom, nom, date) fills an empty cour_2, then an empty cour_1, each with the status `statutEtudiant` gives its time, and sets tempRetard to that call's lateness; a filled course is never overwritten and a complete row stays as it is; it raises exactly when a needed call does |
| LegacyMain.AddEntry | Main.py:62-88 | with a new key the student's `NewRow` is appended; otherwise the first row with the key is replaced by its `FillRow` and every other row is unchanged; the name needs an underscore and the time exactly one space |
| LegacyMain.BuildLibrary | Main.py:62-88 | the loop raises when some student's name has no underscore or its time does not split at one space; the rows given keep their keys and come first |
| LegacyMain.BuildLibraryKeys | Main.py:62-88 | the keys of the rows built are exactly those of the rows given and of the students |
| LegacyMain.BuildLibraryOk | Main.py:62-88 | the loop raises nothing when every student's name and time split and every time is readable by both classifiers |
| LegacyMain.ReadableTimes | Main.py:124-166 | a well-formed time is readable exactly when the clock is after noon or the time is before noon |
| LegacyMain.BuildLibraryFresh | Main.py:80-88 | students with new, pairwise distinct keys get, in order, the rows `NewRow` builds for them |
| LegacyMain.BuildLibraryUnique | Main.py:62-88 | the rows built never repeat a (prenom, nom, date) and are at most as many as the students |
| LegacyMain.ProfileEtudiant | Main.py:59-120 | the rows alone without a sheet, otherwise the sheet with the rows merged in; it raises exactly when building the rows does |
| LegacyMain.ProfileKeepsSheet | Main.py:59-120 | the saved sheet never gets a repeated key and keeps every cour_1 already on disk |
| LegacyMain.RecordAndSave | Main.py:38-54 | the name is recorded first and stays recorded whatever is raised after; the sheet changes only on success |
| LegacyMain.ProcessAttendance | Main.py:38-47 | a recorded name is a no-op; otherwise it is recorded and the sheet is what recording and saving writes; if that raises, so does the call; otherwise it raises ValueError exactly when the name is not in `listeEtudiant`, and on success only the first occurrence of the name is cut from the list |
| LegacyMain.AttendanceOnlyOnce | Main.py:39 | a second call for the same name is a no-op |
| LegacyMain.ProcessMissing | Main.py:48-55 | never touches `listeEtudiant`, never overwrites a recorded time, and records a new name as `process_attendance` does |
| LegacyMain.NeverOverwrites | Main.py:38-50 | earlier entries are a prefix of the new ones and a name is never recorded twice |

## Left out

- Camera, OpenCV and face_recognition calls, drawing, windows and the key poll: the located faces, encodings, cascade regions, reads and the 'q' key are inputs (`Frame`, `Tick`).
- `np.linalg.norm` and floating point: distances are exact reals given per stored encoding, ∞ is its own constructor, and NaN is not modelled.
- `_load_images` and `load_images_from_directory` (file listing, extensions, encodings): the store is given as names in load order.
- SQLite mechanics (connections, SQL text, atomicity) and the `DEFAULT z0` column typo, which is never reached because every upsert supplies a lateness.
- DBManager.GetAll, DBManager.GetByDate: ties in `ORDER BY` are broken by insertion order, which SQLite leaves unspecified; the string order is code-point order, as SQLite's default collation is for ASCII.
- pandas and Excel I/O: the sheet on disk is an optional list of rows, and type coercions on reading it back (empty cells as NaN, dates as timestamps) are not modelled.
- `datetime.now()`: "now" and "today" are parameters; the legacy script reads the clock several times in one call, and the model uses one value for all of them.
- Builtins.ParseInt: only space, \t, \n, \v, \f, \r and the separators 0x1C-0x1F count as whitespace, and only 0-9 as digits; Python's `int()` also accepts non-ASCII Unicode whitespace and decimal digits.
- LegacyMain.BuildLibrary: success is stated by a necessary condition (every name and time split) and a sufficient one (`BuildLibraryOk`), not as one exact condition, because a repeated key whose row is already complete calls no classifier at all.
- Console output, the `on_update` callback's thread hop (it becomes the `notified` flag), the hard-coded camera URL, and the Tkinter interface.
- The top-level loop of the legacy script (capture, drawing, final `process_missing` pass, final spreadsheet print): its matching repeats the newer recogniser's policy, and only the functions it calls are modelled.
- VideoProcessor.RunLoop: a finite list of reads stands for the camera stream; running out of reads counts as a failed read.
