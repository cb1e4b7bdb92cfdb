# Face attendance: ledger and recognition control, in Dafny

This project models the decision logic of a small face-recognition attendance
tool. It has two parts.

- **The attendance ledger** (`src/attendance.py`). The `attendance` table is a
  sequence of rows `(user, date, punch_in, punch_out)` in insertion order.
  `mark_attendance(user)` becomes a pure function from the table, the user and
  the clock readings `today` / `timeNow` to the new table and the reported
  action `PUNCH-IN`, `PUNCH-OUT` or `ALREADY MARKED`. Each `(user, date)` key
  runs a three-state machine: no record, then punched in, then punched out,
  which is terminal. `init_db` is create-if-absent on a database whose table may
  be missing.
- **The two camera loops of the application** (`app.py`). Each camera frame is
  abstracted to what the face model reports for it. That is either "no single
  face" or a face with its descriptor and a per-frame blink flag.
  - The Register loop collects descriptors until exactly twenty single-face
    frames have been seen. It then assigns their aggregate to one key of the
    known-faces dict.
  - The Mark Attendance loop carries the sticky `blinked` flag. It stops at the
    first frame, and the first name in dict order, where a blink has been seen
    and the distance is below 0.4. It then calls the ledger once.

The known-faces dict is modelled as an insertion-ordered sequence of
`(name, embedding)` entries with unique names. Assigning an existing key keeps
its position and assigning a new key appends. `AsMap` gives its view as a
Dafny `map`.

Modules, one per concern:

| file | module | models |
|---|---|---|
| optional.dfy | `Optional` | nullable values |
| sequences.dfy | `Sequences` | first-match linear scan: `fetchone()` after a `WHERE`, and the scan over `known_faces.items()` |
| attendance.dfy | `Attendance` | `init_db`, `mark_attendance`, the per-key state machine, table invariants |
| attendance_history.dfy | `AttendanceHistory` | successive calls of the ledger |
| known_faces.dfy | `KnownFaces` | the insertion-ordered name → embedding dict |
| observations.dfy | `Observations` | per-frame results of the face model |
| registration.dfy | `Registration` | the Register loop |
| recognition.dfy | `Recognition` | the Mark Attendance loop and its single ledger call |

The SQL statements are modelled as SQLite executes them on this table:
- `SELECT … WHERE user=? AND date=?` followed by `fetchone()` yields the first
  matching row in rowid order. SQL itself leaves the order unspecified without
  `ORDER BY`. The order here follows from SQLite scanning this unindexed table
  in rowid order. It only matters when a key has more than one row.
- `INSERT` appends a row.
- `UPDATE … WHERE user=? AND date=?` sets `punch_out` on every row with that
  user and date. Again, this only matters when a key has more than one row,
  and the ledger alone never creates such rows (`ReplayConsistent`).

What the application loops do:
- The Mark Attendance loop marks only the first name, in dict order, whose
  distance is below the threshold in the first qualifying frame, and stops.
- The Register loop keeps reading frames until twenty descriptors are in hand.
  Over a finite prefix of frames that has not yet produced twenty, this is the
  `Collecting` outcome.
- After a match, the application shows the matched name and the string
  `mark_attendance` returned. The session result carries both.

## Model

| member | source | states |
|---|---|---|
| `Attendance.InitDb` | src/attendance.py:6-18 | After set-up the table exists. An existing table and its rows are left exactly as they were. A missing one is created empty. |
| `Attendance.InitDbIdempotent` | src/attendance.py:9-16 | Running the schema set-up twice gives the same database as running it once. Existing rows survive it. |
| `Attendance.Text` | src/attendance.py:35-43 | The returned string is "PUNCH-IN" exactly for a punch-in, "PUNCH-OUT" exactly for a punch-out, and "ALREADY MARKED" exactly when nothing was recorded. So the string identifies the action. |
| `Attendance.SetPunchOut` | src/attendance.py:37-40 | The UPDATE sets `punch_out` to the given time on every row with the user and date. All other rows are left as they were, and no row is added or removed. |
| `Attendance.FindRow` | src/attendance.py:27-28 | The lookup returns the first row whose user and date both match, and no earlier row matches. It finds nothing exactly when no row in the table has that key. |
| `Attendance.MarkAttendance` | src/attendance.py:20-47 | The reported action is the state machine's action for the key's current state, and the key moves to the next state. With no row, exactly one row `(user, today, timeNow, NULL)` is appended and the result is PUNCH-IN. With a row lacking punch-out, no row is added, the key's rows get `punch_out = timeNow`, and the result is PUNCH-OUT. With a punched-out row, the table is unchanged and the result is ALREADY MARKED. Every existing row keeps its user, date and punch-in. Rows of other keys are identical. |
| `Attendance.MarkLeavesOtherKeys` | src/attendance.py:27-41 | A call for `(user, today)` leaves the state of every other `(user, date)` key unchanged. So another day, or another user, gets an independent record. |
| `Attendance.MarkPreservesConsistency` | src/attendance.py:30-41 | One call keeps the invariant "at most one row per (user, date), and every row has a punch-in". Hence no row has a punch-out without a punch-in. |
| `AttendanceHistory.Replay` | src/attendance.py:30-43 | Over any run of calls, one action is reported per call. No row is ever removed. No row's user, date or punch-in is ever modified. |
| `AttendanceHistory.ReplayKeyState` | src/attendance.py:27-43 | After any run of calls, a key's state is its starting state advanced once per call for that key. Interleaved calls for other keys have no effect on it. |
| `AttendanceHistory.ReplayActions` | src/attendance.py:30-43 | Call number k reports the state machine's action for its key, given how many earlier calls had that key. |
| `AttendanceHistory.FromEmptyActions` | src/attendance.py:30-43 | From an empty table, a call reports PUNCH-IN if it is the first for its (user, date), PUNCH-OUT if the second, and ALREADY MARKED otherwise. |
| `AttendanceHistory.SameDayActions` | src/attendance.py:30-43 | Successive calls for one user on one day with no record give PUNCH-IN, then PUNCH-OUT, then ALREADY MARKED for the third and every later call. |
| `AttendanceHistory.ThreeCallsSameDay` | src/attendance.py:30-43 | Three calls on one day report PUNCH-IN, PUNCH-OUT, ALREADY MARKED. They leave exactly one new row, with the first call's time as punch-in and the second's as punch-out. |
| `AttendanceHistory.ReplaySnoc` | src/attendance.py:20-47 | One more call extends a run of calls by exactly that call's effect on the table, and its action is reported last. |
| `AttendanceHistory.ThreeCallsSteps` | src/attendance.py:30-43 | Three calls on a fresh key report PUNCH-IN, PUNCH-OUT and ALREADY MARKED in turn. The third call leaves the table as the second left it. |
| `AttendanceHistory.PunchInThenOut` | src/attendance.py:31-40 | A punch-in followed by a punch-out on a fresh key adds a single row carrying both times. It changes no other row. |
| `AttendanceHistory.ReplayConsistent` | src/attendance.py:27-41 | Any run of calls from a consistent table keeps at most one row per (user, date). Every row keeps a punch-in, and no row has a punch-out without one. |
| `AttendanceHistory.FromEmptyConsistent` | src/attendance.py:9-41 | Every table the ledger builds from the freshly created empty table satisfies the invariant. |
| `KnownFaces.Put` | app.py:49 | Assigning `known_faces[name]` keeps names unique. A new name goes last and nothing else moves. An existing name keeps its position, and every other entry is unchanged. |
| `KnownFaces.PutAsMap` | app.py:49 | In the map view, the assignment sets `name` to the new embedding. It overwrites any previous entry and leaves every other name's embedding unchanged. |
| `KnownFaces.ReplaceAsMap` | app.py:49 | Overwriting the value at an existing name's position is, in the map view, an update of exactly that name. |
| `KnownFaces.AsMapLookup` | app.py:72 | Iterating the dict yields each name with the embedding the map view holds for it. |
| `Observations.FaceEmbeddings` | app.py:35-44 | Every collected descriptor is the descriptor of a single-face frame. A run of single-face frames gives one descriptor per frame. A run of frames without a single face gives none. |
| `Observations.FaceEmbeddingsSnoc` | app.py:40-44 | A frame with no single face adds no descriptor. A frame with one adds its descriptor at the end. |
| `Registration.Register` | app.py:35-49 | Registration completes exactly when the frames contain twenty single-face frames. It stops on the frame that brings the count to exactly twenty. It stores the aggregate of exactly those twenty descriptors under `name`, updating that key only. Until then, it holds every descriptor seen and the store is unchanged. |
| `Registration.CollectSamples` | app.py:38-44 | The loop holds the descriptors of the single-face frames read so far and never more than twenty. With fewer than twenty it has read every frame. With twenty, the last frame read is the one that completed them. |
| `Recognition.FirstMatch` | app.py:72-75 | The chosen entry is within the threshold, and every entry before it in dict order is not. Nothing is chosen exactly when no entry is within the threshold. |
| `Recognition.ScanFrom` | app.py:62-80 | The loop only stops on a frame that shows a single face. Once the blink flag is true it stays true. |
| `Recognition.BlinkSeenStep` | app.py:69-70 | The blink flag after a frame is the flag before it, or'd with that frame's blink. Frames without a single face leave it alone. |
| `Recognition.ScanFrames` | app.py:58-80 | Starting with `blinked = False`, the loop stops only on a qualifying frame: a single face, a blink seen in it or earlier, and a name within the threshold. If it reads every frame without stopping, its flag says whether any frame blinked. |
| `Recognition.ScanFromSpec` | app.py:62-80 | From any frame, the loop stops at the first qualifying frame and names the first matching entry. A frame qualifies when it has a single face, a blink was seen in it or before it, and some name is within the threshold. With no qualifying frame it reads every frame, and its flag records whether any blinked. |
| `Recognition.ScanFramesSpec` | app.py:58-80 | Starting with `blinked = False`, attendance is matched exactly when some frame qualifies. The match is at the first qualifying frame, for the first name in dict order within the threshold. |
| `Recognition.NoBlinkNoMark` | app.py:75 | If no frame blinks, nothing is ever marked, however close the descriptors. |
| `Recognition.NoFaceFrameInert` | app.py:64-66 | A frame without a single face changes neither the blink flag nor the outcome, and never triggers marking. |
| `Recognition.EmptyStoreNeverMarks` | app.py:72 | With no enrolled names, attendance is never marked. |
| `Recognition.BlinkInMatchingFrameCounts` | app.py:69-75 | A blink in the same frame as the match counts, because the flag is set before the names are scanned. |
| `Recognition.MarkSession` | app.py:75-80 | A session that finds no match leaves the ledger untouched. One that finds a match makes exactly one ledger call for the matched name. It reports the string that call returned. |
| `Recognition.MarkSessionSpec` | app.py:58-80 | A session records attendance exactly when some frame qualifies. It records it for the first name within the threshold in the first qualifying frame, and keeps the ledger consistent. |

## Left out

- Eye-aspect-ratio blink detection (`src/spoof.py`) is not modelled. It is floating-point geometry over landmark points. Each frame carries only the boolean result of `is_blinking`.
- Face detection and the descriptor network (`src/face_utils.py`) are third-party models. A frame is reduced to "no single face" or a face with its descriptor, as `get_face_embedding` reports.
- `cosine` from scipy is not modelled. The distance is a function parameter of type `(Embedding, Embedding) -> real`.
- Floating-point behaviour of the distance is not modelled. `THRESHOLD = 0.4` is the exact rational 2/5, not the nearest double, and distances have no NaN.
- `np.mean` over the samples is a function parameter. So is its failure on descriptors of different lengths, which a single descriptor network never produces.
- SQLite connection, commit and close are not modelled. The `Database` type only records whether the table exists. `mark_attendance` is modelled on the table itself, because the application runs `init_db` (app.py:14) before any call.
- Reading and writing `data/embeddings.pkl` is file I/O and is not modelled. This includes the fall-back to an empty dict when loading fails and the full rewrite after registration. The store is passed in and returned.
- The clock is not modelled. `datetime.now()` becomes the `today` and `timeNow` parameters.
- Punch times are compared as strings only. That a punch-out is later in wall-clock time than its punch-in is not stated.
- Concurrent calls to the ledger are not modelled. Calls are sequential, so the read-then-write race that can insert a duplicate row is outside the model.
- Neither camera loop has a bound on the number of frames it reads. The Register loop stops only once twenty descriptors are collected, and the Mark Attendance loop stops only on a match. The model runs both over a finite prefix of frames, where `Exhausted` and `Collecting` mean "still waiting".
- Streamlit widgets and the camera device are not modelled. This covers the name input, the button, `st.image`, `st.success`, `st.stop`, `cap.release` and `cv2.destroyAllWindows`.
