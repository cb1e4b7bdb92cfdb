/** The Mark Attendance mode: watch frames, remember whether a blink has been
    seen, and mark attendance for the first enrolled name whose distance to the
    live descriptor is below the threshold once a blink has been seen. */
module Recognition {
  import opened Optional
  import opened Sequences
  import opened KnownFaces
  import opened Observations
  import opened Attendance

  /** Largest distance, exclusive, at which two descriptors are the same person. */
  const Threshold: real := 0.4

  /** The descriptor distance (cosine distance in the source). */
  type Distance = (Embedding, Embedding) -> real

  /** The first enrolled entry, in the store's iteration order, within the
      threshold of `emb`. */
  function FirstMatch(store: Store, dist: Distance, emb: Embedding): (r: Option<nat>)
    ensures r.Some? ==> r.value < |store| && dist(emb, store[r.value].emb) < Threshold
    ensures r.Some? ==> forall j :: 0 <= j < r.value ==> dist(emb, store[j].emb) >= Threshold
    ensures r.None? <==> forall j :: 0 <= j < |store| ==> dist(emb, store[j].emb) >= Threshold
  {
    FirstIndex(store, (e: Entry) => dist(emb, e.emb) < Threshold)
  }

  /** Where the frame loop stopped: at frame `at`, marking `name`, or at the
      end of the frames with the blink flag as it then stood. */
  datatype Scan = Matched(name: string, at: nat) | Exhausted(blinked: bool)

  /** The frame loop from frame `i`, with the blink flag `blinked`. */
  function ScanFrom(frames: seq<Observation>, store: Store, dist: Distance, i: nat, blinked: bool): (r: Scan)
    requires i <= |frames|
    ensures r.Matched? ==> i <= r.at < |frames| && frames[r.at].Face?
    ensures r.Exhausted? && blinked ==> r.blinked
    decreases |frames| - i
  {
    if i == |frames| then Exhausted(blinked)
    else
      match frames[i]
      case NoFace => ScanFrom(frames, store, dist, i + 1, blinked)
      case Face(emb, blinking) =>
        var b := blinked || blinking;
        match FirstMatch(store, dist, emb)
        case Some(k) =>
          if b then Matched(store[k].name, i) else ScanFrom(frames, store, dist, i + 1, b)
        case None => ScanFrom(frames, store, dist, i + 1, b)
  }

  /** The loop as the application starts it: `blinked = False`. It stops on a
      qualifying frame; if it reads every frame, its flag says whether any of
      them blinked. */
  function ScanFrames(frames: seq<Observation>, store: Store, dist: Distance): (r: Scan)
    ensures r.Matched? ==> r.at < |frames| && Qualifies(frames, store, dist, r.at)
    ensures r.Exhausted? ==> r.blinked == BlinkSeen(frames, |frames|)
  {
    ScanFromSpec(frames, store, dist, 0, false);
    ScanFrom(frames, store, dist, 0, false)
  }

  /** Frame `k` triggers marking: it shows a single face, a blink has been seen
      in it or before it, and some enrolled name is within the threshold. */
  ghost predicate Qualifies(frames: seq<Observation>, store: Store, dist: Distance, k: nat)
    requires k < |frames|
  {
    frames[k].Face? && BlinkSeen(frames, k + 1) && FirstMatch(store, dist, frames[k].emb).Some?
  }

  /** The blink flag after one more frame: a frame without a single face leaves
      it alone, a blinking one sets it. */
  lemma BlinkSeenStep(frames: seq<Observation>, i: nat)
    requires i < |frames|
    ensures BlinkSeen(frames, i + 1) <==> BlinkSeen(frames, i) || (frames[i].Face? && frames[i].blinking)
  {
  }

  /** The loop from frame `i` stops at the first qualifying frame from `i` on
      and marks its first matching name; with no qualifying frame it reads all
      frames and its flag records whether any of them blinked. */
  lemma {:induction false} ScanFromSpec(frames: seq<Observation>, store: Store, dist: Distance, i: nat, blinked: bool)
    requires i <= |frames|
    requires blinked == BlinkSeen(frames, i)
    ensures var r := ScanFrom(frames, store, dist, i, blinked);
            r.Matched? ==>
              Qualifies(frames, store, dist, r.at) &&
              (forall k :: i <= k < r.at ==> !Qualifies(frames, store, dist, k)) &&
              r.name == store[FirstMatch(store, dist, frames[r.at].emb).value].name
    ensures var r := ScanFrom(frames, store, dist, i, blinked);
            r.Exhausted? ==>
              (forall k :: i <= k < |frames| ==> !Qualifies(frames, store, dist, k)) &&
              r.blinked == BlinkSeen(frames, |frames|)
    decreases |frames| - i
  {
    if i < |frames| {
      BlinkSeenStep(frames, i);
      var b := blinked || (frames[i].Face? && frames[i].blinking);
      var r := ScanFrom(frames, store, dist, i, blinked);
      if r.Matched? && r.at == i {
        assert Qualifies(frames, store, dist, i);
      } else {
        assert r == ScanFrom(frames, store, dist, i + 1, b);
        assert !Qualifies(frames, store, dist, i);
        ScanFromSpec(frames, store, dist, i + 1, b);
      }
    }
  }

  /** Attendance is marked exactly when some frame qualifies; the frame is the
      first qualifying one and the name is the first, in store order, within
      the threshold of that frame's descriptor. */
  lemma ScanFramesSpec(frames: seq<Observation>, store: Store, dist: Distance)
    ensures var r := ScanFrames(frames, store, dist);
            r.Matched? <==> exists k :: 0 <= k < |frames| && Qualifies(frames, store, dist, k)
    ensures var r := ScanFrames(frames, store, dist);
            r.Matched? ==>
              Qualifies(frames, store, dist, r.at) &&
              (forall k :: 0 <= k < r.at ==> !Qualifies(frames, store, dist, k)) &&
              r.name == store[FirstMatch(store, dist, frames[r.at].emb).value].name
  {
    ScanFromSpec(frames, store, dist, 0, false);
  }

  /** Without a blink in or before it, no frame marks attendance, however
      close its descriptor. */
  lemma NoBlinkNoMark(frames: seq<Observation>, store: Store, dist: Distance)
    requires forall k :: 0 <= k < |frames| ==> frames[k].Face? ==> !frames[k].blinking
    ensures ScanFrames(frames, store, dist).Exhausted?
  {
    ScanFramesSpec(frames, store, dist);
  }

  /** A frame without a single face neither changes the blink flag nor
      triggers marking: the loop simply moves on to the next frame. */
  lemma NoFaceFrameInert(frames: seq<Observation>, store: Store, dist: Distance, i: nat, blinked: bool)
    requires i < |frames| && frames[i].NoFace?
    ensures ScanFrom(frames, store, dist, i, blinked) == ScanFrom(frames, store, dist, i + 1, blinked)
    ensures !Qualifies(frames, store, dist, i)
    ensures BlinkSeen(frames, i + 1) == BlinkSeen(frames, i)
  {
  }

  /** With no one enrolled, attendance is never marked. */
  lemma EmptyStoreNeverMarks(frames: seq<Observation>, dist: Distance)
    ensures ScanFrames(frames, [], dist).Exhausted?
  {
    ScanFramesSpec(frames, [], dist);
  }

  /** A blink counts in the very frame whose descriptor matches, because the
      flag is updated before the names are scanned. */
  lemma BlinkInMatchingFrameCounts(frames: seq<Observation>, store: Store, dist: Distance, k: nat)
    requires k < |frames|
    requires frames[k].Face? && frames[k].blinking
    requires FirstMatch(store, dist, frames[k].emb).Some?
    ensures ScanFrames(frames, store, dist).Matched?
    ensures ScanFrames(frames, store, dist).at <= k
  {
    assert BlinkSeen(frames, k + 1);
    assert Qualifies(frames, store, dist, k);
    ScanFramesSpec(frames, store, dist);
  }

  /** What the application shows after a match: `f"{name}: {action}"`. */
  datatype Report = Report(name: string, action: string)

  /** One Mark Attendance session: the ledger table after it, and the report
      shown if a match was found. */
  datatype Session = Session(table: Table, result: Option<Report>)

  /** Run the loop over `frames`; on a match, call the ledger once for the
      matched name at the clock reading (`today`, `timeNow`) of that moment. */
  function MarkSession(frames: seq<Observation>, store: Store, dist: Distance,
                       table: Table, today: string, timeNow: string): (r: Session)
    ensures r.result.None? ==> r.table == table
    ensures r.result.Some? ==>
              var m := MarkAttendance(table, r.result.value.name, today, timeNow);
              r.table == m.table && r.result.value.action == Text(m.action)
  {
    match ScanFrames(frames, store, dist)
    case Exhausted(_) => Session(table, None)
    case Matched(name, _) =>
      var m := MarkAttendance(table, name, today, timeNow);
      Session(m.table, Some(Report(name, Text(m.action))))
  }

  /** A session records attendance exactly when some frame qualifies, for the
      first matching name of the first qualifying frame, and keeps the ledger
      consistent. */
  lemma MarkSessionSpec(frames: seq<Observation>, store: Store, dist: Distance,
                        table: Table, today: string, timeNow: string)
    ensures var r := MarkSession(frames, store, dist, table, today, timeNow);
            r.result.Some? <==> exists k :: 0 <= k < |frames| && Qualifies(frames, store, dist, k)
    ensures var r := MarkSession(frames, store, dist, table, today, timeNow);
            r.result.Some? ==>
              exists k :: 0 <= k < |frames| && Qualifies(frames, store, dist, k) &&
                (forall j :: 0 <= j < k ==> !Qualifies(frames, store, dist, j)) &&
                r.result.value.name == store[FirstMatch(store, dist, frames[k].emb).value].name
    ensures Consistent(table) ==>
              Consistent(MarkSession(frames, store, dist, table, today, timeNow).table)
  {
    ScanFramesSpec(frames, store, dist);
    var s := ScanFrames(frames, store, dist);
    if s.Matched? {
      assert Qualifies(frames, store, dist, s.at);
      if Consistent(table) {
        MarkPreservesConsistency(table, s.name, today, timeNow);
      }
    }
  }
}
