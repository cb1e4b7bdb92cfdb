/** What the face model yields for one camera frame, with the detector, the
    descriptor network and the eye-aspect-ratio test replaced by their results. */
module Observations {
  import opened KnownFaces

  /** `get_face_embedding(frame)`: no result unless exactly one face is found;
      otherwise its descriptor, and whether `is_blinking` holds for its landmarks. */
  datatype Observation = NoFace | Face(emb: Embedding, blinking: bool)

  /** The descriptors of the frames that show exactly one face, in frame order:
      one per single-face frame, none for the others. */
  function FaceEmbeddings(frames: seq<Observation>): (r: seq<Embedding>)
    ensures |r| <= |frames|
    ensures forall k :: 0 <= k < |r| ==>
              exists j :: 0 <= j < |frames| && frames[j].Face? && frames[j].emb == r[k]
    ensures (forall j :: 0 <= j < |frames| ==> frames[j].Face?) ==> |r| == |frames|
    ensures (forall j :: 0 <= j < |frames| ==> frames[j].NoFace?) ==> r == []
    decreases |frames|
  {
    if |frames| == 0 then []
    else
      var rest := FaceEmbeddings(frames[1..]);
      assert forall j :: 0 <= j < |frames| - 1 ==> frames[1..][j] == frames[j + 1];
      (if frames[0].Face? then [frames[0].emb] else []) + rest
  }

  /** A frame without a single face adds nothing to the collected descriptors;
      a frame with one adds its descriptor at the end. */
  lemma {:induction false} FaceEmbeddingsSnoc(frames: seq<Observation>, f: Observation)
    ensures FaceEmbeddings(frames + [f]) ==
            FaceEmbeddings(frames) + (if f.Face? then [f.emb] else [])
    decreases |frames|
  {
    if |frames| > 0 {
      assert (frames + [f])[1..] == frames[1..] + [f];
      FaceEmbeddingsSnoc(frames[1..], f);
    } else {
      assert (frames + [f])[1..] == [];
    }
  }

  /** Looking at more frames never collects fewer descriptors. */
  lemma {:induction false} FaceEmbeddingsPrefix(frames: seq<Observation>, n: nat)
    requires n <= |frames|
    ensures |FaceEmbeddings(frames[..n])| <= |FaceEmbeddings(frames)|
    decreases |frames|
  {
    if n > 0 {
      assert frames[..n][1..] == frames[1..][..n - 1];
      FaceEmbeddingsPrefix(frames[1..], n - 1);
    }
  }

  /** Some frame among the first `n` showed a single face that was blinking. */
  ghost predicate BlinkSeen(frames: seq<Observation>, n: nat)
    requires n <= |frames|
  {
    exists j :: 0 <= j < n && frames[j].Face? && frames[j].blinking
  }
}
