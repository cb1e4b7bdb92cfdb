/** The Register mode: collect descriptors from the camera until there are
    twenty, then store their aggregate under the entered name. */
module Registration {
  import opened KnownFaces
  import opened Observations

  /** How many single-face frames one registration collects. */
  const RequiredSamples: nat := 20

  /** Either the store after registering (and how many frames were read), or
      the descriptors collected when the finite prefix of frames ran out. */
  datatype Outcome = Registered(store: Store, used: nat) | Collecting(samples: seq<Embedding>)

  /** Register `name` from the camera frames `frames`; `mean` is the
      element-wise average of the collected descriptors. */
  method Register(frames: seq<Observation>, store: Store, name: string, mean: seq<Embedding> -> Embedding)
    returns (r: Outcome)
    // registration completes exactly when the frames hold twenty single-face frames
    ensures r.Registered? <==> |FaceEmbeddings(frames)| >= RequiredSamples
    // it stops on the frame that brings the count to exactly twenty
    ensures r.Registered? ==>
              0 < r.used <= |frames| &&
              |FaceEmbeddings(frames[..r.used])| == RequiredSamples &&
              |FaceEmbeddings(frames[..r.used - 1])| == RequiredSamples - 1
    // and stores the aggregate of those twenty under `name`
    ensures r.Registered? ==> r.store == Put(store, name, mean(FaceEmbeddings(frames[..r.used])))
    ensures r.Registered? && UniqueNames(store) ==>
              UniqueNames(r.store) &&
              AsMap(r.store) == AsMap(store)[name := mean(FaceEmbeddings(frames[..r.used]))]
    // otherwise every single-face descriptor seen so far is held, and no more
    ensures r.Collecting? ==> r.samples == FaceEmbeddings(frames)
  {
    var samples, used := CollectSamples(frames);
    if |samples| == RequiredSamples {
      FaceEmbeddingsPrefix(frames, used);
      var avg := mean(samples);
      if UniqueNames(store) {
        PutAsMap(store, name, avg);
      }
      r := Registered(Put(store, name, avg), used);
    } else {
      r := Collecting(samples);
    }
  }

  /** `while len(embeddings) < 20`: read frames, keeping the descriptor of each
      single-face frame, until twenty are held or the frames run out. */
  method CollectSamples(frames: seq<Observation>) returns (samples: seq<Embedding>, used: nat)
    ensures used <= |frames|
    ensures samples == FaceEmbeddings(frames[..used])
    ensures |samples| <= RequiredSamples
    // with fewer than twenty, every frame has been read
    ensures |samples| < RequiredSamples ==> used == |frames| && samples == FaceEmbeddings(frames)
    // with twenty, the last frame read is the one that completed them
    ensures |samples| == RequiredSamples ==>
              0 < used && |FaceEmbeddings(frames[..used - 1])| == RequiredSamples - 1
  {
    samples := [];
    used := 0;
    while |samples| < RequiredSamples && used < |frames|
      invariant 0 <= used <= |frames|
      invariant samples == FaceEmbeddings(frames[..used])
      invariant |samples| <= RequiredSamples
      invariant |samples| == RequiredSamples ==>
                  0 < used && |FaceEmbeddings(frames[..used - 1])| == RequiredSamples - 1
      decreases |frames| - used
    {
      assert frames[..used + 1] == frames[..used] + [frames[used]];
      FaceEmbeddingsSnoc(frames[..used], frames[used]);
      if frames[used].Face? {
        samples := samples + [frames[used].emb];
      }
      used := used + 1;
    }
    if used == |frames| {
      assert frames[..used] == frames;
    }
  }
}
