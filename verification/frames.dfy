/** `FramesSet` of the motion-segmentation demo: a FIFO of at most
    `max_size` frames that drops its oldest frame to make room. Frames are
    opaque values of a type parameter. */
module Frames {

  datatype FramesSet<F> = FramesSet(frames: seq<F>, maxSize: nat) {
    /** The state every push keeps: room for at least one frame and no
        more frames than that room. */
    predicate Valid() {
      1 <= maxSize && |frames| <= maxSize
    }
  }

  /** The constructor: no frames yet. */
  function Empty<F>(maxSize: nat): (s: FramesSet<F>)
    ensures s.frames == [] && s.maxSize == maxSize
    ensures 1 <= maxSize ==> s.Valid()
  {
    FramesSet([], maxSize)
  }

  /** `FramesSet::push_back`: when the buffer holds exactly
      `max_size` frames the front one is popped, then the new frame is
      appended. Popping an empty deque is undefined, so a buffer that is
      both empty and full (`max_size` 0) cannot take a push. */
  function PushBack<F>(s: FramesSet<F>, frame: F): (r: FramesSet<F>)
    requires |s.frames| == s.maxSize ==> 0 < |s.frames|
    ensures r.maxSize == s.maxSize
    ensures 0 < |r.frames| && r.frames[|r.frames| - 1] == frame
    ensures |s.frames| < s.maxSize ==> r.frames[..|r.frames| - 1] == s.frames
    ensures |s.frames| == s.maxSize ==> r.frames[..|r.frames| - 1] == s.frames[1..]
    ensures s.Valid() ==> r.Valid()
  {
    var kept := if |s.frames| == s.maxSize then s.frames[1..] else s.frames;
    assert (kept + [frame])[..|kept|] == kept;
    FramesSet(kept + [frame], s.maxSize)
  }

  /** The last n elements of xs, or all of them when there are fewer. */
  function Last<F>(xs: seq<F>, n: nat): (ys: seq<F>)
    ensures |ys| == if |xs| < n then |xs| else n
    ensures forall k | 0 <= k < |ys| :: ys[k] == xs[|xs| - |ys| + k]
  {
    if |xs| <= n then xs else xs[|xs| - n..]
  }

  /** Pushing each of xs in turn. */
  function PushAll<F>(s: FramesSet<F>, xs: seq<F>): (r: FramesSet<F>)
    requires s.Valid()
    ensures r.Valid() && r.maxSize == s.maxSize
    decreases |xs|
  {
    if |xs| == 0 then s else PushAll(PushBack(s, xs[0]), xs[1..])
  }

  /** A buffer of capacity m that has seen the frames h (oldest first)
      holds the last m of them. */
  ghost predicate Holds<F>(s: FramesSet<F>, h: seq<F>) {
    s.frames == Last(h, s.maxSize)
  }

  /** One push extends the history by the new frame. */
  lemma PushBackHistory<F>(s: FramesSet<F>, h: seq<F>, frame: F)
    requires s.Valid() && Holds(s, h)
    ensures Holds(PushBack(s, frame), h + [frame])
  {
    var r, h' := PushBack(s, frame), h + [frame];
    var want := Last(h', s.maxSize);
    assert |r.frames| == |want|;
    forall k | 0 <= k < |want|
      ensures r.frames[k] == want[k]
    {
      if k < |want| - 1 {
        assert r.frames[k] == r.frames[..|r.frames| - 1][k];
      }
    }
  }

  /** After any run of pushes the buffer holds the last `max_size` frames
      of everything it has seen, in push order. */
  lemma {:induction false} PushAllHistory<F>(s: FramesSet<F>, h: seq<F>, xs: seq<F>)
    requires s.Valid() && Holds(s, h)
    ensures Holds(PushAll(s, xs), h + xs)
    decreases |xs|
  {
    if |xs| > 0 {
      var next, seen := PushBack(s, xs[0]), h + [xs[0]];
      PushBackHistory(s, h, xs[0]);
      PushAllHistory(next, seen, xs[1..]);
      assert seen + xs[1..] == h + xs;
    } else {
      assert h + xs == h;
    }
  }

  /** Starting empty, k pushes leave the last min(k, max_size) frames in
      push order. */
  lemma PushesKeepLast<F>(maxSize: nat, xs: seq<F>)
    requires 1 <= maxSize
    ensures PushAll(Empty(maxSize), xs).frames == Last(xs, maxSize)
  {
    assert Holds(Empty<F>(maxSize), []);
    PushAllHistory(Empty(maxSize), [], xs);
    assert [] + xs == xs;
  }

  /** `buff_size` of the demo. */
  const BuffSize: nat := 20

  /** The fill loop of `demo_motion_segmentation`: a buffer of 20 takes 20 captured
      frames, one at a time. The capture is a parameter. */
  method FillBuffer<F>(captured: seq<F>) returns (buffer: FramesSet<F>)
    requires |captured| == BuffSize
    ensures buffer.Valid() && buffer.maxSize == BuffSize
    ensures buffer.frames == captured
  {
    buffer := Empty(BuffSize);
    var idx := 0;
    while idx < BuffSize
      invariant 0 <= idx <= BuffSize
      invariant buffer.maxSize == BuffSize
      invariant buffer.frames == captured[..idx]
    {
      buffer := PushBack(buffer, captured[idx]);
      assert captured[..idx + 1] == captured[..idx] + [captured[idx]];
      idx := idx + 1;
    }
    assert captured[..BuffSize] == captured;
  }
}
