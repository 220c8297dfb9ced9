/** The batching scheme of the video path, as a function of the decoded
    stream. Frames are appended to a buffer; once the buffer holds more than
    `Ceiling` frames it is committed as a non-final batch and cut back to its
    last frame; at the end of the stream a non-empty buffer is committed as
    the final batch. */
module Batching {

  /** One call of the encoder: the frames handed over, and whether it is the
      final commit. */
  datatype Batch<T> = Batch(frames: seq<T>, isFinal: bool)

  /** The buffer is committed as soon as it holds more than this many frames.
      Products by the ceiling are written with the literal, which keeps them
      linear for the solver. */
  const Ceiling: nat := 300

  /** The number of non-final commits made while `n` frames are decoded. */
  function FlushCount(n: nat): (k: nat)
    ensures k == 0 || 300 * k < n
  {
    if n == 0 then 0 else (n - 1) / 300
  }

  /** Where the buffer starts in the stream once `n` frames are decoded. */
  function BufferStart(n: nat): nat
  {
    300 * FlushCount(n)
  }

  /** The first `k` non-final commits of stream `s`: commit `j` holds the `Ceiling + 1`
      frames from position `Ceiling * j` on. */
  function Flushes<T>(s: seq<T>, k: nat): seq<Batch<T>>
    requires k == 0 || 300 * k < |s|
  {
    if k == 0 then []
    else Flushes(s, k - 1) + [Batch(s[300 * (k - 1) .. 300 * k + 1], false)]
  }

  /** What the buffer holds when the stream ends. */
  function Remainder<T>(s: seq<T>): seq<T>
  {
    FlushCountBounds(|s|);
    s[BufferStart(|s|)..]
  }

  /** Every commit made for stream `s`, in order. */
  function Batches<T>(s: seq<T>): seq<Batch<T>>
  {
    FlushCountBounds(|s|);
    Flushes(s, FlushCount(|s|)) + (if |s| == 0 then [] else [Batch(Remainder(s), true)])
  }

  /** The frames of a sequence of commits with the carried first frame of
      every commit after the first dropped. */
  function Stitch<T>(bs: seq<Batch<T>>): seq<T>
  {
    if bs == [] then []
    else if |bs| == 1 then bs[0].frames
    else
      var last := bs[|bs| - 1].frames;
      Stitch(bs[..|bs| - 1]) + (if last == [] then [] else last[1..])
  }

  /** The buffer never starts past the decoded frames and holds at most
      `Ceiling` of them between reads; it is never empty once a frame is
      decoded. */
  lemma FlushCountBounds(n: nat)
    ensures BufferStart(n) <= n
    ensures n - BufferStart(n) <= Ceiling
    ensures n > 0 ==> n - BufferStart(n) >= 1
    ensures FlushCount(n) == 0 || 300 * FlushCount(n) < n
  {
  }

  /** Reading one more frame either leaves the number of non-final commits
      alone, or, exactly when the buffer then holds `Ceiling + 1` frames, adds
      one commit. */
  lemma FlushCountStep(n: nat)
    ensures n - BufferStart(n) == Ceiling ==> FlushCount(n + 1) == FlushCount(n) + 1
    ensures n - BufferStart(n) < Ceiling ==> FlushCount(n + 1) == FlushCount(n)
  {
    FlushCountBounds(n);
  }

  lemma AdvanceArithmetic(p: nat)
    ensures BufferStart(p) <= p < BufferStart(p) + Ceiling + 1
    ensures p + 1 - BufferStart(p) > Ceiling ==>
              FlushCount(p + 1) == FlushCount(p) + 1 && BufferStart(p + 1) == p
    ensures p + 1 - BufferStart(p) <= Ceiling ==>
              FlushCount(p + 1) == FlushCount(p) && BufferStart(p + 1) == BufferStart(p)
    ensures BufferStart(p + 1) <= p
  {
    FlushCountBounds(p);
    FlushCountStep(p);
  }

  /** One more non-final commit appends the next `Ceiling + 1` frames. */
  lemma FlushesSnoc<T>(s: seq<T>, k: nat)
    requires 300 * (k + 1) < |s|
    ensures Flushes(s, k + 1) == Flushes(s, k) + [Batch(s[300 * k .. 300 * k + Ceiling + 1], false)]
  {
  }

  /** Reading frame `p` onto a buffer that then exceeds the ceiling adds
      one non-final commit of exactly that buffer. */
  lemma FlushOnOverflow<T>(s: seq<T>, p: nat)
    requires p < |s| && p + 1 - BufferStart(p) > Ceiling
    ensures BufferStart(p + 1) == p
    ensures FlushCount(p + 1) == FlushCount(p) + 1
    ensures Flushes(s, FlushCount(p + 1)) ==
              Flushes(s, FlushCount(p)) + [Batch(s[BufferStart(p) .. p + 1], false)]
  {
    var k, k1 := FlushCount(p), FlushCount(p + 1);
    OverflowPosition(p);
    assert k1 == k + 1 && BufferStart(p) == 300 * k && p + 1 == 300 * k + Ceiling + 1;
    FlushesSnoc(s, k);
  }

  /** The read that takes the buffer past the ceiling is the one at
      position `Ceiling * (k + 1)`, where `k` commits were made before it. */
  lemma OverflowPosition(p: nat)
    requires p + 1 - BufferStart(p) > Ceiling
    ensures p == 300 * FlushCount(p) + Ceiling
    ensures FlushCount(p + 1) == FlushCount(p) + 1
    ensures BufferStart(p + 1) == p
  {
    AdvanceArithmetic(p);
  }

  lemma {:induction false} FlushesAt<T>(s: seq<T>, k: nat, j: nat)
    requires k == 0 || 300 * k < |s|
    requires j < k
    ensures |Flushes(s, k)| == k
    ensures Flushes(s, k)[j] == Batch(s[300 * j .. 300 * j + Ceiling + 1], false)
  {
    FlushesLength(s, k);
    if j < k - 1 {
      FlushesAt(s, k - 1, j);
    }
  }

  lemma {:induction false} FlushesLength<T>(s: seq<T>, k: nat)
    requires k == 0 || 300 * k < |s|
    ensures |Flushes(s, k)| == k
  {
    if k > 0 {
      FlushesLength(s, k - 1);
    }
  }

  /** Shape of the commits: every non-final commit receives exactly
      `Ceiling + 1` frames, the final commit between 1 and `Ceiling`, and only
      the last commit is final. */
  lemma BatchSizes<T>(s: seq<T>, j: nat)
    requires j < |Batches(s)|
    ensures !Batches(s)[j].isFinal ==> |Batches(s)[j].frames| == Ceiling + 1
    ensures Batches(s)[j].isFinal ==>
              1 <= |Batches(s)[j].frames| <= Ceiling && j == |Batches(s)| - 1
  {
    FlushCountBounds(|s|);
    var k := FlushCount(|s|);
    FlushesLength(s, k);
    if j < k {
      FlushesAt(s, k, j);
    }
  }

  /** There is a final commit exactly when the stream is non-empty, and then
      it is the last commit; the number of commits is the number of
      non-final ones plus that one. */
  lemma FinalCommitIffFrames<T>(s: seq<T>)
    ensures |Batches(s)| == FlushCount(|s|) + (if |s| == 0 then 0 else 1)
    ensures |s| > 0 <==> (|Batches(s)| > 0 && Batches(s)[|Batches(s)| - 1].isFinal)
    ensures forall j :: 0 <= j < |Batches(s)| - 1 ==> !Batches(s)[j].isFinal
  {
    FlushCountBounds(|s|);
    var k := FlushCount(|s|);
    FlushesLength(s, k);
    forall j | 0 <= j < |Batches(s)| - 1 ensures !Batches(s)[j].isFinal {
      FlushesAt(s, k, j);
    }
    if |s| > 0 {
      assert Batches(s)[|Batches(s)| - 1] == Batch(Remainder(s), true);
    } else {
      assert Batches(s) == [];
    }
  }

  /** Continuity across batches: each commit after the first starts with the
      frame the previous commit ended with. */
  lemma CarryOver<T>(s: seq<T>, j: nat)
    requires j + 1 < |Batches(s)|
    ensures |Batches(s)[j].frames| > 0 && |Batches(s)[j + 1].frames| > 0
    ensures Batches(s)[j + 1].frames[0] == Batches(s)[j].frames[|Batches(s)[j].frames| - 1]
  {
    FlushCountBounds(|s|);
    var k := FlushCount(|s|);
    FlushesLength(s, k);
    FlushesAt(s, k, j);
    if j + 1 < k {
      FlushesAt(s, k, j + 1);
    } else {
      assert Batches(s)[j + 1] == Batch(Remainder(s), true);
      assert j + 1 == k;
    }
  }

  /** The first `k` non-final commits, stitched, give the stream up to and
      including frame `Ceiling * k`. */
  lemma {:induction false} StitchFlushes<T>(s: seq<T>, k: nat)
    requires 0 < k && 300 * k < |s|
    ensures Stitch(Flushes(s, k)) == s[..300 * k + 1]
  {
    var bs := Flushes(s, k);
    if k == 1 {
      assert Flushes(s, 0) == [];
      assert bs == [Batch(s[0..Ceiling + 1], false)];
    } else {
      FlushesLength(s, k);
      assert bs[..|bs| - 1] == Flushes(s, k - 1);
      StitchFlushes(s, k - 1);
      var last := s[300 * (k - 1) .. 300 * k + 1];
      assert bs[|bs| - 1].frames == last;
      assert s[..300 * (k - 1) + 1] + last[1..] == s[..300 * k + 1];
    }
  }

  /** Dropping each later commit's carried first frame and concatenating the
      commits reproduces the decoded stream exactly, in order. */
  lemma StitchReconstructs<T>(s: seq<T>)
    ensures Stitch(Batches(s)) == s
  {
    FlushCountBounds(|s|);
    var k := FlushCount(|s|);
    var bs := Batches(s);
    if |s| == 0 {
      assert bs == [];
    } else if k == 0 {
      assert bs == [Batch(s, true)];
    } else {
      FlushesLength(s, k);
      assert bs[..|bs| - 1] == Flushes(s, k);
      StitchFlushes(s, k);
      var rest := Remainder(s);
      assert bs[|bs| - 1].frames == rest;
      assert s[..300 * k + 1] + rest[1..] == s;
    }
  }

  /** For a stream longer than the ceiling, the final commit alone holds
      fewer frames than were decoded: a target that keeps only the latest
      commit loses frames. */
  lemma LatestCommitIsPartial<T>(s: seq<T>)
    requires |s| > Ceiling
    ensures |Remainder(s)| < |s|
  {
    FlushCountBounds(|s|);
  }
}
