/** image.py: the key-frame sampling loop, the numbering of saved images, and the
    `HH:MM:SS` rendering of a timestamp. Decoding, seeking and writing images are oracles;
    timestamps are whole seconds. */
module Image {
  import opened Wrappers
  import opened Strings

  // ---------------------------------------------------------------- format_timestamp

  /** Whole seconds split into hours, minutes and seconds, as format_timestamp computes
      them with `//` and `%`. */
  function Clock(s: nat): (c: (nat, nat, nat))
    ensures c.0 * 3600 + c.1 * 60 + c.2 == s
    ensures c.1 < 60 && c.2 < 60
  {
    (s / 3600, (s % 3600) / 60, s % 60)
  }

  /** The split is the only one with minutes and seconds below 60. */
  lemma ClockUnique(s: nat, h: nat, m: nat, sec: nat)
    requires h * 3600 + m * 60 + sec == s && m < 60 && sec < 60
    ensures Clock(s) == (h, m, sec)
  {
  }

  /** Three fields, each zero-padded to two digits, separated by colons. */
  function Stamp(h: nat, m: nat, sec: nat): string {
    Pad2(h) + ":" + Pad2(m) + ":" + Pad2(sec)
  }

  /** Where the three fields sit in a stamp, counted from its end. */
  lemma StampParts(h: nat, m: nat, sec: nat)
    requires m < 100 && sec < 100
    ensures var t := Stamp(h, m, sec);
            && |t| >= 8 && t[|t| - 3] == ':' && t[|t| - 6] == ':'
            && t[..|t| - 6] == Pad2(h) && t[|t| - 5..|t| - 3] == Pad2(m) && t[|t| - 2..] == Pad2(sec)
  {
    var t := Stamp(h, m, sec);
    var tail := ":" + Pad2(m) + ":" + Pad2(sec);
    AppendAssoc(Pad2(h), ":" + Pad2(m), ":" + Pad2(sec));
    AppendAssoc(Pad2(h), ":", Pad2(m));
    AppendAssoc(":" + Pad2(m), ":", Pad2(sec));
    assert t == Pad2(h) + tail;
    assert |tail| == 6 && tail[0] == ':' && tail[3] == ':';
    assert tail[1..3] == Pad2(m) && tail[4..] == Pad2(sec);
    assert t[..|t| - 6] == Pad2(h) && t[|t| - 6..] == tail;
    assert t[|t| - 5..|t| - 3] == tail[1..3];
    assert t[|t| - 2..] == tail[4..];
  }

  /** The shape of a rendered timestamp: at least eight characters, colons three and six
      places from the end, digits everywhere else. */
  predicate TimestampShape(t: string) {
    && |t| >= 8
    && t[|t| - 3] == ':' && t[|t| - 6] == ':'
    && AllDigits(t[..|t| - 6]) && AllDigits(t[|t| - 5..|t| - 3]) && AllDigits(t[|t| - 2..])
  }

  /** format_timestamp: `f"{hours:02d}:{minutes:02d}:{seconds:02d}"`. Below 100 hours the
      result is exactly `HH:MM:SS`. */
  function FormatTimestamp(s: nat): (t: string)
    ensures TimestampShape(t)
    ensures s < 360000 ==> |t| == 8 && t[2] == ':' && t[5] == ':'
  {
    var (h, m, sec) := Clock(s);
    StampParts(h, m, sec);
    Stamp(h, m, sec)
  }

  /** Reads a rendered timestamp back: hours before the first colon counted from the end. */
  function ParseTimestamp(t: string): nat
    requires TimestampShape(t)
  {
    ParseDecimal(t[..|t| - 6]) * 3600 + ParseDecimal(t[|t| - 5..|t| - 3]) * 60 + ParseDecimal(t[|t| - 2..])
  }

  /** Rendering loses nothing: the seconds can be read back from every timestamp. */
  lemma TimestampRoundTrip(s: nat)
    ensures ParseTimestamp(FormatTimestamp(s)) == s
  {
    var (h, m, sec) := Clock(s);
    StampParts(h, m, sec);
    ParsePad2(h);
    ParsePad2(m);
    ParsePad2(sec);
    assert ParseTimestamp(Stamp(h, m, sec)) == h * 3600 + m * 60 + sec;
  }

  lemma Pad2Injective(x: nat, y: nat)
    ensures Pad2(x) == Pad2(y) ==> x == y
  {
    ParsePad2(x);
    ParsePad2(y);
  }

  /** Lexicographic order on (hours, minutes, seconds). */
  predicate FieldsLe(a: (nat, nat, nat), b: (nat, nat, nat)) {
    a.0 < b.0 || (a.0 == b.0 && (a.1 < b.1 || (a.1 == b.1 && a.2 <= b.2)))
  }

  /** Comparing two stamps as strings compares their fields lexicographically. */
  lemma StampOrder(a: (nat, nat, nat), b: (nat, nat, nat))
    requires a.0 < 100 && a.1 < 100 && a.2 < 100 && b.0 < 100 && b.1 < 100 && b.2 < 100
    ensures LexLe(Stamp(a.0, a.1, a.2), Stamp(b.0, b.1, b.2)) <==> FieldsLe(a, b)
  {
    var ha, hb := Pad2(a.0), Pad2(b.0);
    var ta, tb := ":" + Pad2(a.1) + ":" + Pad2(a.2), ":" + Pad2(b.1) + ":" + Pad2(b.2);
    AppendAssoc(ha, ":" + Pad2(a.1), ":" + Pad2(a.2));
    AppendAssoc(ha, ":", Pad2(a.1));
    AppendAssoc(hb, ":" + Pad2(b.1), ":" + Pad2(b.2));
    AppendAssoc(hb, ":", Pad2(b.1));
    assert Stamp(a.0, a.1, a.2) == ha + ta;
    assert Stamp(b.0, b.1, b.2) == hb + tb;
    Pad2Injective(a.0, b.0);
    if a.0 != b.0 {
      LexLeDecidedByBlock(ha, hb, ta, tb);
      LexLePad2(a.0, b.0);
    } else {
      LexLeCommonPrefix(ha, ta, tb);
      StampTailOrder(a.1, a.2, b.1, b.2);
    }
  }

  /** The `:MM:SS` tails compare as their (minutes, seconds) pairs. */
  lemma StampTailOrder(m1: nat, s1: nat, m2: nat, s2: nat)
    requires m1 < 100 && s1 < 100 && m2 < 100 && s2 < 100
    ensures LexLe(":" + Pad2(m1) + ":" + Pad2(s1), ":" + Pad2(m2) + ":" + Pad2(s2))
            <==> m1 < m2 || (m1 == m2 && s1 <= s2)
  {
    var ma, mb := Pad2(m1), Pad2(m2);
    var ua, ub := ":" + Pad2(s1), ":" + Pad2(s2);
    AppendAssoc(":" + ma, ":", Pad2(s1));
    AppendAssoc(":" + mb, ":", Pad2(s2));
    AppendAssoc(":", ma, ua);
    AppendAssoc(":", mb, ub);
    LexLeCommonPrefix(":", ma + ua, mb + ub);
    Pad2Injective(m1, m2);
    if m1 != m2 {
      LexLeDecidedByBlock(ma, mb, ua, ub);
      LexLePad2(m1, m2);
    } else {
      LexLeCommonPrefix(ma, ua, ub);
      LexLeCommonPrefix(":", Pad2(s1), Pad2(s2));
      LexLePad2(s1, s2);
    }
  }

  /** A later second never has an earlier clock reading, and conversely. */
  lemma ClockOrder(s1: nat, s2: nat)
    ensures s1 <= s2 <==> FieldsLe(Clock(s1), Clock(s2))
  {
    var (h1, m1, c1) := Clock(s1);
    var (h2, m2, c2) := Clock(s2);
    if h1 < h2 {
      assert h1 * 3600 + 3600 <= h2 * 3600;
    } else if h2 < h1 {
      assert h2 * 3600 + 3600 <= h1 * 3600;
    } else if m1 < m2 {
      assert m1 * 60 + 60 <= m2 * 60;
    } else if m2 < m1 {
      assert m2 * 60 + 60 <= m1 * 60;
    }
  }

  /** Below 100 hours, timestamps sort as strings exactly as the seconds sort as numbers. */
  lemma TimestampOrder(s1: nat, s2: nat)
    requires s1 < 360000 && s2 < 360000
    ensures LexLe(FormatTimestamp(s1), FormatTimestamp(s2)) <==> s1 <= s2
  {
    ClockOrder(s1, s2);
    StampOrder(Clock(s1), Clock(s2));
  }

  // ---------------------------------------------------------------- extract_key_frames

  /** Python's `int(x)`: truncation toward zero. */
  function Trunc(x: real): (r: int)
    ensures x >= 0.0 ==> r as real <= x < r as real + 1.0
    ensures x < 0.0 ==> r as real - 1.0 < x <= r as real
  {
    if x >= 0.0 then x.Floor else -((-x).Floor)
  }

  /** The number of read attempts: `range(max_images)`. */
  function AttemptCount(maxImages: int): nat {
    if maxImages > 0 then maxImages else 0
  }

  /** The spacing of the target times. */
  function Interval(maxImages: int, duration: real): real {
    if maxImages > 1 then duration / (maxImages - 1) as real else duration
  }

  /** The target time of every attempt, `i * interval`: the first is 0 and each follows
      the previous by the interval. */
  function TargetTimes(maxImages: int, interval: real): (ts: seq<real>)
    ensures |ts| == AttemptCount(maxImages)
    ensures |ts| > 0 ==> ts[0] == 0.0
    ensures forall i :: 0 <= i < |ts| ==> ts[i] == i as real * interval
    ensures forall i :: 0 <= i < |ts| - 1 ==> ts[i + 1] - ts[i] == interval
  {
    seq(AttemptCount(maxImages), i => i as real * interval)
  }

  /** With more than one attempt, the last target time is the end of the video. */
  lemma LastTargetIsDuration(maxImages: int, duration: real)
    requires maxImages > 1
    ensures TargetTimes(maxImages, Interval(maxImages, duration))[maxImages - 1] == duration
  {
    var n := (maxImages - 1) as real;
    assert n * (duration / n) == duration;
  }

  /** What one read attempt gives: a frame and the position (in whole seconds) reported
      after it, or nothing. */
  datatype Read<F> = Frame(image: F, seconds: nat) | Missed

  /** An opened video: its frame rate and frame count, and the outcome of the `i`-th read
      after seeking to a frame index. */
  datatype Capture<F> = Capture(fps: real, frameCount: nat, read: (nat, int) -> Read<F>)

  datatype FrameError = ZeroFrameRate | NoFramesRead

  /** The length of the video in seconds, `total_frames / frame_rate`. */
  function Duration<F>(cap: Capture<F>): real
    requires cap.fps != 0.0
  {
    cap.frameCount as real / cap.fps
  }

  /** The frame index an attempt seeks to: `int(target_time * frame_rate)`. */
  function TargetFrame(targetTime: real, fps: real): int {
    Trunc(targetTime * fps)
  }

  /** The outcomes of attempts spaced `interval` apart, attempt `i` reading after seeking
      to the frame of its target time. */
  function SeekAll<F>(cap: Capture<F>, maxImages: int, interval: real): (outcomes: seq<Read<F>>)
    ensures |outcomes| == AttemptCount(maxImages)
  {
    var ts := TargetTimes(maxImages, interval);
    seq(|ts|, i requires 0 <= i < |ts| => cap.read(i, TargetFrame(ts[i], cap.fps)))
  }

  /** The outcomes of all attempts of extract_key_frames. */
  function Attempts<F>(cap: Capture<F>, maxImages: int): (outcomes: seq<Read<F>>)
    requires cap.fps != 0.0
    ensures |outcomes| == AttemptCount(maxImages)
  {
    SeekAll(cap, maxImages, Interval(maxImages, Duration(cap)))
  }

  /** With attempts spaced `interval` apart, attempt `i` reads after seeking to the frame
      of its target time `i * interval`. */
  lemma SeekAllSeeksTargetTimes<F>(cap: Capture<F>, maxImages: int, interval: real)
    ensures forall i :: 0 <= i < AttemptCount(maxImages) ==>
              SeekAll(cap, maxImages, interval)[i]
              == cap.read(i, TargetFrame(i as real * interval, cap.fps))
  {
    var ts := TargetTimes(maxImages, interval);
    forall i | 0 <= i < AttemptCount(maxImages)
      ensures SeekAll(cap, maxImages, interval)[i] == cap.read(i, TargetFrame(i as real * interval, cap.fps))
    {
      assert ts[i] == i as real * interval;
    }
  }

  /** Attempt `i` reads after seeking to the frame `int(target_time * frame_rate)` of its
      target time, `i * interval`. */
  lemma AttemptsSeekTargetTimes<F>(cap: Capture<F>, maxImages: int)
    requires cap.fps != 0.0
    ensures forall i :: 0 <= i < AttemptCount(maxImages) ==>
              Attempts(cap, maxImages)[i]
              == cap.read(i, TargetFrame(i as real * Interval(maxImages, Duration(cap)), cap.fps))
  {
    SeekAllSeeksTargetTimes(cap, maxImages, Interval(maxImages, Duration(cap)));
  }

  /** There is one attempt per requested image, and the first one seeks to frame 0. */
  lemma FirstAttemptAtStart<F>(cap: Capture<F>, maxImages: int)
    requires cap.fps != 0.0
    ensures |Attempts(cap, maxImages)| == AttemptCount(maxImages)
    ensures maxImages > 0 ==> Attempts(cap, maxImages)[0] == cap.read(0, 0)
  {
    if maxImages > 0 {
      assert TargetFrame(0.0, cap.fps) == Trunc(0.0);
    }
  }

  /** The successful outcomes, in attempt order. */
  function Kept<F>(outcomes: seq<Read<F>>): (kept: seq<(F, nat)>)
    ensures |kept| <= |outcomes|
  {
    if outcomes == [] then []
    else
      var last := outcomes[|outcomes| - 1];
      Kept(outcomes[..|outcomes| - 1]) + (if last.Frame? then [(last.image, last.seconds)] else [])
  }

  /** The indices of the successful outcomes, in attempt order. */
  function SuccessIndices<F>(outcomes: seq<Read<F>>): seq<nat> {
    if outcomes == [] then []
    else SuccessIndices(outcomes[..|outcomes| - 1]) + (if outcomes[|outcomes| - 1].Frame? then [|outcomes| - 1] else [])
  }

  lemma {:induction false} SuccessIndicesCount<F>(outcomes: seq<Read<F>>)
    ensures |SuccessIndices(outcomes)| == |Kept(outcomes)|
    ensures forall j :: 0 <= j < |SuccessIndices(outcomes)| ==> SuccessIndices(outcomes)[j] < |outcomes|
  {
    if outcomes != [] {
      SuccessIndicesCount(outcomes[..|outcomes| - 1]);
    }
  }

  lemma {:induction false} SuccessIndicesAligned<F>(outcomes: seq<Read<F>>)
    ensures |SuccessIndices(outcomes)| == |Kept(outcomes)|
    ensures forall j :: 0 <= j < |Kept(outcomes)| ==>
              SuccessIndices(outcomes)[j] < |outcomes| &&
              outcomes[SuccessIndices(outcomes)[j]] == Frame(Kept(outcomes)[j].0, Kept(outcomes)[j].1)
  {
    SuccessIndicesCount(outcomes);
    if outcomes != [] {
      var init := outcomes[..|outcomes| - 1];
      SuccessIndicesAligned(init);
      assert forall i :: 0 <= i < |init| ==> init[i] == outcomes[i];
    }
  }

  lemma {:induction false} SuccessIndicesIncreasing<F>(outcomes: seq<Read<F>>)
    ensures forall j, k :: 0 <= j < k < |SuccessIndices(outcomes)| ==> SuccessIndices(outcomes)[j] < SuccessIndices(outcomes)[k]
  {
    if outcomes != [] {
      var init := outcomes[..|outcomes| - 1];
      SuccessIndicesIncreasing(init);
      SuccessIndicesCount(init);
    }
  }

  lemma {:induction false} SuccessIndicesMembership<F>(outcomes: seq<Read<F>>)
    ensures forall i :: 0 <= i < |outcomes| ==> (outcomes[i].Frame? <==> i in SuccessIndices(outcomes))
  {
    if outcomes != [] {
      var init := outcomes[..|outcomes| - 1];
      SuccessIndicesMembership(init);
      SuccessIndicesCount(init);
      assert forall i :: 0 <= i < |init| ==> init[i] == outcomes[i];
    }
  }

  /** The kept frames are exactly the successful attempts, in increasing attempt order,
      each with the position its own read reported. */
  lemma KeptAreSuccessfulReads<F>(outcomes: seq<Read<F>>)
    ensures |SuccessIndices(outcomes)| == |Kept(outcomes)|
    ensures forall j :: 0 <= j < |Kept(outcomes)| ==>
              SuccessIndices(outcomes)[j] < |outcomes| &&
              outcomes[SuccessIndices(outcomes)[j]] == Frame(Kept(outcomes)[j].0, Kept(outcomes)[j].1)
    ensures forall j, k :: 0 <= j < k < |Kept(outcomes)| ==> SuccessIndices(outcomes)[j] < SuccessIndices(outcomes)[k]
    ensures forall i :: 0 <= i < |outcomes| ==> (outcomes[i].Frame? <==> i in SuccessIndices(outcomes))
  {
    SuccessIndicesAligned(outcomes);
    SuccessIndicesIncreasing(outcomes);
    SuccessIndicesMembership(outcomes);
  }

  function Images<F>(kept: seq<(F, nat)>): (fs: seq<F>)
    ensures |fs| == |kept| && forall j :: 0 <= j < |kept| ==> fs[j] == kept[j].0
  {
    seq(|kept|, j requires 0 <= j < |kept| => kept[j].0)
  }

  function Seconds<F>(kept: seq<(F, nat)>): (ps: seq<nat>)
    ensures |ps| == |kept| && forall j :: 0 <= j < |kept| ==> ps[j] == kept[j].1
  {
    seq(|kept|, j requires 0 <= j < |kept| => kept[j].1)
  }

  /** One more attempt extends the kept frames by its frame, if it read one. */
  lemma KeptSnoc<F>(outcomes: seq<Read<F>>, i: nat)
    requires i < |outcomes|
    ensures Images(Kept(outcomes[..i + 1])) ==
              Images(Kept(outcomes[..i])) + (if outcomes[i].Frame? then [outcomes[i].image] else [])
    ensures Seconds(Kept(outcomes[..i + 1])) ==
              Seconds(Kept(outcomes[..i])) + (if outcomes[i].Frame? then [outcomes[i].seconds] else [])
  {
    assert outcomes[..i + 1][..i] == outcomes[..i];
  }

  /** extract_key_frames: `max_images` read attempts at evenly spaced target times; a
      failed read is skipped, a successful one appends its frame and its position together.
      A zero frame rate raises in the duration division; no frame at all raises too. */
  method ExtractKeyFrames<F>(cap: Capture<F>, maxImages: int) returns (r: Result<(seq<F>, seq<nat>), FrameError>)
    ensures cap.fps == 0.0 ==> r == Failure(ZeroFrameRate)
    ensures cap.fps != 0.0 ==>
              var kept := Kept(Attempts(cap, maxImages));
              if kept == [] then r == Failure(NoFramesRead)
              else r == Success((Images(kept), Seconds(kept)))
    ensures r.Success? ==> |r.value.0| == |r.value.1| <= AttemptCount(maxImages)
  {
    if cap.fps == 0.0 {
      return Failure(ZeroFrameRate);
    }
    var interval := Interval(maxImages, Duration(cap));
    var frames, positions := ReadAttempts(cap, maxImages, interval, Attempts(cap, maxImages));
    if frames == [] {
      return Failure(NoFramesRead);
    }
    return Success((frames, positions));
  }

  /** The loop of extract_key_frames: one attempt per requested image, spaced `interval`
      apart, keeping the frame and second of every successful read. */
  method ReadAttempts<F>(cap: Capture<F>, maxImages: int, interval: real, ghost attempts: seq<Read<F>>)
    returns (frames: seq<F>, positions: seq<nat>)
    requires attempts == SeekAll(cap, maxImages, interval)
    ensures frames == Images(Kept(attempts))
    ensures positions == Seconds(Kept(attempts))
  {
    SeekAllSeeksTargetTimes(cap, maxImages, interval);
    frames := [];
    positions := [];
    var i := 0;
    while i < AttemptCount(maxImages)
      invariant 0 <= i <= AttemptCount(maxImages)
      invariant frames == Images(Kept(attempts[..i]))
      invariant positions == Seconds(Kept(attempts[..i]))
    {
      var targetTime := i as real * interval;
      var targetFrame := TargetFrame(targetTime, cap.fps);
      var got := cap.read(i, targetFrame);
      KeptSnoc(attempts, i);
      if got.Frame? {
        frames := frames + [got.image];
        positions := positions + [got.seconds];
      }
      i := i + 1;
    }
    assert attempts[..i] == attempts;
  }

  // ---------------------------------------------------------------- save_images

  datatype SaveError = NoImageSaved

  /** `os.path.join(output_dir, f"{n}.jpg")`. */
  function ImagePath(dir: string, n: nat): string {
    Join(dir, NatToString(n) + ".jpg")
  }

  /** Images are never written over each other: distinct numbers, distinct paths. */
  lemma ImagePathInjective(dir: string, a: nat, b: nat)
    ensures ImagePath(dir, a) == ImagePath(dir, b) ==> a == b
  {
    var na, nb := NatToString(a) + ".jpg", NatToString(b) + ".jpg";
    assert !HasPrefix(na, "/") && !HasPrefix(nb, "/") by {
      assert na[0] == NatToString(a)[0] && nb[0] == NatToString(b)[0];
    }
    JoinInjective(dir, na, nb);
    if na == nb {
      assert NatToString(a) == na[..|na| - 4] && NatToString(b) == nb[..|nb| - 4];
      NatToStringInjective(a, b);
    }
  }

  /** The 1-based numbers of the frames whose write did not raise, in order. */
  function SavedNumbers<F>(frames: seq<F>, dir: string, raises: (string, F) -> bool): seq<nat> {
    if frames == [] then []
    else
      var n := |frames|;
      SavedNumbers(frames[..n - 1], dir, raises) + (if raises(ImagePath(dir, n), frames[n - 1]) then [] else [n])
  }

  /** Saved numbers are strictly increasing, lie in 1..|frames|, and are exactly the
      numbers whose write did not raise. */
  lemma {:induction false} SavedNumbersSpec<F>(frames: seq<F>, dir: string, raises: (string, F) -> bool)
    ensures var ns := SavedNumbers(frames, dir, raises);
            && (forall j :: 0 <= j < |ns| ==> 1 <= ns[j] <= |frames|)
            && (forall j, k :: 0 <= j < k < |ns| ==> ns[j] < ns[k])
            && (forall n :: 1 <= n <= |frames| ==> (n in ns <==> !raises(ImagePath(dir, n), frames[n - 1])))
  {
    SavedNumbersBounded(frames, dir, raises);
    SavedNumbersIncreasing(frames, dir, raises);
    SavedNumbersMembership(frames, dir, raises);
  }

  lemma {:induction false} SavedNumbersBounded<F>(frames: seq<F>, dir: string, raises: (string, F) -> bool)
    ensures forall j :: 0 <= j < |SavedNumbers(frames, dir, raises)| ==> 1 <= SavedNumbers(frames, dir, raises)[j] <= |frames|
  {
    if frames != [] {
      var n := |frames|;
      var init := frames[..n - 1];
      SavedNumbersBounded(init, dir, raises);
      var last: seq<nat> := if raises(ImagePath(dir, n), frames[n - 1]) then [] else [n];
      assert SavedNumbers(frames, dir, raises) == SavedNumbers(init, dir, raises) + last;
    }
  }

  lemma {:induction false} SavedNumbersIncreasing<F>(frames: seq<F>, dir: string, raises: (string, F) -> bool)
    ensures forall j, k :: 0 <= j < k < |SavedNumbers(frames, dir, raises)| ==>
              SavedNumbers(frames, dir, raises)[j] < SavedNumbers(frames, dir, raises)[k]
  {
    if frames != [] {
      var n := |frames|;
      var init := frames[..n - 1];
      SavedNumbersIncreasing(init, dir, raises);
      SavedNumbersBounded(init, dir, raises);
      var last: seq<nat> := if raises(ImagePath(dir, n), frames[n - 1]) then [] else [n];
      assert SavedNumbers(frames, dir, raises) == SavedNumbers(init, dir, raises) + last;
    }
  }

  lemma {:induction false} SavedNumbersMembership<F>(frames: seq<F>, dir: string, raises: (string, F) -> bool)
    ensures forall n :: 1 <= n <= |frames| ==>
              (n in SavedNumbers(frames, dir, raises) <==> !raises(ImagePath(dir, n), frames[n - 1]))
  {
    if frames != [] {
      var init := frames[..|frames| - 1];
      SavedNumbersMembership(init, dir, raises);
      SavedNumbersBounded(init, dir, raises);
      assert forall k :: 0 <= k < |init| ==> init[k] == frames[k];
    }
  }

  /** When no write raises, the numbers are exactly 1, 2, ..., |frames|. */
  lemma {:induction false} AllWritesSaved<F>(frames: seq<F>, dir: string, raises: (string, F) -> bool)
    requires forall n :: 1 <= n <= |frames| ==> !raises(ImagePath(dir, n), frames[n - 1])
    ensures SavedNumbers(frames, dir, raises) == seq(|frames|, i => i + 1)
  {
    if frames != [] {
      var n := |frames|;
      var init := frames[..n - 1];
      assert forall k :: 0 <= k < |init| ==> init[k] == frames[k];
      AllWritesSaved(init, dir, raises);
      assert !raises(ImagePath(dir, n), frames[n - 1]);
      assert SavedNumbers(frames, dir, raises) == seq(n - 1, i => i + 1) + [n];
      assert seq(n - 1, i => i + 1) + [n] == seq(n, i => i + 1);
    }
  }

  function PathsOf(dir: string, ns: seq<nat>): (ps: seq<string>)
    ensures |ps| == |ns| && forall j :: 0 <= j < |ns| ==> ps[j] == ImagePath(dir, ns[j])
  {
    seq(|ns|, j requires 0 <= j < |ns| => ImagePath(dir, ns[j]))
  }

  /** save_images: write frame `i` to `output_dir/i.jpg` for i = 1, 2, ...; a write that
      raises is skipped (its number is not reused); raise when nothing was saved. */
  method SaveImages<F>(frames: seq<F>, dir: string, raises: (string, F) -> bool) returns (r: Result<seq<string>, SaveError>)
    ensures var ns := SavedNumbers(frames, dir, raises);
            if ns == [] then r == Failure(NoImageSaved) else r == Success(PathsOf(dir, ns))
  {
    var paths: seq<string> := [];
    var i := 1;
    while i <= |frames|
      invariant 1 <= i <= |frames| + 1
      invariant paths == PathsOf(dir, SavedNumbers(frames[..i - 1], dir, raises))
    {
      var path := ImagePath(dir, i);
      assert frames[..i][..i - 1] == frames[..i - 1];
      if !raises(path, frames[i - 1]) {
        paths := paths + [path];
      }
      i := i + 1;
    }
    assert frames[..|frames|] == frames;
    if paths == [] {
      return Failure(NoImageSaved);
    }
    return Success(paths);
  }
}
