/**
 * The video data processor of the data handler: it buffers parsed video
 * frames, and on every I or IDR slice flushes the buffer to the CSV writer in
 * PTS order, checking on the way that the timecodes run on frame by frame and
 * that an I slice arrives at each SCTE-35 splice time.
 */
module VideoDataProcessor {
  import opened Timestamps
  import opened Text

  /** The slice types of the parsed video; IdrSlice is a type of its own, distinct from ISlice. */
  datatype FrameType = UnknownSlice | ISlice | PSlice | BSlice | IdrSlice

  /** One parsed video frame, as VideoDataStruct. */
  datatype VideoData = VideoData(frameType: FrameType, pts: int, dts: int, timeCode: TimeCode)

  /** What the processor is handed: a video frame, SCTE-35 data with its splice time, or other data. */
  datatype Parsed =
    | ParsedVideo(video: VideoData)
    | ParsedScte35(spliceTime: int)
    | ParsedOtherData

  const Uint64Range := 0x1_0000_0000_0000_0000

  /** Go's uint64(x) of a signed value: two's complement, so a negative value wraps. */
  function Uint64(x: int): (r: nat)
    ensures r < Uint64Range
    ensures 0 <= x < Uint64Range ==> r == x
    ensures x < 0 && -x <= Uint64Range ==> r == x + Uint64Range
  {
    x % Uint64Range
  }

  /** NewTimeCode: every field -1. */
  const EmptyTimeCode := TimeCode(-1, -1, -1, -1, false, false)

  /** TimeCode.Equals compares hour, minute, second and frame only. */
  predicate SameTimeCode(a: TimeCode, b: TimeCode)
  {
    a.hour == b.hour && a.minute == b.minute && a.second == b.second && a.frame == b.frame
  }

  predicate IsEmpty(tc: TimeCode)
  {
    SameTimeCode(tc, EmptyTimeCode)
  }

  // ----- ordering by PTS -----

  predicate SortedByPts(s: seq<VideoData>)
  {
    forall i, j | 0 <= i < j < |s| :: s[i].pts <= s[j].pts
  }

  /** v put into a sorted sequence after the frames whose PTS is smaller. */
  function InsertByPts(s: seq<VideoData>, v: VideoData): (r: seq<VideoData>)
    requires SortedByPts(s)
    ensures SortedByPts(r) && multiset(r) == multiset(s) + multiset{v}
  {
    if s == [] then [v]
    else if v.pts <= s[0].pts then [v] + s
    else
      var rest := InsertByPts(s[1..], v);
      assert s == [s[0]] + s[1..];
      NotBelow(s, v, rest);
      [s[0]] + rest
  }

  /** What is inserted after the first frame has a PTS no smaller than the first frame's. */
  lemma NotBelow(s: seq<VideoData>, v: VideoData, rest: seq<VideoData>)
    requires SortedByPts(s) && s != [] && v.pts > s[0].pts && multiset(rest) == multiset(s[1..]) + multiset{v}
    ensures forall k | 0 <= k < |rest| :: rest[k].pts >= s[0].pts
  {
    forall k | 0 <= k < |rest|
      ensures rest[k].pts >= s[0].pts
    {
      assert rest[k] in multiset(rest);
      if rest[k] != v {
        assert rest[k] in multiset(s[1..]);
        var m :| 0 <= m < |s[1..]| && s[1..][m] == rest[k];
        assert s[m + 1] == rest[k];
      }
    }
  }

  /** sort.Slice by Pts: the frames sorted by PTS, each kept. */
  function SortByPts(s: seq<VideoData>): (r: seq<VideoData>)
    ensures SortedByPts(r) && multiset(r) == multiset(s)
  {
    if s == [] then []
    else
      assert s == s[..|s| - 1] + [s[|s| - 1]];
      InsertByPts(SortByPts(s[..|s| - 1]), s[|s| - 1])
  }

  // ----- the two checks made on each flushed frame -----

  /** The splice times an I slice at pts leaves pending: those after it, in their order. */
  function Pending(splice: seq<int>, pts: int): (r: seq<int>)
  {
    if splice == [] then []
    else Pending(splice[..|splice| - 1], pts) + (if splice[|splice| - 1] > pts then [splice[|splice| - 1]] else [])
  }

  /** What the checks keep between frames. */
  datatype Checks = Checks(splicePts: seq<int>, lastTc: TimeCode, nTcDiscontinuity: int)

  /** validateTimeCode: a non-empty timecode that is not one 29.97 drop-frame step after the last one is counted, and becomes the last one. */
  function CheckTimeCode(c: Checks, tc: TimeCode): Checks
  {
    if IsEmpty(tc) then c
    else
      var next := GetNextTimeCode(c.lastTc, 30000, 1001, true);
      c.(lastTc := tc, nTcDiscontinuity := c.nTcDiscontinuity + (if SameTimeCode(tc, next) then 0 else 1))
  }

  /** validateSpliceIDR: an I slice settles every splice time up to its PTS; other slices change nothing. */
  function CheckSplice(c: Checks, v: VideoData): Checks
  {
    if v.frameType != ISlice then c else c.(splicePts := Pending(c.splicePts, Uint64(v.pts)))
  }

  function CheckFrame(c: Checks, v: VideoData): Checks
  {
    CheckSplice(CheckTimeCode(c, v.timeCode), v)
  }

  /** The checks run over the flushed frames in turn. */
  function CheckAll(c: Checks, vs: seq<VideoData>): Checks
  {
    if vs == [] then c else CheckFrame(CheckAll(c, vs[..|vs| - 1]), vs[|vs| - 1])
  }

  predicate IsRandomAccess(t: FrameType)
  {
    t == ISlice || t == IdrSlice
  }

  /** videoDataProcessorStruct, with the CSV writer as the sequence of frames written to it. */
  class Processor {
    var videos: seq<VideoData>
    var splicePts: seq<int>
    var lastTc: TimeCode
    var nTcDiscontinuity: int
    var written: seq<VideoData>

    /** Splice times are uint64 values. */
    ghost predicate Valid()
      reads this
    {
      forall i | 0 <= i < |splicePts| :: 0 <= splicePts[i] < Uint64Range
    }

    function State(): Checks
      reads this
    {
      Checks(splicePts, lastTc, nTcDiscontinuity)
    }

    /** videoDataProcessor */
    constructor()
      ensures Valid()
      ensures videos == [] && splicePts == [] && lastTc == EmptyTimeCode && nTcDiscontinuity == 0 && written == []
    {
      videos := [];
      splicePts := [];
      lastTc := EmptyTimeCode;
      nTcDiscontinuity := 0;
      written := [];
    }

    /**
     * Process: a video frame takes the unit's PTS and DTS; an I or IDR slice
     * first flushes the buffered frames sorted by PTS, checking each, then
     * starts a new buffer; SCTE-35 data queues its splice time. flushed is
     * what this call writes.
     */
    method Process(parsed: Parsed, pts: int, dts: int) returns (ghost flushed: seq<VideoData>)
      requires Valid()
      modifies this
      ensures Valid()
      ensures written == old(written) + flushed
      ensures parsed.ParsedVideo? && IsRandomAccess(parsed.video.frameType) ==>
        SortedByPts(flushed) && multiset(flushed) == multiset(old(videos))
        && State() == CheckAll(old(State()), flushed)
        && videos == [parsed.video.(pts := pts, dts := dts)]
      ensures parsed.ParsedVideo? && !IsRandomAccess(parsed.video.frameType) ==>
        flushed == [] && videos == old(videos) + [parsed.video.(pts := pts, dts := dts)] && State() == old(State())
      ensures parsed.ParsedScte35? ==>
        flushed == [] && videos == old(videos)
        && State() == old(State()).(splicePts := old(splicePts) + [Uint64(parsed.spliceTime)])
      ensures parsed.ParsedOtherData? ==> flushed == [] && videos == old(videos) && State() == old(State())
    {
      flushed := [];
      match parsed {
        case ParsedVideo(video) =>
          var data := video.(pts := pts, dts := dts);
          if IsRandomAccess(data.frameType) {
            flushed := Flush();
          }
          videos := videos + [data];
        case ParsedScte35(spliceTime) =>
          splicePts := splicePts + [Uint64(spliceTime)];
        case ParsedOtherData =>
      }
    }

    /** The buffered frames written out sorted by PTS and checked one by one, and the buffer emptied. */
    method Flush() returns (ghost flushed: seq<VideoData>)
      requires Valid()
      modifies this
      ensures Valid()
      ensures written == old(written) + flushed
      ensures SortedByPts(flushed) && multiset(flushed) == multiset(old(videos))
      ensures State() == CheckAll(old(State()), flushed)
      ensures videos == []
    {
      var sorted := SortByPts(videos);
      WriteAll(sorted);
      flushed := sorted;
      videos := [];
    }

    /** The frames written and checked in the given order. */
    method WriteAll(sorted: seq<VideoData>)
      requires Valid()
      modifies this
      ensures Valid()
      ensures written == old(written) + sorted && videos == old(videos)
      ensures State() == CheckAll(old(State()), sorted)
    {
      ghost var w0, c0 := written, State();
      for i := 0 to |sorted|
        invariant Valid() && videos == old(videos)
        invariant written == w0 + sorted[..i]
        invariant State() == CheckAll(c0, sorted[..i])
      {
        WriteAndCheck(sorted[i]);
        assert sorted[..i + 1] == sorted[..i] + [sorted[i]];
      }
      assert sorted[..|sorted|] == sorted;
    }

    /** One flushed frame: written, then its timecode and splice checks. */
    method WriteAndCheck(stored: VideoData)
      requires Valid()
      modifies this
      ensures Valid()
      ensures written == old(written) + [stored] && videos == old(videos)
      ensures State() == CheckFrame(old(State()), stored)
    {
      written := written + [stored];
      ValidateTimeCode(stored);
      ValidateSpliceIdr(stored);
    }

    /** validateTimeCode */
    method ValidateTimeCode(data: VideoData)
      requires Valid()
      modifies this`lastTc, this`nTcDiscontinuity
      ensures Valid()
      ensures State() == CheckTimeCode(old(State()), data.timeCode)
    {
      if !IsEmpty(data.timeCode) {
        var nextTc := GetNextTimeCode(lastTc, 30000, 1001, true);
        if !SameTimeCode(data.timeCode, nextTc) {
          nTcDiscontinuity := nTcDiscontinuity + 1;
        }
        lastTc := data.timeCode;
      }
    }

    /** validateSpliceIDR: the splice times still after an I slice's PTS, in their order. */
    method ValidateSpliceIdr(data: VideoData)
      requires Valid()
      modifies this`splicePts
      ensures Valid()
      ensures State() == CheckSplice(old(State()), data)
    {
      if data.frameType == ISlice {
        var pts := Uint64(data.pts);
        var updated := [];
        for i := 0 to |splicePts|
          invariant updated == Pending(splicePts[..i], pts)
          invariant forall k | 0 <= k < |updated| :: 0 <= updated[k] < Uint64Range
        {
          assert splicePts[..i + 1][..i] == splicePts[..i];
          if pts > splicePts[i] {
            // no I frame at this splice time
          } else if pts == splicePts[i] {
            // I frame found at this splice time
          } else {
            updated := updated + [splicePts[i]];
          }
        }
        assert splicePts[..|splicePts|] == splicePts;
        splicePts := updated;
      }
    }

    /** PrintInfo: the discontinuity count is reported, and restarted, once a timecode has been seen. */
    method PrintInfo() returns (text: string)
      modifies this`nTcDiscontinuity
      ensures IsEmpty(lastTc) ==> text == "\tVideo processor:\n" && nTcDiscontinuity == old(nTcDiscontinuity)
      ensures !IsEmpty(lastTc) ==>
        text == "\tVideo processor:\n" + "\t\tTimecode discontinuities: " + Itoa(old(nTcDiscontinuity))
        && nTcDiscontinuity == 0
    {
      text := "\tVideo processor:\n";
      if !IsEmpty(lastTc) {
        text := text + "\t\tTimecode discontinuities: " + Itoa(nTcDiscontinuity);
        nTcDiscontinuity := 0;
      }
    }
  }

  // ----- properties of the checks -----

  /** A splice time stays pending exactly when it is after the I slice's PTS. */
  lemma {:induction false} PendingExact(splice: seq<int>, pts: int, x: int)
    ensures x in Pending(splice, pts) <==> x in splice && x > pts
  {
    if splice != [] {
      var init, last := splice[..|splice| - 1], splice[|splice| - 1];
      PendingExact(init, pts, x);
      assert splice == init + [last];
    }
  }

  /** Pending keeps the order of the splice times: it works piecewise on a concatenation. */
  lemma {:induction false} PendingConcat(a: seq<int>, b: seq<int>, pts: int)
    ensures Pending(a + b, pts) == Pending(a, pts) + Pending(b, pts)
  {
    if b == [] {
      assert a + b == a;
    } else {
      var init, last := b[..|b| - 1], b[|b| - 1];
      PendingConcat(a, init, pts);
      assert (a + b)[..|a + b| - 1] == a + init;
    }
  }

  /** Two I slices in turn leave pending what the later of the two PTS values would. */
  lemma {:induction false} PendingTwice(splice: seq<int>, p: int, q: int)
    ensures Pending(Pending(splice, p), q) == Pending(splice, if p < q then q else p)
  {
    if splice != [] {
      var init, last := splice[..|splice| - 1], splice[|splice| - 1];
      PendingTwice(init, p, q);
      var kept := if last > p then [last] else [];
      PendingConcat(Pending(init, p), kept, q);
      if last > p {
        assert Pending(kept, q) == Pending([], q) + (if last > q then [last] else []);
      }
    }
  }

  /** The timecode and the count of discontinuities do not depend on the splice check. */
  lemma CheckFrameTimeCode(c: Checks, v: VideoData)
    ensures CheckFrame(c, v).lastTc == CheckTimeCode(c, v.timeCode).lastTc
    ensures CheckFrame(c, v).nTcDiscontinuity == CheckTimeCode(c, v.timeCode).nTcDiscontinuity
  {
  }

  /** Each flushed frame adds at most one discontinuity. */
  lemma {:induction false} DiscontinuitiesBounded(c: Checks, vs: seq<VideoData>)
    ensures c.nTcDiscontinuity <= CheckAll(c, vs).nTcDiscontinuity <= c.nTcDiscontinuity + |vs|
  {
    if vs != [] {
      DiscontinuitiesBounded(c, vs[..|vs| - 1]);
      CheckFrameTimeCode(CheckAll(c, vs[..|vs| - 1]), vs[|vs| - 1]);
    }
  }

  /** The timecode before the frames that follow vs: the last of vs, or last when vs is empty. */
  function LastTimeCode(last: TimeCode, vs: seq<VideoData>): TimeCode
  {
    if vs == [] then last else vs[|vs| - 1].timeCode
  }

  /** tc is not empty and is one drop-frame step at 29.97 frames a second after prev. */
  predicate Follows(prev: TimeCode, tc: TimeCode)
  {
    !IsEmpty(tc) && SameTimeCode(tc, GetNextTimeCode(prev, 30000, 1001, true))
  }

  /** Timecodes that each follow the one before, the first following last. */
  predicate RunsOn(last: TimeCode, vs: seq<VideoData>)
  {
    vs == [] || (RunsOn(last, vs[..|vs| - 1]) && Follows(LastTimeCode(last, vs[..|vs| - 1]), vs[|vs| - 1].timeCode))
  }

  /** Frames whose timecodes run on count no discontinuity, and the last of them becomes the last timecode. */
  lemma {:induction false} RunCountsNothing(c: Checks, vs: seq<VideoData>)
    requires RunsOn(c.lastTc, vs)
    ensures CheckAll(c, vs).nTcDiscontinuity == c.nTcDiscontinuity
    ensures CheckAll(c, vs).lastTc == LastTimeCode(c.lastTc, vs)
  {
    if vs != [] {
      var init := vs[..|vs| - 1];
      RunCountsNothing(c, init);
      CheckFrameTimeCode(CheckAll(c, init), vs[|vs| - 1]);
    }
  }

  /** A timecode that does not follow the last one is counted once. */
  lemma BreakCounted(c: Checks, vs: seq<VideoData>, v: VideoData)
    requires !IsEmpty(v.timeCode) && !Follows(CheckAll(c, vs).lastTc, v.timeCode)
    ensures CheckAll(c, vs + [v]).nTcDiscontinuity == CheckAll(c, vs).nTcDiscontinuity + 1
    ensures CheckAll(c, vs + [v]).lastTc == v.timeCode
  {
    assert (vs + [v])[..|vs|] == vs;
    CheckFrameTimeCode(CheckAll(c, vs), v);
  }

  /**
   * SCTE-35 data carrying 2233567 and 3344567, each handed in twice, then I
   * slices at 1234567, 2233567 and 3344577: the first settles nothing, the
   * second both copies of 2233567, the third everything.
   */
  lemma SpliceBeforeAll(splice: seq<int>)
    requires splice == [2233567, 2233567, 3344567, 3344567]
    ensures Pending(splice, 1234567) == splice
  {
    PendingAllAfter(splice, 1234567);
  }

  lemma SpliceSettlesEarly(early: seq<int>, late: seq<int>)
    requires early == [2233567, 2233567] && late == [3344567, 3344567]
    ensures Pending(early + late, 2233567) == late
  {
    PendingConcat(early, late, 2233567);
    PendingNoneAfter(early, 2233567);
    PendingAllAfter(late, 2233567);
  }

  lemma SpliceSettlesLate(late: seq<int>)
    requires late == [3344567, 3344567]
    ensures Pending(late, 3344577) == []
  {
    PendingNoneAfter(late, 3344577);
  }

  /** Splice times all after the PTS all stay pending. */
  lemma {:induction false} PendingAllAfter(splice: seq<int>, pts: int)
    requires forall k | 0 <= k < |splice| :: splice[k] > pts
    ensures Pending(splice, pts) == splice
  {
    if splice != [] {
      PendingAllAfter(splice[..|splice| - 1], pts);
    }
  }

  /** Splice times none of which is after the PTS are all settled. */
  lemma {:induction false} PendingNoneAfter(splice: seq<int>, pts: int)
    requires forall k | 0 <= k < |splice| :: splice[k] <= pts
    ensures Pending(splice, pts) == []
  {
    if splice != [] {
      PendingNoneAfter(splice[..|splice| - 1], pts);
    }
  }
}
