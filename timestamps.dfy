/**
 * SMPTE timecode arithmetic on the 27 MHz program clock: stepping a timecode
 * by one frame, converting a clock value to a non-drop-frame or drop-frame
 * timecode, and unwrapping a 32-bit 90 kHz RTP timestamp against the current
 * UTC time.
 */
module Timestamps {
  import opened GoInt
  import opened Bits

  // The clock package's constants, in 27 MHz ticks.
  const Clk90k := 300
  const Second := 27000000
  const Minute := 60 * Second
  const Hour := 60 * Minute
  const Day := 24 * Hour

  /** RTP timestamps wrap after 4294967295 ticks of the 90 kHz clock. */
  const RtpLoopPoint := 4294967295 * Clk90k
  const DiffThreshold := 60 * Second
  /** The 37 leap seconds between TAI and UTC. */
  const Leap := 37 * Second

  datatype TimeCode = TimeCode(hour: int, minute: int, second: int, frame: int, dropFrame: bool, field: bool)

  // ----- stepping by one frame -----

  /** The last frame number of a second at frame rate num/den, rounded to the nearest whole rate. */
  function MaxFrame(num: int, den: int): int
    requires den != 0
  {
    GoDiv(num + GoDiv(den, 2), den) - 1
  }

  /**
   * GetNextTimeCode: one frame later, carrying into seconds, minutes and hours
   * and wrapping after hour 23; in drop-frame mode frames 0 and 1 of second 0
   * are skipped in every minute not divisible by ten.
   */
  function GetNextTimeCode(tc: TimeCode, num: int, den: int, dropFrame: bool): (r: TimeCode)
    requires den != 0
    ensures dropFrame && r.second == 0 && GoRem(r.minute, 10) > 0 ==> r.frame >= 2
    ensures r.dropFrame == tc.dropFrame && r.field == tc.field
  {
    StepFrame(tc, MaxFrame(num, den), dropFrame)
  }

  /** One frame after tc when frames run from 0 to maxFrame. */
  function StepFrame(tc: TimeCode, maxFrame: int, dropFrame: bool): (r: TimeCode)
    ensures dropFrame && r.second == 0 && GoRem(r.minute, 10) > 0 ==> r.frame >= 2
    ensures r.dropFrame == tc.dropFrame && r.field == tc.field
  {
    var r1 := if tc.frame == maxFrame then tc.(second := tc.second + 1, frame := 0) else tc.(frame := tc.frame + 1);
    var r2 := if r1.second == 60 then r1.(minute := r1.minute + 1, second := 0) else r1;
    var r3 := if r2.minute == 60 then r2.(hour := r2.hour + 1, minute := 0) else r2;
    var r4 := if r3.hour == 24 then r3.(hour := 0) else r3;
    if dropFrame && r4.frame <= 2 && r4.second == 0 && GoRem(r4.minute, 10) > 0 then r4.(frame := 2) else r4
  }

  /** A timecode within one day whose frame number is at most maxFrame. */
  predicate InRange(tc: TimeCode, maxFrame: int)
  {
    0 <= tc.hour < 24 && 0 <= tc.minute < 60 && 0 <= tc.second < 60 && 0 <= tc.frame <= maxFrame
  }

  /** The frames since midnight of a non-drop-frame timecode at fps frames per second. */
  function FrameIndex(tc: TimeCode, fps: int): int
  {
    ((tc.hour * 60 + tc.minute) * 60 + tc.second) * fps + tc.frame
  }

  predicate LastOfDay(tc: TimeCode, maxFrame: int)
  {
    tc.hour == 23 && tc.minute == 59 && tc.second == 59 && tc.frame == maxFrame
  }

  /**
   * In non-drop-frame mode the next timecode is the next frame: its frame
   * index is one more, except after the last frame of the day, which is
   * followed by 00:00:00:00.
   */
  lemma NextNonDrop(tc: TimeCode, num: int, den: int)
    requires den != 0 && MaxFrame(num, den) >= 0 && InRange(tc, MaxFrame(num, den))
    ensures InRange(GetNextTimeCode(tc, num, den, false), MaxFrame(num, den))
    ensures !LastOfDay(tc, MaxFrame(num, den)) ==>
      FrameIndex(GetNextTimeCode(tc, num, den, false), MaxFrame(num, den) + 1) == FrameIndex(tc, MaxFrame(num, den) + 1) + 1
    ensures LastOfDay(tc, MaxFrame(num, den)) ==>
      var r := GetNextTimeCode(tc, num, den, false); r.hour == 0 && r.minute == 0 && r.second == 0 && r.frame == 0
  {
    NextNonDropStep(tc, MaxFrame(num, den));
  }

  lemma NextNonDropStep(tc: TimeCode, mf: int)
    requires mf >= 0 && InRange(tc, mf)
    ensures InRange(StepFrame(tc, mf, false), mf)
    ensures !LastOfDay(tc, mf) ==> FrameIndex(StepFrame(tc, mf, false), mf + 1) == FrameIndex(tc, mf + 1) + 1
    ensures LastOfDay(tc, mf) ==>
      var r := StepFrame(tc, mf, false); r.hour == 0 && r.minute == 0 && r.second == 0 && r.frame == 0
  {
    var r := StepFrame(tc, mf, false);
    if tc.frame < mf {
      assert r == tc.(frame := tc.frame + 1);
    } else {
      if tc.second < 59 {
        assert r == tc.(second := tc.second + 1, frame := 0);
      } else if tc.minute < 59 {
        assert r == tc.(minute := tc.minute + 1, second := 0, frame := 0);
      } else if tc.hour < 23 {
        assert r == tc.(hour := tc.hour + 1, minute := 0, second := 0, frame := 0);
      } else {
        assert r == tc.(hour := 0, minute := 0, second := 0, frame := 0);
      }
      if !LastOfDay(tc, mf) {
        NextSecondIndex(tc, r, mf + 1);
      }
    }
  }

  /** The first frame of the next second follows the last frame of this one. */
  lemma NextSecondIndex(tc: TimeCode, r: TimeCode, fps: int)
    requires tc.frame == fps - 1 && r.frame == 0
    requires (r.hour * 60 + r.minute) * 60 + r.second == (tc.hour * 60 + tc.minute) * 60 + tc.second + 1
    ensures FrameIndex(r, fps) == FrameIndex(tc, fps) + 1
  {
    var k := (tc.hour * 60 + tc.minute) * 60 + tc.second;
    assert (k + 1) * fps == k * fps + fps;
  }

  // ----- drop-frame counting -----

  /** Drop-frame frames in a minute that drops two: fps·60 − 2. */
  function FramesIn1Min(fps: int): int { fps * 60 - 2 }

  /** Drop-frame frames in ten minutes: nine short minutes and one full one. */
  function FramesIn10Min(fps: int): int { FramesIn1Min(fps) * 10 + 2 }

  /** A drop-frame timecode within one day that does not name a dropped frame. */
  predicate ValidDrop(tc: TimeCode, fps: int)
  {
    InRange(tc, fps - 1) && !(tc.second == 0 && tc.minute % 10 > 0 && tc.frame < 2)
  }

  /**
   * The frames since midnight of a drop-frame timecode: whole ten-minute
   * blocks, then the full first minute, then short minutes that start at frame 2.
   */
  function DropIndex(tc: TimeCode, fps: int): int
  {
    var m := tc.minute % 10;
    (tc.hour * 6 + tc.minute / 10) * FramesIn10Min(fps)
      + (if m == 0 then tc.second * fps + tc.frame
         else fps * 60 + (m - 1) * FramesIn1Min(fps) + tc.second * fps + tc.frame - 2)
  }

  /**
   * In drop-frame mode the next timecode of a valid one is valid and is the
   * next frame of the drop-frame count, except after the last frame of the day.
   */
  lemma NextDrop(tc: TimeCode, num: int, den: int)
    requires den != 0 && MaxFrame(num, den) >= 2 && ValidDrop(tc, MaxFrame(num, den) + 1)
    ensures ValidDrop(GetNextTimeCode(tc, num, den, true), MaxFrame(num, den) + 1)
    ensures !LastOfDay(tc, MaxFrame(num, den)) ==>
      DropIndex(GetNextTimeCode(tc, num, den, true), MaxFrame(num, den) + 1) == DropIndex(tc, MaxFrame(num, den) + 1) + 1
    ensures LastOfDay(tc, MaxFrame(num, den)) ==>
      var r := GetNextTimeCode(tc, num, den, true); r.hour == 0 && r.minute == 0 && r.second == 0 && r.frame == 0
  {
    NextDropStep(tc, MaxFrame(num, den) + 1);
  }

  lemma NextDropStep(tc: TimeCode, fps: int)
    requires fps >= 3 && ValidDrop(tc, fps)
    ensures NextDropOk(tc, StepFrame(tc, fps - 1, true), fps)
  {
    if tc.frame < fps - 1 {
      NextFrameDrop(tc, fps);
    } else if tc.second < 59 {
      NextSecondDrop(tc, fps);
    } else if tc.minute % 10 != 9 {
      NextMinute(tc, fps);
    } else if !LastOfDay(tc, fps - 1) {
      NextTenMinutes(tc, fps);
    } else {
      LastFrameDrop(tc, fps);
    }
  }

  /** r is valid and follows tc in the drop-frame count, or tc is the last frame of the day and r is midnight. */
  predicate NextDropOk(tc: TimeCode, r: TimeCode, fps: int)
  {
    ValidDrop(r, fps)
    && (!LastOfDay(tc, fps - 1) ==> DropIndex(r, fps) == DropIndex(tc, fps) + 1)
    && (LastOfDay(tc, fps - 1) ==> r.hour == 0 && r.minute == 0 && r.second == 0 && r.frame == 0)
  }

  lemma NextFrameDrop(tc: TimeCode, fps: int)
    requires fps >= 3 && ValidDrop(tc, fps) && tc.frame < fps - 1
    ensures NextDropOk(tc, StepFrame(tc, fps - 1, true), fps)
  {
    GoDivNonNegative(tc.minute, 10);
    assert StepFrame(tc, fps - 1, true) == tc.(frame := tc.frame + 1);
  }

  lemma NextSecondDrop(tc: TimeCode, fps: int)
    requires fps >= 3 && ValidDrop(tc, fps) && tc.frame == fps - 1 && tc.second < 59
    ensures NextDropOk(tc, StepFrame(tc, fps - 1, true), fps)
  {
    var r := StepFrame(tc, fps - 1, true);
    assert r == tc.(second := tc.second + 1, frame := 0);
    assert (tc.second + 1) * fps == tc.second * fps + fps;
  }

  lemma NextMinute(tc: TimeCode, fps: int)
    requires fps >= 3 && ValidDrop(tc, fps) && tc.frame == fps - 1 && tc.second == 59 && tc.minute % 10 != 9
    ensures NextDropOk(tc, StepFrame(tc, fps - 1, true), fps)
  {
    var r := StepFrame(tc, fps - 1, true);
    GoDivNonNegative(tc.minute + 1, 10);
    assert r == tc.(minute := tc.minute + 1, second := 0, frame := 2);
    var m := tc.minute % 10;
    assert (tc.minute + 1) % 10 == m + 1 && (tc.minute + 1) / 10 == tc.minute / 10;
    assert 59 * fps + fps == 60 * fps;
    if m > 0 {
      assert m * FramesIn1Min(fps) == (m - 1) * FramesIn1Min(fps) + FramesIn1Min(fps);
    }
  }

  lemma NextTenMinutes(tc: TimeCode, fps: int)
    requires fps >= 3 && ValidDrop(tc, fps) && !LastOfDay(tc, fps - 1)
    requires tc.frame == fps - 1 && tc.second == 59 && tc.minute % 10 == 9
    ensures NextDropOk(tc, StepFrame(tc, fps - 1, true), fps)
  {
    var r := StepFrame(tc, fps - 1, true);
    if tc.minute < 59 {
      GoDivNonNegative(tc.minute + 1, 10);
      assert r == tc.(minute := tc.minute + 1, second := 0, frame := 0);
    } else {
      assert r == tc.(hour := tc.hour + 1, minute := 0, second := 0, frame := 0);
    }
    assert r.hour * 6 + r.minute / 10 == tc.hour * 6 + tc.minute / 10 + 1;
    var b := tc.hour * 6 + tc.minute / 10;
    assert (b + 1) * FramesIn10Min(fps) == b * FramesIn10Min(fps) + FramesIn10Min(fps);
    assert 8 * FramesIn1Min(fps) == 480 * fps - 16;
    assert 59 * fps + fps == 60 * fps;
  }

  lemma LastFrameDrop(tc: TimeCode, fps: int)
    requires fps >= 3 && LastOfDay(tc, fps - 1)
    ensures NextDropOk(tc, StepFrame(tc, fps - 1, true), fps)
  {
    assert StepFrame(tc, fps - 1, true) == tc.(hour := 0, minute := 0, second := 0, frame := 0);
  }

  /**
   * getDFTimeCodeFromNFrames: the drop-frame timecode of the nFrames-th frame
   * after the sync point. In field mode the frame count and the rate are halved.
   */
  function GetDFTimeCodeFromNFrames(nFrames: int, num: int, den: int, field: bool): TimeCode
    requires den != 0 && GoDiv(if field then GoDiv(num, 2) else num, den) + 1 != 0
  {
    var n := if field then GoDiv(nFrames, 2) else nFrames;
    var num' := if field then GoDiv(num, 2) else num;
    DropFrameTimeCode(n, GoDiv(num', den) + 1)
  }

  /**
   * The drop-frame timecode of frame n at fps frames per nominal second:
   * ten-minute blocks, then minutes of the block (the first is a full minute,
   * each later one starts at frame 2), then seconds and frames.
   */
  function DropFrameTimeCode(n: int, fps: int): TimeCode
    requires fps != 0
  {
    var blocks := GoDiv(n, FramesIn10Min(fps));
    DropFrameInBlock(blocks, n - blocks * FramesIn10Min(fps), fps)
  }

  /** Frame rem of ten-minute block number blocks: which minute of the block, then the place in that minute. */
  function DropFrameInBlock(blocks: int, rem: int, fps: int): TimeCode
    requires fps != 0
  {
    var minBlock := GoDiv(rem - 2, FramesIn1Min(fps));
    DropFrameInMinute(GoRem(GoDiv(blocks, 6), 24), GoRem(blocks, 6) * 10 + minBlock,
                      rem - minBlock * FramesIn1Min(fps), fps)
  }

  /** Place rem' of a minute as second and frame; frames 0 and 1 of a dropping minute become frame 2. */
  function DropFrameInMinute(hour: int, minute: int, rem': int, fps: int): TimeCode
    requires fps != 0
  {
    var tc := TimeCode(hour, minute, GoDiv(rem', fps), GoRem(rem', fps), true, true);
    if tc.frame <= 2 && tc.second == 0 && GoRem(tc.minute, 10) > 0 then tc.(frame := 2) else tc
  }

  /**
   * The conversion inverts the drop-frame count: for a non-negative frame
   * count it gives a valid drop-frame timecode whose count is n, modulo the
   * frames of a day.
   */
  lemma DropFrameCounts(n: int, fps: int)
    requires n >= 0 && fps >= 1
    ensures ValidDrop(DropFrameTimeCode(n, fps), fps)
    ensures DropIndex(DropFrameTimeCode(n, fps), fps) == n % (144 * FramesIn10Min(fps))
  {
    var blocks, rem, hour, tenMin, q, s, f := DropFrameParts(n, fps);
    var tc := DropFrameTimeCode(n, fps);
    DropIndexParts(tc, tenMin, q, s * fps + f, fps);
    DayOfFrames(n, blocks, rem, FramesIn10Min(fps));
  }

  /** The ten-minute blocks, hour, minute, second and frame that DropFrameTimeCode computes. */
  lemma DropFrameParts(n: int, fps: int) returns (blocks: int, rem: int, hour: int, tenMin: int, q: int, s: int, f: int)
    requires n >= 0 && fps >= 1
    ensures blocks == n / FramesIn10Min(fps) && rem == n % FramesIn10Min(fps)
    ensures 0 <= hour < 24 && 0 <= tenMin < 6 && hour * 6 + tenMin == blocks % 144
    ensures 0 <= q <= 9 && 0 <= s < 60 && 0 <= f < fps && (s == 0 && q > 0 ==> f >= 2)
    ensures rem == s * fps + f + q * FramesIn1Min(fps)
    ensures DropFrameTimeCode(n, fps) == TimeCode(hour, tenMin * 10 + q, s, f, true, true)
  {
    var n10 := FramesIn10Min(fps);
    GoDivNonNegative(n, n10);
    blocks, rem := n / n10, n % n10;
    DivNonNegative(n, n10);
    var rem';
    q, rem' := MinuteOfBlock(rem, fps);
    s, f := SecondOfMinute(rem', fps);
    hour, tenMin := HourOfBlocks(blocks);
    DropFrameIs(n, fps, blocks, rem, hour, tenMin, q, rem', s, f);
  }

  /** DropFrameTimeCode put together from the quotients and remainders it takes. */
  lemma DropFrameIs(n: int, fps: int, blocks: int, rem: int, hour: int, tenMin: int, q: int, rem': int, s: int, f: int)
    requires fps >= 1 && GoDiv(n, FramesIn10Min(fps)) == blocks && rem == n - blocks * FramesIn10Min(fps)
    requires GoDiv(rem - 2, FramesIn1Min(fps)) == q && rem' == rem - q * FramesIn1Min(fps)
    requires GoRem(GoDiv(blocks, 6), 24) == hour && GoRem(blocks, 6) == tenMin && 0 <= tenMin < 6 && 0 <= q
    requires GoDiv(rem', fps) == s && GoRem(rem', fps) == f && (s == 0 && q > 0 ==> f >= 2)
    ensures DropFrameTimeCode(n, fps) == TimeCode(hour, tenMin * 10 + q, s, f, true, true)
  {
    DropFrameSplit(n, fps, blocks, rem);
    BlockSplit(blocks, rem, fps, hour, tenMin, q, rem');
    var minute := tenMin * 10 + q;
    if q == 0 {
      DivModUnique(minute, 10, tenMin, 0);
    }
    MinuteIs(hour, minute, rem', fps, s, f);
  }

  /** DropFrameTimeCode from its block count and the place in the block. */
  lemma DropFrameSplit(n: int, fps: int, blocks: int, rem: int)
    requires fps >= 1 && GoDiv(n, FramesIn10Min(fps)) == blocks && rem == n - blocks * FramesIn10Min(fps)
    ensures DropFrameTimeCode(n, fps) == DropFrameInBlock(blocks, rem, fps)
  {
  }

  /** DropFrameInBlock from the hour, the ten-minute block of the hour, the minute of the block and the place in it. */
  lemma BlockSplit(blocks: int, rem: int, fps: int, hour: int, tenMin: int, q: int, rem': int)
    requires fps >= 1 && GoDiv(rem - 2, FramesIn1Min(fps)) == q && rem' == rem - q * FramesIn1Min(fps)
    requires GoRem(GoDiv(blocks, 6), 24) == hour && GoRem(blocks, 6) == tenMin
    ensures DropFrameInBlock(blocks, rem, fps) == DropFrameInMinute(hour, tenMin * 10 + q, rem', fps)
  {
  }

  /** DropFrameInMinute from the second and frame; the frame-2 correction never applies to a valid place. */
  lemma MinuteIs(hour: int, minute: int, rem': int, fps: int, s: int, f: int)
    requires fps >= 1 && minute >= 0 && GoDiv(rem', fps) == s && GoRem(rem', fps) == f
    requires s == 0 && minute % 10 > 0 ==> f >= 2
    ensures DropFrameInMinute(hour, minute, rem', fps) == TimeCode(hour, minute, s, f, true, true)
  {
    GoDivNonNegative(minute, 10);
  }

  /** Which minute of a ten-minute block frame rem falls in, and its place in that minute. */
  lemma MinuteOfBlock(rem: int, fps: int) returns (q: int, rem': int)
    requires fps >= 1 && 0 <= rem < FramesIn10Min(fps)
    ensures q == GoDiv(rem - 2, FramesIn1Min(fps)) && rem' == rem - q * FramesIn1Min(fps)
    ensures 0 <= q <= 9
    ensures q == 0 ==> 0 <= rem' < 60 * fps
    ensures q > 0 ==> 2 <= rem' < 60 * fps
  {
    var n1 := FramesIn1Min(fps);
    q := GoDiv(rem - 2, n1);
    rem' := rem - q * n1;
    if rem < 2 {
      ModOfSmall(2 - rem, n1);
    } else {
      GoDivNonNegative(rem - 2, n1);
      assert rem - 2 < 10 * n1;
      DivBelow(rem - 2, 10, n1);
      assert (rem - 2) == q * n1 + (rem - 2) % n1;
    }
  }

  /** The second and frame of place rem' in a minute. */
  lemma SecondOfMinute(rem': int, fps: int) returns (s: int, f: int)
    requires fps >= 1 && 0 <= rem' < 60 * fps
    ensures s == GoDiv(rem', fps) && f == GoRem(rem', fps)
    ensures 0 <= s < 60 && 0 <= f < fps && rem' == s * fps + f
  {
    GoDivNonNegative(rem', fps);
    s, f := rem' / fps, rem' % fps;
    DivBelow(rem', 60, fps);
  }

  /** The hour and the ten-minute block within the hour of a count of ten-minute blocks. */
  lemma HourOfBlocks(blocks: int) returns (hour: int, tenMin: int)
    requires blocks >= 0
    ensures hour == GoRem(GoDiv(blocks, 6), 24) && tenMin == GoRem(blocks, 6)
    ensures 0 <= hour < 24 && 0 <= tenMin < 6 && hour * 6 + tenMin == blocks % 144
  {
    GoDivNonNegative(blocks, 6);
    GoDivNonNegative(blocks / 6, 24);
    hour, tenMin := (blocks / 6) % 24, blocks % 6;
  }

  /** The count of a drop-frame timecode in minute q of ten-minute block tenMin, at place rem' of that minute. */
  lemma DropIndexParts(tc: TimeCode, tenMin: int, q: int, rem': int, fps: int)
    requires 0 <= tenMin < 6 && 0 <= q <= 9 && tc.minute == tenMin * 10 + q && rem' == tc.second * fps + tc.frame
    ensures DropIndex(tc, fps) == (tc.hour * 6 + tenMin) * FramesIn10Min(fps) + rem' + q * FramesIn1Min(fps)
  {
    assert tc.minute % 10 == q && tc.minute / 10 == tenMin;
    assert (q - 1) * FramesIn1Min(fps) == q * FramesIn1Min(fps) - FramesIn1Min(fps);
  }

  lemma DayOfFrames(n: int, blocks: int, rem: int, n10: int)
    requires n >= 0 && n10 > 0 && blocks == n / n10 && rem == n % n10
    ensures n % (144 * n10) == (blocks % 144) * n10 + rem
  {
    var k := blocks / 144;
    assert blocks == k * 144 + blocks % 144;
    assert n == blocks * n10 + rem;
    assert n == k * (144 * n10) + ((blocks % 144) * n10 + rem);
    assert (blocks % 144) * n10 <= 143 * n10;
    DivModUnique(n, 144 * n10, k, (blocks % 144) * n10 + rem);
  }

  // ----- conversions of a clock value -----

  /** The duration of one frame in ticks, as the source computes it. */
  function FrameDuration(num: int): int
    requires num != 0
  {
    GoDiv(27000000, num)
  }

  /**
   * getNDFTimeCode: hours, minutes and seconds of the time of day, and the
   * frame within the second; in field mode the frame is halved and the field
   * flag says whether the frame was odd.
   */
  function GetNDFTimeCode(realTime: int, num: int, den: int, field: bool): TimeCode
    requires num != 0 && FrameDuration(num) * den != 0
  {
    var timeOfDay := GoRem(realTime, Day);
    var frameDuration := FrameDuration(num) * den;
    var frame := GoDiv(GoRem(timeOfDay, Second), frameDuration);
    var tc := TimeCode(GoDiv(timeOfDay, Hour), GoRem(GoDiv(timeOfDay, Minute), 60), GoRem(GoDiv(timeOfDay, Second), 60),
                       frame, false, true);
    if field then tc.(field := GoRem(frame, 2) != 0, frame := GoDiv(frame, 2)) else tc
  }

  /** For a non-negative clock value, getNDFTimeCode's truncating divisions are Euclidean ones. */
  lemma NDFParts(realTime: int, num: int, den: int, field: bool)
    requires realTime >= 0 && num != 0 && FrameDuration(num) * den > 0
    ensures var tod := realTime % Day;
      var f := (tod % Second) / (FrameDuration(num) * den);
      var tc := GetNDFTimeCode(realTime, num, den, field);
      tc.hour == tod / Hour && tc.minute == (tod / Minute) % 60 && tc.second == (tod / Second) % 60
      && tc.frame == (if field then f / 2 else f) && tc.field == (!field || f % 2 != 0)
  {
    GoDivNonNegative(realTime, Day);
    ClockFields(realTime % Day);
    FrameFields((realTime % Day) % Second, FrameDuration(num) * den);
  }

  /** The hour, minute, second and sub-second remainder of a non-negative time of day. */
  lemma ClockFields(tod: int)
    requires tod >= 0
    ensures GoDiv(tod, Hour) == tod / Hour && GoRem(GoDiv(tod, Minute), 60) == (tod / Minute) % 60
    ensures GoRem(GoDiv(tod, Second), 60) == (tod / Second) % 60 && GoRem(tod, Second) == tod % Second
  {
    GoDivNonNegative(tod, Hour);
    GoDivNonNegative(tod, Minute);
    GoDivNonNegative(tod, Second);
    GoDivNonNegative(tod / Minute, 60);
    GoDivNonNegative(tod / Second, 60);
  }

  /** The frame number of a sub-second remainder, and its half and low bit. */
  lemma FrameFields(sub: int, fd: int)
    requires sub >= 0 && fd > 0
    ensures GoDiv(sub, fd) == sub / fd && GoDiv(sub / fd, 2) == (sub / fd) / 2 && GoRem(sub / fd, 2) == (sub / fd) % 2
  {
    GoDivNonNegative(sub, fd);
    GoDivNonNegative(sub / fd, 2);
  }

  /**
   * A non-negative clock value is rebuilt from its non-drop-frame timecode:
   * hours, minutes and seconds in range add up to the time of day but for a
   * sub-second remainder, and the frame is the number of whole frame
   * durations in that remainder (halved in field mode, the field flag giving
   * the dropped low bit).
   */
  lemma NDFTimeCodeSplits(realTime: int, num: int, den: int, field: bool)
    requires realTime >= 0 && num != 0 && FrameDuration(num) * den > 0
    ensures var tc := GetNDFTimeCode(realTime, num, den, field);
      var sub := realTime % Second;
      var fd := FrameDuration(num) * den;
      0 <= tc.hour < 24 && 0 <= tc.minute < 60 && 0 <= tc.second < 60
      && realTime % Day == tc.hour * Hour + tc.minute * Minute + tc.second * Second + sub
      && (!field ==> tc.frame * fd <= sub < (tc.frame + 1) * fd)
      && (field ==> (2 * tc.frame + BoolBit(tc.field)) * fd <= sub < (2 * tc.frame + BoolBit(tc.field) + 1) * fd)
  {
    NDFParts(realTime, num, den, field);
    TimeOfDaySplit(realTime);
    FramesOfRemainder(realTime % Second, FrameDuration(num) * den);
  }

  /** f = sub / fd counts whole frames of duration fd in sub, and f is 2·(f/2) plus its low bit. */
  lemma FramesOfRemainder(sub: int, fd: int)
    requires sub >= 0 && fd > 0
    ensures var f := sub / fd; f * fd <= sub < (f + 1) * fd
    ensures var f := sub / fd; f == 2 * (f / 2) + BoolBit(f % 2 != 0)
  {
    var f := sub / fd;
    assert sub == f * fd + sub % fd;
  }
  lemma TimeOfDaySplit(t: int)
    requires t >= 0
    ensures var tod := t % Day;
      tod % Second == t % Second && tod / Hour < 24 && (tod / Minute) % 60 < 60
      && tod == (tod / Hour) * Hour + ((tod / Minute) % 60) * Minute + ((tod / Second) % 60) * Second + tod % Second
  {
    var tod := t % Day;
    var s := tod / Second;
    assert tod == s * Second + tod % Second;
    assert t == (t / Day) * Day + tod;
    assert t == ((t / Day) * 86400 + s) * Second + tod % Second;
    DivModUnique(t, Second, (t / Day) * 86400 + s, tod % Second);
    var m := s / 60;
    assert s == m * 60 + s % 60;
    DivModUnique(tod, Minute, m, (s % 60) * Second + tod % Second);
    var h := m / 60;
    assert m == h * 60 + m % 60;
    DivModUnique(tod, Hour, h, (m % 60) * Minute + (s % 60) * Second + tod % Second);
  }

  /**
   * computeLastSyncTime as written: the hour of the day is compared with the
   * sync time in ticks, and a day is taken off twice when the hour is earlier.
   */
  function ComputeLastSyncTime(realTime: int, dailySyncTime: int): int
  {
    var timeOfDay := GoRem(realTime, Day);
    var nHourInDay := GoDiv(timeOfDay, Hour);
    var calendarDate := if nHourInDay < dailySyncTime then realTime - timeOfDay - Day else realTime - timeOfDay;
    var rv := calendarDate + dailySyncTime;
    if nHourInDay < dailySyncTime then rv - Day else rv
  }

  /**
   * At 05:00 on day one with the sync at 01:00 (passed in ticks, as the
   * caller does), the result is 01:00 of the day before day zero, two days
   * before the sync point that actually passed last.
   */
  lemma LastSyncTimeTwoDaysEarly(realTime: int)
    requires realTime == Day + 5 * Hour
    ensures ComputeLastSyncTime(realTime, 1 * Hour) == -Day + Hour
    ensures LastSyncTime(realTime, 1) == Day + Hour
  {
    GoDivNonNegative(realTime, Day);
    DivModUnique(realTime, Day, 1, 5 * Hour);
    DivModUnique(realTime, Hour, 29, 0);
  }

  /**
   * The sync point that passed last: syncHour o'clock of the current day, or
   * of the day before when the current hour is earlier than syncHour.
   */
  function LastSyncTime(realTime: int, syncHour: int): int
  {
    var timeOfDay := GoRem(realTime, Day);
    var calendarDate := realTime - timeOfDay;
    if timeOfDay < syncHour * Hour then calendarDate - Day + syncHour * Hour else calendarDate + syncHour * Hour
  }

  /**
   * The last sync time is at or before realTime, less than a day before it,
   * and falls on the sync hour of its day.
   */
  lemma LastSyncTimeIsLast(realTime: int, syncHour: int)
    requires realTime >= 0 && 0 <= syncHour < 24
    ensures var s := LastSyncTime(realTime, syncHour);
      s <= realTime && realTime - s < Day && s % Day == syncHour * Hour
  {
    GoDivNonNegative(realTime, Day);
    var d := realTime / Day;
    assert realTime == d * Day + realTime % Day;
    var s := LastSyncTime(realTime, syncHour);
    if realTime % Day < syncHour * Hour {
      assert s == (d - 1) * Day + syncHour * Hour;
      DivModUnique(s, Day, d - 1, syncHour * Hour);
    } else {
      assert s == d * Day + syncHour * Hour;
      DivModUnique(s, Day, d, syncHour * Hour);
    }
  }

  /** The hour field as getDFTimeCode writes it: the sync time, in ticks, added to the hour modulo 24. */
  function DFHourAsWritten(hour: int, dailySyncTime: int): int
  {
    GoRem(hour + dailySyncTime, 24)
  }

  /** An hour's worth of ticks is a multiple of 24, so adding the sync time never moves the hour. */
  lemma DFHourShiftLost(hour: int, syncHour: nat)
    requires 0 <= hour < 24
    ensures DFHourAsWritten(hour, syncHour * Hour) == hour
  {
    GoDivNonNegative(hour + syncHour * Hour, 24);
    DivModUnique(hour + syncHour * Hour, 24, syncHour * (Hour / 24), hour);
  }

  /** Whole frames of duration fd from lastSync to realTime, each counted from the epoch and truncated. */
  function FramesSince(realTime: int, lastSync: int, fd: int): int
    requires fd != 0
  {
    GoDiv(realTime, fd) - GoDiv(lastSync, fd)
  }

  /**
   * getDFTimeCode as written: the drop-frame timecode of the frames since
   * computeLastSyncTime's sync point, with the sync time (in ticks) added to
   * the hour modulo 24.
   */
  function GetDFTimeCode(realTime: int, num: int, den: int, dailySyncTime: int, field: bool): TimeCode
    requires num != 0 && den != 0 && FrameDuration(num) * den != 0
    requires GoDiv(if field then GoDiv(num, 2) else num, den) + 1 != 0
  {
    var nFrames := FramesSince(realTime, ComputeLastSyncTime(realTime, dailySyncTime), FrameDuration(num) * den);
    var tc := GetDFTimeCodeFromNFrames(nFrames, num, den, field);
    tc.(hour := DFHourAsWritten(tc.hour, dailySyncTime))
  }

  /**
   * For a non-negative clock value and a sync time of a whole hour of the day
   * (in ticks, as the caller passes it), the frames since the as-written sync
   * point are not negative, and the timecode is the valid drop-frame timecode
   * that counts them, modulo the frames of a day.
   */
  lemma DFTimeCodeCounts(realTime: int, num: int, den: int, syncHour: nat)
    requires realTime >= 0 && num > 0 && den > 0 && FrameDuration(num) * den > 0 && syncHour < 24
    ensures var n := FramesSince(realTime, ComputeLastSyncTime(realTime, syncHour * Hour), FrameDuration(num) * den);
      var fps := GoDiv(num, den) + 1;
      var tc := GetDFTimeCode(realTime, num, den, syncHour * Hour, false);
      n >= 0 && ValidDrop(tc, fps) && DropIndex(tc, fps) == n % (144 * FramesIn10Min(fps))
  {
    var fd := FrameDuration(num) * den;
    var n := FramesSince(realTime, ComputeLastSyncTime(realTime, syncHour * Hour), fd);
    AsWrittenSyncNotLater(realTime, syncHour);
    GoDivMonotone(ComputeLastSyncTime(realTime, syncHour * Hour), realTime, fd);
    GoDivNonNegative(num, den);
    var fps := GoDiv(num, den) + 1;
    var base := DropFrameTimeCode(n, fps);
    assert GetDFTimeCodeFromNFrames(n, num, den, false) == base;
    DropFrameCounts(n, fps);
    DFHourShiftLost(base.hour, syncHour);
    assert GetDFTimeCode(realTime, num, den, syncHour * Hour, false) == base;
  }

  /** The as-written sync point never lies after the clock value when the sync time is a whole hour of the day. */
  lemma AsWrittenSyncNotLater(realTime: int, syncHour: nat)
    requires realTime >= 0 && syncHour < 24
    ensures ComputeLastSyncTime(realTime, syncHour * Hour) <= realTime
  {
    GoDivNonNegative(realTime, Day);
    ClockFields(realTime % Day);
    DivBelow(realTime % Day, 24, Hour);
  }

  /**
   * The intended getDFTimeCode: the drop-frame timecode of the frames since
   * the sync point that passed last, with the sync hour added to its hour.
   */
  function GetDFTimeCodeIntended(realTime: int, num: int, den: int, syncHour: int, field: bool): TimeCode
    requires num != 0 && den != 0 && FrameDuration(num) * den != 0
    requires GoDiv(if field then GoDiv(num, 2) else num, den) + 1 != 0
  {
    var nFrames := FramesSince(realTime, LastSyncTime(realTime, syncHour), FrameDuration(num) * den);
    var tc := GetDFTimeCodeFromNFrames(nFrames, num, den, field);
    tc.(hour := GoRem(tc.hour + syncHour, 24))
  }

  /**
   * With the intended sync point the frames since it are not negative, the
   * timecode is a valid drop-frame timecode, and with the sync hour taken
   * back off its hour it counts those frames, modulo the frames of a day.
   */
  lemma DFTimeCodeIntendedCounts(realTime: int, num: int, den: int, syncHour: int)
    requires realTime >= 0 && num > 0 && den > 0 && FrameDuration(num) * den > 0 && 0 <= syncHour < 24
    ensures var n := FramesSince(realTime, LastSyncTime(realTime, syncHour), FrameDuration(num) * den);
      var fps := GoDiv(num, den) + 1;
      var tc := GetDFTimeCodeIntended(realTime, num, den, syncHour, false);
      n >= 0 && ValidDrop(tc, fps)
      && DropIndex(tc.(hour := (tc.hour + 24 - syncHour) % 24), fps) == n % (144 * FramesIn10Min(fps))
  {
    var fd := FrameDuration(num) * den;
    var n := FramesSince(realTime, LastSyncTime(realTime, syncHour), fd);
    LastSyncTimeIsLast(realTime, syncHour);
    GoDivMonotone(LastSyncTime(realTime, syncHour), realTime, fd);
    GoDivNonNegative(num, den);
    var fps := GoDiv(num, den) + 1;
    var base := DropFrameTimeCode(n, fps);
    assert GetDFTimeCodeFromNFrames(n, num, den, false) == base;
    DropFrameCounts(n, fps);
    HourShiftBack(base.hour, syncHour);
    var tc := GetDFTimeCodeIntended(realTime, num, den, syncHour, false);
    assert tc == base.(hour := GoRem(base.hour + syncHour, 24));
    assert tc.(hour := (tc.hour + 24 - syncHour) % 24) == base;
  }

  /** Adding the sync hour modulo 24 is undone by taking it off again. */
  lemma HourShiftBack(h: int, syncHour: int)
    requires 0 <= h < 24 && 0 <= syncHour < 24
    ensures 0 <= GoRem(h + syncHour, 24) < 24 && (GoRem(h + syncHour, 24) + 24 - syncHour) % 24 == h
  {
    GoDivNonNegative(h + syncHour, 24);
  }

  /** At the sync instant itself the intended drop-frame timecode is syncHour:00:00;00. */
  lemma DFTimeCodeAtSync(day: nat, num: int, den: int, syncHour: int)
    requires 0 <= syncHour < 24 && num > 0 && den > 0 && FrameDuration(num) * den > 0
    ensures var tc := GetDFTimeCodeIntended(day * Day + syncHour * Hour, num, den, syncHour, false);
      tc.hour == syncHour && tc.minute == 0 && tc.second == 0 && tc.frame == 0
  {
    var t := day * Day + syncHour * Hour;
    SyncIsLast(day, syncHour);
    assert FramesSince(t, t, FrameDuration(num) * den) == 0;
    IntendedAtNoFrames(t, num, den, syncHour);
  }

  /** At syncHour o'clock the last sync point is that instant. */
  lemma SyncIsLast(day: nat, syncHour: int)
    requires 0 <= syncHour < 24
    ensures LastSyncTime(day * Day + syncHour * Hour, syncHour) == day * Day + syncHour * Hour
  {
    var t := day * Day + syncHour * Hour;
    GoDivNonNegative(t, Day);
    DivModUnique(t, Day, day, syncHour * Hour);
  }

  /** No frames since the sync point: the intended timecode is the sync hour exactly. */
  lemma IntendedAtNoFrames(t: int, num: int, den: int, syncHour: int)
    requires 0 <= syncHour < 24 && num > 0 && den > 0 && FrameDuration(num) * den > 0
    requires FramesSince(t, LastSyncTime(t, syncHour), FrameDuration(num) * den) == 0
    ensures var tc := GetDFTimeCodeIntended(t, num, den, syncHour, false);
      tc.hour == syncHour && tc.minute == 0 && tc.second == 0 && tc.frame == 0
  {
    GoDivNonNegative(num, den);
    var fps := GoDiv(num, den) + 1;
    IntendedIs(t, num, den, syncHour, 0);
    DropFrameAtZero(fps);
    SmallHour(syncHour);
  }

  /** The intended timecode is the drop-frame timecode of the frames since the sync point, shifted by the sync hour. */
  lemma IntendedIs(t: int, num: int, den: int, syncHour: int, n: int)
    requires num > 0 && den > 0 && FrameDuration(num) * den > 0
    requires n == FramesSince(t, LastSyncTime(t, syncHour), FrameDuration(num) * den)
    ensures GoDiv(num, den) + 1 > 0
    ensures var b := DropFrameTimeCode(n, GoDiv(num, den) + 1);
      GetDFTimeCodeIntended(t, num, den, syncHour, false) == b.(hour := GoRem(b.hour + syncHour, 24))
  {
    GoDivNonNegative(num, den);
    FromNFramesWhole(n, num, den);
  }

  lemma SmallHour(h: int)
    requires 0 <= h < 24
    ensures GoRem(h, 24) == h
  {
    GoDivNonNegative(h, 24);
    ModOfSmall(h, 24);
  }

  /** Without field mode the conversion is DropFrameTimeCode at the whole frame rate plus one. */
  lemma FromNFramesWhole(n: int, num: int, den: int)
    requires den != 0 && GoDiv(num, den) + 1 != 0
    ensures GetDFTimeCodeFromNFrames(n, num, den, false) == DropFrameTimeCode(n, GoDiv(num, den) + 1)
  {
  }

  /** Frame 0 is 00:00:00;00. */
  lemma DropFrameAtZero(fps: int)
    requires fps >= 1
    ensures var tc := DropFrameTimeCode(0, fps); tc.hour == 0 && tc.minute == 0 && tc.second == 0 && tc.frame == 0
  {
    var blocks, rem, hour, tenMin, q, sec, f := DropFrameParts(0, fps);
    ZeroParts(fps, blocks, rem, hour, tenMin, q, sec, f);
  }

  lemma ZeroParts(fps: int, blocks: int, rem: int, hour: int, tenMin: int, q: int, sec: int, f: int)
    requires fps >= 1 && blocks == 0 / FramesIn10Min(fps) && rem == 0 % FramesIn10Min(fps)
    requires 0 <= hour < 24 && 0 <= tenMin < 6 && hour * 6 + tenMin == blocks % 144
    requires 0 <= q <= 9 && 0 <= sec < 60 && 0 <= f < fps
    requires rem == sec * fps + f + q * FramesIn1Min(fps)
    ensures hour == 0 && tenMin * 10 + q == 0 && sec == 0 && f == 0
  {
    DivModUnique(0, FramesIn10Min(fps), 0, 0);
    MulLower(sec, fps);
    MulLower(q, FramesIn1Min(fps));
  }

  /** utcTimestampToTimeCode: non-drop-frame for integer rates, drop-frame otherwise. */
  function UtcTimestampToTimeCode(realTime: int, num: int, den: int, dailySyncTime: int, field: bool): (r: TimeCode)
    requires num != 0 && den != 0 && FrameDuration(num) * den != 0
    requires GoDiv(if field then GoDiv(num, 2) else num, den) + 1 != 0
    ensures r.dropFrame <==> den != 1
  {
    if den == 1 then GetNDFTimeCode(realTime, num, den, field)
    else GetDFTimeCode(realTime, num, den, dailySyncTime, field)
  }

  /** 25/9/2023 04:47:55.880 at 25 Hz is 04:47:55:22; 04:47:55.900 at 50 Hz in fields is 04:47:55:22 too. */
  lemma NDFExamples(t1: int, t2: int)
    requires t1 == 1695617275880 * 27000 && t2 == 1695617275900 * 27000
    ensures var tc := UtcTimestampToTimeCode(t1, 25, 1, 0, false);
      tc.hour == 4 && tc.minute == 47 && tc.second == 55 && tc.frame == 22
    ensures var tc := UtcTimestampToTimeCode(t2, 50, 1, 0, true);
      tc.hour == 4 && tc.minute == 47 && tc.second == 55 && tc.frame == 22
  {
    GoDivNonNegative(27000000, 25);
    GoDivNonNegative(27000000, 50);
    NDFParts(t1, 25, 1, false);
    NDFParts(t2, 50, 1, true);
    DivModUnique(t1, Day, 19625, 466448760000);
    DivModUnique(t2, Day, 19625, 466449300000);
    TimeOfDayExample(466448760000, 23760000);
    TimeOfDayExample(466449300000, 24300000);
    DivModUnique(23760000, 1080000, 22, 0);
    DivModUnique(24300000, 540000, 45, 0);
  }

  /** The hour, minute and second of the two example times of day, and their sub-second parts. */
  lemma TimeOfDayExample(tod: int, sub: int)
    requires (tod == 466448760000 && sub == 23760000) || (tod == 466449300000 && sub == 24300000)
    ensures tod / Hour == 4 && (tod / Minute) % 60 == 47 && (tod / Second) % 60 == 55 && tod % Second == sub
  {
    DivModUnique(tod, Hour, 4, tod - 4 * Hour);
    DivModUnique(tod, Minute, 287, tod - 287 * Minute);
    DivModUnique(tod, Second, 17275, sub);
  }

  /** Frame 517759 after midnight at 30 frames per nominal second, drop-frame, is 04:47:55;27. */
  lemma DropFrameExample(n: int)
    requires n == 517759
    ensures var tc := DropFrameTimeCode(n, 30); tc.hour == 4 && tc.minute == 47 && tc.second == 55 && tc.frame == 27
  {
    GoDivNonNegative(n, 17982);
    DivModUnique(n, 17982, 28, 14263);
    GoDivNonNegative(14261, 1798);
    DivModUnique(14261, 1798, 7, 1675);
    GoDivNonNegative(1677, 30);
    DivModUnique(1677, 30, 55, 27);
  }

  /** The same instant plus 20 ms at 29.97 Hz, and at 59.94 Hz in fields, is 04:47:55;27. */
  lemma DFExamples(t: int)
    requires t == 1695617275900 * 27000
    ensures var tc := UtcTimestampToTimeCode(t, 30000, 1001, 0, false);
      tc.hour == 4 && tc.minute == 47 && tc.second == 55 && tc.frame == 27
    ensures var tc := UtcTimestampToTimeCode(t, 60000, 1001, 0, true);
      tc.hour == 4 && tc.minute == 47 && tc.second == 55 && tc.frame == 27
  {
    var start := t - 466449300000;
    SyncAtMidnightExample(t, start);
    FramesSinceExample(t, start);
    AsWrittenFromFrames(t, 30000, 1001, 0, false, 517759);
    AsWrittenFromFrames(t, 60000, 1001, 0, true, 1035518);
    RatesExample();
    DropFrameExample(517759);
    SmallHour(4);
  }

  /** With the sync at midnight, the as-written sync point is the start of the day. */
  lemma SyncAtMidnightExample(t: int, start: int)
    requires t == 1695617275900 * 27000 && start == t - 466449300000
    ensures ComputeLastSyncTime(t, 0) == start
  {
    GoDivNonNegative(t, Day);
    DivModUnique(t, Day, 19625, 466449300000);
  }

  /** The frames from the start of that day at 900900 ticks per frame, and at 450450 per field. */
  lemma FramesSinceExample(t: int, start: int)
    requires t == 1695617275900 * 27000 && start == t - 466449300000
    ensures FramesSince(t, start, 900900) == 517759 && FramesSince(t, start, 450450) == 1035518
  {
    GoDivNonNegative(t, 900900);
    GoDivNonNegative(start, 900900);
    DivModUnique(t, 900900, 50817700576, t - 50817700576 * 900900);
    DivModUnique(start, 900900, 50817182817, start - 50817182817 * 900900);
    GoDivNonNegative(t, 450450);
    GoDivNonNegative(start, 450450);
    DivModUnique(t, 450450, 101635401152, t - 101635401152 * 450450);
    DivModUnique(start, 450450, 101634365634, start - 101634365634 * 450450);
  }

  /** getDFTimeCode is the conversion of the frames since the as-written sync point, with the as-written hour. */
  lemma AsWrittenFromFrames(t: int, num: int, den: int, dailySyncTime: int, field: bool, n: int)
    requires num != 0 && den != 0 && FrameDuration(num) * den != 0
    requires GoDiv(if field then GoDiv(num, 2) else num, den) + 1 != 0
    requires n == FramesSince(t, ComputeLastSyncTime(t, dailySyncTime), FrameDuration(num) * den)
    ensures var tc := GetDFTimeCodeFromNFrames(n, num, den, field);
      GetDFTimeCode(t, num, den, dailySyncTime, field) == tc.(hour := DFHourAsWritten(tc.hour, dailySyncTime))
  {
  }

  /** 29.97 Hz and 59.94 Hz in fields both count 30 frames per nominal second, of 900900 and 450450 ticks. */
  lemma RatesExample()
    ensures FrameDuration(30000) * 1001 == 900900 && FrameDuration(60000) * 1001 == 450450
    ensures GetDFTimeCodeFromNFrames(517759, 30000, 1001, false) == DropFrameTimeCode(517759, 30)
    ensures GetDFTimeCodeFromNFrames(1035518, 60000, 1001, true) == DropFrameTimeCode(517759, 30)
  {
    GoDivNonNegative(27000000, 30000);
    GoDivNonNegative(27000000, 60000);
    GoDivNonNegative(30000, 1001);
    GoDivNonNegative(60000, 2);
    GoDivNonNegative(1035518, 2);
  }

  /** 23:59:59 and the last frame wrap to 00:00:00:00, at 29.97 Hz drop-frame and at 25 Hz. */
  lemma NextTimeCodeWraps(tc: TimeCode)
    requires tc.hour == 23 && tc.minute == 59 && tc.second == 59
    ensures tc.frame == 29 ==> var r := GetNextTimeCode(tc, 30000, 1001, true);
      r.hour == 0 && r.minute == 0 && r.second == 0 && r.frame == 0
    ensures tc.frame == 24 ==> var r := GetNextTimeCode(tc, 25, 1, false);
      r.hour == 0 && r.minute == 0 && r.second == 0 && r.frame == 0
  {
    assert MaxFrame(30000, 1001) == 29;
    assert MaxFrame(25, 1) == 24;
  }

  // ----- RTP timestamps -----

  /** The UTC time recovered from an RTP timestamp, and whether it is over a minute from the current time. */
  datatype Converted = Converted(utc: int, tooFar: bool)

  /** The current time in ticks as the conversion sees it: UTC seconds less the leap seconds. */
  function CurrentTicks(curUtcSec: int, now: int): int
  {
    (if curUtcSec == -1 then now else curUtcSec) * Second - Leap
  }

  /**
   * rtpTimestampToUtcInMs: the RTP time placed in the current loop of the
   * 32-bit RTP clock, one loop earlier or later when the two sit on opposite
   * sides of the wrap point; the system clock (now) is read only when
   * curUtcSec is -1.
   */
  function RtpTimestampToUtc(rtp: int, curUtcSec: int, now: int): (r: Converted)
    ensures r.tooFar <==> Abs(r.utc - CurrentTicks(curUtcSec, now)) > DiffThreshold
  {
    var curUtc := CurrentTicks(curUtcSec, now);
    var curRtp := GoRem(curUtc, RtpLoopPoint);
    var nLoop := GoDiv(curUtc, RtpLoopPoint);
    var nLoop' := if RtpLoopPoint - rtp < DiffThreshold && curRtp < DiffThreshold then nLoop - 1
                  else if RtpLoopPoint - curRtp < DiffThreshold && rtp < DiffThreshold then nLoop + 1
                  else nLoop;
    var converted := nLoop' * RtpLoopPoint + rtp - Leap;
    Converted(converted, converted - curUtc > DiffThreshold || curUtc - converted > DiffThreshold)
  }

  /** The conversion only chooses a loop: the result plus the leap seconds is the RTP time modulo the loop point. */
  lemma RtpUtcCongruent(rtp: int, curUtcSec: int, now: int)
    ensures (RtpTimestampToUtc(rtp, curUtcSec, now).utc + Leap - rtp) % RtpLoopPoint == 0
  {
    var curUtc := CurrentTicks(curUtcSec, now);
    var curRtp := GoRem(curUtc, RtpLoopPoint);
    var nLoop := GoDiv(curUtc, RtpLoopPoint);
    var k := if RtpLoopPoint - rtp < DiffThreshold && curRtp < DiffThreshold then nLoop - 1
             else if RtpLoopPoint - curRtp < DiffThreshold && rtp < DiffThreshold then nLoop + 1
             else nLoop;
    MultipleDiv(k, RtpLoopPoint);
  }

  /**
   * When the RTP time is within the threshold of the current time's place in
   * the loop, measured around the wrap point, the chosen loop puts the RTP
   * time (before the leap seconds are taken off) within the threshold of the
   * current time.
   */
  lemma RtpUtcNearest(rtp: int, curUtcSec: int, now: int)
    requires 0 <= rtp < RtpLoopPoint && CurrentTicks(curUtcSec, now) >= 0
    requires var c := CurrentTicks(curUtcSec, now) % RtpLoopPoint;
      Abs(rtp - c) < DiffThreshold || rtp + RtpLoopPoint - c < DiffThreshold || c + RtpLoopPoint - rtp < DiffThreshold
    ensures Abs(RtpTimestampToUtc(rtp, curUtcSec, now).utc + Leap - CurrentTicks(curUtcSec, now)) < DiffThreshold
  {
    var curUtc := CurrentTicks(curUtcSec, now);
    GoDivNonNegative(curUtc, RtpLoopPoint);
    assert curUtc == (curUtc / RtpLoopPoint) * RtpLoopPoint + curUtc % RtpLoopPoint;
  }

  /** RTP 666100238 received at UTC 1695612755 s is 1695612730 s, within the threshold. */
  lemma RtpUtcExample(rtp: int)
    requires rtp == 666100238 * Clk90k
    ensures var r := RtpTimestampToUtc(rtp, 1695612755, 0);
      !r.tooFar && GoDiv(r.utc, Second) == 1695612730
  {
  }

  /**
   * The two loop-crossing vectors: 10 s of RTP time received 10 s before, and
   * 10 s before the wrap point received 10 s after, 12345 loops of UTC time.
   */
  lemma RtpUtcLoopExamples(base: int)
    requires base == GoDiv(12345 * RtpLoopPoint, 90000)
    ensures var r := RtpTimestampToUtc(10 * 90000 * Clk90k, base - 10, 0);
      !r.tooFar && GoDiv(r.utc, Second) == base + 10 - 37
    ensures var r := RtpTimestampToUtc(RtpLoopPoint - 10 * Second, base + 10, 0);
      !r.tooFar && GoDiv(r.utc, Second) == base - 10 - 37
  {
    GoDivNonNegative(12345 * RtpLoopPoint, 90000);
    DivModUnique(12345 * RtpLoopPoint, 90000, 176737904189, 12345 * RtpLoopPoint - 176737904189 * 90000);
    var c1 := (base - 10) * Second - Leap;
    var c2 := (base + 10) * Second - Leap;
    GoDivNonNegative(c1, RtpLoopPoint);
    GoDivNonNegative(c2, RtpLoopPoint);
    DivModUnique(c1, RtpLoopPoint, 3703499, c1 - 3703499 * RtpLoopPoint);
    DivModUnique(c2, RtpLoopPoint, 3703499, c2 - 3703499 * RtpLoopPoint);
    var u1 := 3703500 * RtpLoopPoint + 10 * 90000 * Clk90k - Leap;
    var u2 := 3703499 * RtpLoopPoint + RtpLoopPoint - 10 * Second - Leap;
    GoDivNonNegative(u1, Second);
    GoDivNonNegative(u2, Second);
    DivModUnique(u1, Second, base + 10 - 37, u1 - (base + 10 - 37) * Second);
    DivModUnique(u2, Second, base - 10 - 37, u2 - (base - 10 - 37) * Second);
  }

  /**
   * RtpTimestampToTimeCode: the timecode of the UTC time recovered from an RTP
   * timestamp, with the daily sync hour passed in ticks; the error reports a
   * recovered time over a minute from the current one, and the timecode is
   * returned with it.
   */
  function RtpTimestampToTimeCode(rtp: int, curUtcSec: int, now: int, num: int, den: int, field: bool,
                                  syncHour: int): (r: (TimeCode, bool))
    requires num != 0 && den != 0 && FrameDuration(num) * den != 0
    requires GoDiv(if field then GoDiv(num, 2) else num, den) + 1 != 0
    ensures r.1 <==> Abs(RtpTimestampToUtc(rtp, curUtcSec, now).utc - CurrentTicks(curUtcSec, now)) > DiffThreshold
    ensures r.0.dropFrame <==> den != 1
  {
    var c := RtpTimestampToUtc(rtp, curUtcSec, now);
    (UtcTimestampToTimeCode(c.utc, num, den, syncHour * Hour, field), c.tooFar)
  }
}
