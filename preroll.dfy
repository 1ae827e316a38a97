/**
 * The SCTE-35 pre-roll estimator: how long before the splice point a splice
 * message arrives, measured on the program clock. The video rows give the
 * packet count, PTS and PCR of each video PES packet; the message gives its own
 * packet count and, when it carries a splice command, the splice time (-1 for
 * an immediate splice).
 */
module Preroll {
  import opened Wrappers

  /** One row of the video timing table. */
  datatype VideoRow = VideoRow(pktCnt: int, pts: int, pcr: int)

  /** The parts of the SCTE-35 record the estimator reads. */
  datatype SpliceRecord = SpliceRecord(pktCnt: int, spliceTime: Option<int>)

  datatype PrerollError =
    | SpliceTimeNotFound   // the record has no splice command
    | NoRowBefore          // no video row precedes the message
    | NoRowAfter           // no video row follows the message
    | NoRowAtSpliceTime    // no video row has the splice time as its PTS

  /** The index of the last row whose packet count is strictly below k. */
  function LastBelow(rows: seq<VideoRow>, k: int): (r: Option<nat>)
    ensures r.Some? ==> (r.value < |rows| && rows[r.value].pktCnt < k
                         && forall j :: r.value < j < |rows| ==> rows[j].pktCnt >= k)
    ensures r.None? ==> forall j :: 0 <= j < |rows| ==> rows[j].pktCnt >= k
  {
    if rows == [] then None
    else if rows[|rows| - 1].pktCnt < k then Some(|rows| - 1)
    else LastBelow(rows[..|rows| - 1], k)
  }

  /** The index of the first row whose packet count is strictly above k. */
  function FirstAbove(rows: seq<VideoRow>, k: int): (r: Option<nat>)
    ensures r.Some? ==> (r.value < |rows| && rows[r.value].pktCnt > k
                         && forall j :: 0 <= j < r.value ==> rows[j].pktCnt <= k)
    ensures r.None? ==> forall j :: 0 <= j < |rows| ==> rows[j].pktCnt <= k
  {
    if rows == [] then None
    else if rows[0].pktCnt > k then Some(0)
    else var r := FirstAbove(rows[1..], k); if r.Some? then Some(r.value + 1) else None
  }

  /** The index of the first row whose PTS is exactly t. */
  function FirstWithPts(rows: seq<VideoRow>, t: int): (r: Option<nat>)
    ensures r.Some? ==> (r.value < |rows| && rows[r.value].pts == t
                         && forall j :: 0 <= j < r.value ==> rows[j].pts != t)
    ensures r.None? ==> forall j :: 0 <= j < |rows| ==> rows[j].pts != t
  {
    if rows == [] then None
    else if rows[0].pts == t then Some(0)
    else var r := FirstWithPts(rows[1..], t); if r.Some? then Some(r.value + 1) else None
  }

  /** The PCR at packet count k on the line through the two rows. */
  function Interpolate(inf: VideoRow, sup: VideoRow, k: int): real
    requires inf.pktCnt < sup.pktCnt
  {
    var slope := (sup.pcr - inf.pcr) as real / (sup.pktCnt - inf.pktCnt) as real;
    slope * (k - inf.pktCnt) as real + inf.pcr as real
  }

  /**
   * The pre-roll: the PCR of the splice point minus the interpolated PCR of the
   * message. The splice point is the first row whose PTS is the splice time, or
   * for an immediate splice the first row after the message.
   */
  function GetPreroll(rec: SpliceRecord, rows: seq<VideoRow>): Result<real, PrerollError>
  {
    if rec.spliceTime.None? then Err(SpliceTimeNotFound)
    else
      var inf := LastBelow(rows, rec.pktCnt);
      if inf.None? then Err(NoRowBefore)
      else
        var sup := FirstAbove(rows, rec.pktCnt);
        if sup.None? then Err(NoRowAfter)
        else
          var pktPcr := Interpolate(rows[inf.value], rows[sup.value], rec.pktCnt);
          if rec.spliceTime.value != -1 then
            var idr := FirstWithPts(rows, rec.spliceTime.value);
            if idr.None? then Err(NoRowAtSpliceTime)
            else Ok(rows[idr.value].pcr as real - pktPcr)
          else Ok(rows[sup.value].pcr as real - pktPcr)
  }

  /** The interpolated PCR lies on the line: it is inf's PCR at inf's packet count and sup's at sup's. */
  lemma InterpolateEnds(inf: VideoRow, sup: VideoRow)
    requires inf.pktCnt < sup.pktCnt
    ensures Interpolate(inf, sup, inf.pktCnt) == inf.pcr as real
    ensures Interpolate(inf, sup, sup.pktCnt) == sup.pcr as real
  {
    var d := (sup.pktCnt - inf.pktCnt) as real;
    var slope := (sup.pcr - inf.pcr) as real / d;
    assert slope * d == (sup.pcr - inf.pcr) as real;
  }

  /** Between two rows with non-decreasing PCR, the interpolated PCR lies between theirs. */
  lemma InterpolateBetween(inf: VideoRow, sup: VideoRow, k: int)
    requires inf.pktCnt < k < sup.pktCnt && inf.pcr <= sup.pcr
    ensures inf.pcr as real <= Interpolate(inf, sup, k) <= sup.pcr as real
  {
    var d := (sup.pktCnt - inf.pktCnt) as real;
    var slope := (sup.pcr - inf.pcr) as real / d;
    assert slope * d == (sup.pcr - inf.pcr) as real;
    assert 0.0 <= slope;
    var t := (k - inf.pktCnt) as real;
    assert 0.0 < t < d;
    assert slope * t <= slope * d;
  }

  /** A record whose splice command is missing is an error whatever the rows. */
  lemma NoSpliceCommand(rec: SpliceRecord, rows: seq<VideoRow>)
    requires rec.spliceTime.None?
    ensures GetPreroll(rec, rows) == Err(SpliceTimeNotFound)
  {
  }

  /**
   * When the message is bracketed, the pre-roll is the splice row's PCR minus the
   * interpolation between the last row before and the first row after the
   * message; the splice row is the first with the splice time as PTS, or for an
   * immediate splice the row after the message.
   */
  lemma PrerollValue(rec: SpliceRecord, rows: seq<VideoRow>, i: nat, j: nat)
    requires rec.spliceTime.Some?
    requires i < |rows| && rows[i].pktCnt < rec.pktCnt && forall m :: i < m < |rows| ==> rows[m].pktCnt >= rec.pktCnt
    requires j < |rows| && rows[j].pktCnt > rec.pktCnt && forall m :: 0 <= m < j ==> rows[m].pktCnt <= rec.pktCnt
    ensures rec.spliceTime.value == -1 ==>
      GetPreroll(rec, rows) == Ok(rows[j].pcr as real - Interpolate(rows[i], rows[j], rec.pktCnt))
    ensures rec.spliceTime.value != -1 ==>
      (GetPreroll(rec, rows).Ok? <==> exists m :: 0 <= m < |rows| && rows[m].pts == rec.spliceTime.value)
    ensures rec.spliceTime.value != -1 && GetPreroll(rec, rows).Ok? ==>
      exists m :: 0 <= m < |rows| && rows[m].pts == rec.spliceTime.value
        && (forall m' :: 0 <= m' < m ==> rows[m'].pts != rec.spliceTime.value)
        && GetPreroll(rec, rows).value == rows[m].pcr as real - Interpolate(rows[i], rows[j], rec.pktCnt)
  {
    var inf := LastBelow(rows, rec.pktCnt);
    var sup := FirstAbove(rows, rec.pktCnt);
    assert rows[i].pktCnt < rec.pktCnt && rows[j].pktCnt > rec.pktCnt;
    assert inf == Some(i);
    assert sup == Some(j);
    if rec.spliceTime.value != -1 {
      var idr := FirstWithPts(rows, rec.spliceTime.value);
      if idr.Some? {
        assert rows[idr.value].pts == rec.spliceTime.value;
      }
    }
  }

  /** Without a row on both sides of the message there is no pre-roll. */
  lemma PrerollNeedsBracket(rec: SpliceRecord, rows: seq<VideoRow>)
    requires rec.spliceTime.Some?
    ensures (forall m :: 0 <= m < |rows| ==> rows[m].pktCnt >= rec.pktCnt) ==> GetPreroll(rec, rows) == Err(NoRowBefore)
    ensures ((exists m :: 0 <= m < |rows| && rows[m].pktCnt < rec.pktCnt)
             && (forall m :: 0 <= m < |rows| ==> rows[m].pktCnt <= rec.pktCnt))
            ==> GetPreroll(rec, rows) == Err(NoRowAfter)
  {
    if exists m :: 0 <= m < |rows| && rows[m].pktCnt < rec.pktCnt {
      var m :| 0 <= m < |rows| && rows[m].pktCnt < rec.pktCnt;
      assert LastBelow(rows, rec.pktCnt).Some?;
    }
  }

  /** An immediate splice between rows 100 (PCR 1000) and 200 (PCR 2000), sent at packet 150: pre-roll 500. */
  lemma ImmediateExample(rows: seq<VideoRow>)
    requires rows == [VideoRow(100, 9000, 1000), VideoRow(200, 12000, 2000)]
    ensures GetPreroll(SpliceRecord(150, Some(-1)), rows) == Ok(500.0)
  {
    PrerollValue(SpliceRecord(150, Some(-1)), rows, 0, 1);
  }

  /**
   * Rows at packets 10, 20 and 30 with PCRs 1000, 2000 and 3000: a message at packet 15
   * is placed at PCR 1500, and as an immediate splice its pre-roll is 2000 - 1500.
   */
  lemma InterpolationExample(rows: seq<VideoRow>)
    requires rows == [VideoRow(10, 0, 1000), VideoRow(20, 3000, 2000), VideoRow(30, 6000, 3000)]
    ensures LastBelow(rows, 15) == Some(0) && FirstAbove(rows, 15) == Some(1)
    ensures Interpolate(rows[0], rows[1], 15) == 1500.0
    ensures GetPreroll(SpliceRecord(15, Some(-1)), rows) == Ok(500.0)
  {
    PrerollValue(SpliceRecord(15, Some(-1)), rows, 0, 1);
  }
}
