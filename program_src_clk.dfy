/**
 * The program source clock of the demuxer: the PCR values seen so far with the
 * packet counts that carried them, from which the PCR at any packet is
 * interpolated between two records or extrapolated from the last two.
 */
module ProgramSrcClk {
  import opened GoInt
  import opened Wrappers

  /** The PCR at a packet, and 1 when it is not known yet (0 otherwise). */
  datatype PcrReply = PcrReply(pcr: int, notReady: int)

  /** Extrapolating from two records at the same packet count divides by zero, which panics. */
  datatype ClockError = DivideByZero

  /** The index of the first record at or after packet curCnt, if any. */
  function FirstAtOrAfter(pcrLoc: seq<int>, curCnt: int): (r: Option<nat>)
    ensures r.Some? ==> (r.value < |pcrLoc| && pcrLoc[r.value] >= curCnt
                         && forall j :: 0 <= j < r.value ==> pcrLoc[j] < curCnt)
    ensures r.None? ==> forall j :: 0 <= j < |pcrLoc| ==> pcrLoc[j] < curCnt
  {
    if pcrLoc == [] then None
    else if pcrLoc[0] >= curCnt then Some(0)
    else var r := FirstAtOrAfter(pcrLoc[1..], curCnt); if r.Some? then Some(r.value + 1) else None
  }

  /** The PCR at curCnt on the line through the last two records, stepping by their truncated slope. */
  function Extrapolate(pcr: seq<int>, pcrLoc: seq<int>, curCnt: int): Result<int, ClockError>
    requires 2 <= |pcr| == |pcrLoc|
  {
    var last := |pcr| - 1;
    if pcrLoc[last] == pcrLoc[last - 1] then Err(DivideByZero)
    else
      var step188 := GoDiv(pcr[last] - pcr[last - 1], pcrLoc[last] - pcrLoc[last - 1]);
      Ok(pcr[last] + (curCnt - pcrLoc[last]) * step188)
  }

  /**
   * The PCR at curCnt between records i - 1 and i, the product divided with
   * truncation; the bracket keeps the divisor positive.
   */
  function Interpolate(pcr: seq<int>, pcrLoc: seq<int>, i: nat, curCnt: int): int
    requires 1 <= i < |pcr| == |pcrLoc| && pcrLoc[i - 1] < curCnt <= pcrLoc[i]
  {
    GoDiv((pcr[i] - pcr[i - 1]) * (curCnt - pcrLoc[i - 1]), pcrLoc[i] - pcrLoc[i - 1]) + pcr[i - 1]
  }

  /** Which way requestPcr answers. */
  datatype Way = AtFirstRecord | NotReady | Extrapolated | Interpolated(id0: nat)

  function WayOf(pcrLoc: seq<int>, pid: int, curCnt: int): (w: Way)
    ensures w.Interpolated? ==> 1 <= w.id0 < |pcrLoc| && pcrLoc[w.id0 - 1] < curCnt <= pcrLoc[w.id0]
  {
    if |pcrLoc| == 1 && pcrLoc[0] == curCnt then AtFirstRecord
    else if |pcrLoc| < 2 then NotReady
    else
      var f := FirstAtOrAfter(pcrLoc, curCnt);
      var id0 := if f.Some? then f.value else 0;
      if pid == -1 || (id0 == 0 && curCnt > pcrLoc[0]) then Extrapolated
      else if id0 == 0 then NotReady
      else Interpolated(id0)
  }

  /** The answer of requestPcr for the records pcr/pcrLoc. */
  function Request(pcr: seq<int>, pcrLoc: seq<int>, pid: int, curCnt: int): Result<PcrReply, ClockError>
    requires |pcr| == |pcrLoc|
  {
    match WayOf(pcrLoc, pid, curCnt)
    case AtFirstRecord => Ok(PcrReply(pcr[0], 0))
    case NotReady => Ok(PcrReply(-1, 1))
    case Extrapolated =>
      var v := Extrapolate(pcr, pcrLoc, curCnt); if v.Err? then Err(v.error) else Ok(PcrReply(v.value, 0))
    case Interpolated(id0) => Ok(PcrReply(Interpolate(pcr, pcrLoc, id0, curCnt), 0))
  }

  /** Whether extrapolation has started, after a request: set by a tracked extrapolation, cleared by interpolation. */
  function EptStartAfter(eptStart: bool, pcr: seq<int>, pcrLoc: seq<int>, pid: int, curCnt: int): bool
    requires |pcr| == |pcrLoc|
  {
    if Request(pcr, pcrLoc, pid, curCnt).Err? then eptStart
    else match WayOf(pcrLoc, pid, curCnt)
      case Extrapolated => eptStart || pid != -1
      case Interpolated(_) => false
      case _ => eptStart
  }

  class Clock {
    var pcr: seq<int>
    var pcrLoc: seq<int>
    var curMaxLoc: int
    var eptStart: bool
    var streamCnt: map<int, int>

    /** The two record lists grow together. */
    predicate Valid()
      reads this
    {
      |pcr| == |pcrLoc|
    }

    /** getProgramSrcClk */
    constructor ()
      ensures Valid() && pcr == [] && pcrLoc == [] && curMaxLoc == 0 && !eptStart && streamCnt == map[]
    {
      pcr, pcrLoc, curMaxLoc, eptStart, streamCnt := [], [], 0, false, map[];
    }

    /** updatePcrRecord: a packet without PCR (-1) changes nothing; otherwise the record is appended. */
    method UpdatePcrRecord(newPcr: int, pktCnt: int)
      requires Valid()
      modifies this
      ensures Valid()
      ensures newPcr == -1 ==> pcr == old(pcr) && pcrLoc == old(pcrLoc) && curMaxLoc == old(curMaxLoc)
      ensures newPcr != -1 ==> pcr == old(pcr) + [newPcr] && pcrLoc == old(pcrLoc) + [pktCnt] && curMaxLoc == pktCnt
      ensures eptStart == old(eptStart) && streamCnt == old(streamCnt)
    {
      if newPcr == -1 {
        return;
      }
      pcr := pcr + [newPcr];
      pcrLoc := pcrLoc + [pktCnt];
      curMaxLoc := pktCnt;
    }

    /** requestPcr: record the stream's packet count, then answer from the records. */
    method RequestPcr(pid: int, curCnt: int) returns (r: Result<PcrReply, ClockError>)
      requires Valid()
      modifies this
      ensures Valid() && pcr == old(pcr) && pcrLoc == old(pcrLoc) && curMaxLoc == old(curMaxLoc)
      ensures streamCnt == if pid != -1 then old(streamCnt)[pid := curCnt] else old(streamCnt)
      ensures r == Request(pcr, pcrLoc, pid, curCnt)
      ensures eptStart == EptStartAfter(old(eptStart), pcr, pcrLoc, pid, curCnt)
    {
      if pid != -1 {
        streamCnt := streamCnt[pid := curCnt];
      }
      if |pcrLoc| == 1 && pcrLoc[0] == curCnt {
        return Ok(PcrReply(pcr[0], 0));
      }
      if |pcrLoc| < 2 {
        return Ok(PcrReply(-1, 1));
      }
      r := AnswerFromRecords(pid, curCnt);
    }

    /** The part of requestPcr that needs two records: extrapolate, wait, or interpolate. */
    method AnswerFromRecords(pid: int, curCnt: int) returns (r: Result<PcrReply, ClockError>)
      requires Valid() && 2 <= |pcrLoc|
      modifies this`eptStart
      ensures r == Request(pcr, pcrLoc, pid, curCnt)
      ensures eptStart == EptStartAfter(old(eptStart), pcr, pcrLoc, pid, curCnt)
    {
      var id0 := FindId0(pcrLoc, curCnt);
      ghost var way := WayOf(pcrLoc, pid, curCnt);
      if pid == -1 || (id0 == 0 && curCnt > pcrLoc[0]) {
        assert way == Extrapolated;
        var curPcr := Extrapolate(pcr, pcrLoc, curCnt);
        if curPcr.Err? {
          return Err(curPcr.error);
        }
        if pid != -1 {
          if !eptStart {
            eptStart := true;
          }
        }
        return Ok(PcrReply(curPcr.value, 0));
      } else if id0 == 0 {
        assert way == NotReady;
        return Ok(PcrReply(-1, 1));
      }
      assert way == Interpolated(id0);
      var curPcr := Interpolate(pcr, pcrLoc, id0, curCnt);
      eptStart := false;
      return Ok(PcrReply(curPcr, 0));
    }
  }

  /** The loop of requestPcr: the index of the first record at or after curCnt, 0 when there is none. */
  method FindId0(pcrLoc: seq<int>, curCnt: int) returns (id0: nat)
    ensures id0 == var f := FirstAtOrAfter(pcrLoc, curCnt); if f.Some? then f.value else 0
  {
    id0 := 0;
    var i := 0;
    while i < |pcrLoc|
      invariant 0 <= i <= |pcrLoc| && id0 == 0
      invariant forall j :: 0 <= j < i ==> pcrLoc[j] < curCnt
    {
      if pcrLoc[i] >= curCnt {
        id0 := i;
        break;
      }
      i := i + 1;
    }
    FirstIndex(pcrLoc, curCnt, i);
  }

  /** The search loop stops at the first record at or after curCnt, or runs off the end. */
  lemma FirstIndex(pcrLoc: seq<int>, curCnt: int, i: nat)
    requires i <= |pcrLoc| && forall j :: 0 <= j < i ==> pcrLoc[j] < curCnt
    requires i < |pcrLoc| ==> pcrLoc[i] >= curCnt
    ensures FirstAtOrAfter(pcrLoc, curCnt) == if i < |pcrLoc| then Some(i) else None
  {
    var f := FirstAtOrAfter(pcrLoc, curCnt);
    if i < |pcrLoc| {
      assert pcrLoc[i] >= curCnt;
    }
  }

  /** A single record at the requested packet gives that record's PCR. */
  lemma AtSingleRecord(pcr: seq<int>, pcrLoc: seq<int>, pid: int, curCnt: int)
    requires |pcr| == |pcrLoc| == 1 && pcrLoc[0] == curCnt
    ensures Request(pcr, pcrLoc, pid, curCnt) == Ok(PcrReply(pcr[0], 0))
  {
  }

  /** Otherwise, with fewer than two records, the PCR is not known: (-1, 1). */
  lemma TooFewRecords(pcr: seq<int>, pcrLoc: seq<int>, pid: int, curCnt: int)
    requires |pcr| == |pcrLoc| < 2 && !(|pcrLoc| == 1 && pcrLoc[0] == curCnt)
    ensures Request(pcr, pcrLoc, pid, curCnt) == Ok(PcrReply(-1, 1))
  {
  }

  /** For a tracked stream, a packet at or before the first record is not ready yet. */
  lemma BeforeFirstRecord(pcr: seq<int>, pcrLoc: seq<int>, pid: int, curCnt: int)
    requires 2 <= |pcr| == |pcrLoc| && pid != -1 && curCnt <= pcrLoc[0]
    ensures Request(pcr, pcrLoc, pid, curCnt) == Ok(PcrReply(-1, 1))
  {
  }

  /**
   * For a tracked stream, a packet after record i - 1 and at or before record i
   * (the first such record) gets the truncated interpolation between the two;
   * when the PCR does not decrease between them, it lies between their PCRs.
   */
  lemma InsideBracket(pcr: seq<int>, pcrLoc: seq<int>, pid: int, curCnt: int, i: nat)
    requires 2 <= |pcr| == |pcrLoc| && pid != -1 && 1 <= i < |pcrLoc|
    requires forall j :: 0 <= j < i ==> pcrLoc[j] < curCnt
    requires curCnt <= pcrLoc[i]
    ensures Request(pcr, pcrLoc, pid, curCnt) == Ok(PcrReply(Interpolate(pcr, pcrLoc, i, curCnt), 0))
    ensures pcr[i - 1] <= pcr[i] ==> pcr[i - 1] <= Interpolate(pcr, pcrLoc, i, curCnt) <= pcr[i]
    ensures EptStartAfter(true, pcr, pcrLoc, pid, curCnt) == false
  {
    FirstIndex(pcrLoc, curCnt, i);
    assert pcrLoc[i - 1] < curCnt;
    GoDivScaled(pcr[i] - pcr[i - 1], curCnt - pcrLoc[i - 1], pcrLoc[i] - pcrLoc[i - 1]);
  }

  /**
   * Beyond the last record, or for the whole-program request (pid -1), the PCR
   * is extrapolated from the last two records; at the last record's packet it
   * is that record's PCR.
   */
  lemma Extrapolation(pcr: seq<int>, pcrLoc: seq<int>, pid: int, curCnt: int)
    requires 2 <= |pcr| == |pcrLoc|
    requires pid == -1 || forall j :: 0 <= j < |pcrLoc| ==> pcrLoc[j] < curCnt
    ensures Request(pcr, pcrLoc, pid, curCnt) == (var v := Extrapolate(pcr, pcrLoc, curCnt);
                                                  if v.Err? then Err(v.error) else Ok(PcrReply(v.value, 0)))
    ensures EptStartAfter(false, pcr, pcrLoc, pid, curCnt) == (pid != -1 && Extrapolate(pcr, pcrLoc, curCnt).Ok?)
    ensures curCnt == pcrLoc[|pcrLoc| - 1] && Extrapolate(pcr, pcrLoc, curCnt).Ok? ==>
      Extrapolate(pcr, pcrLoc, curCnt).value == pcr[|pcr| - 1]
  {
    ExtrapolatedReply(pcr, pcrLoc, pid, curCnt);
    ExtrapolatedStart(pcr, pcrLoc, pid, curCnt);
  }

  lemma ExtrapolatedReply(pcr: seq<int>, pcrLoc: seq<int>, pid: int, curCnt: int)
    requires 2 <= |pcr| == |pcrLoc|
    requires pid == -1 || forall j :: 0 <= j < |pcrLoc| ==> pcrLoc[j] < curCnt
    ensures Request(pcr, pcrLoc, pid, curCnt) == (var v := Extrapolate(pcr, pcrLoc, curCnt);
                                                  if v.Err? then Err(v.error) else Ok(PcrReply(v.value, 0)))
  {
    if pid != -1 {
      FirstIndex(pcrLoc, curCnt, |pcrLoc|);
    }
  }

  lemma ExtrapolatedStart(pcr: seq<int>, pcrLoc: seq<int>, pid: int, curCnt: int)
    requires 2 <= |pcr| == |pcrLoc|
    requires pid == -1 || forall j :: 0 <= j < |pcrLoc| ==> pcrLoc[j] < curCnt
    ensures EptStartAfter(false, pcr, pcrLoc, pid, curCnt) == (pid != -1 && Extrapolate(pcr, pcrLoc, curCnt).Ok?)
  {
    if pid != -1 {
      FirstIndex(pcrLoc, curCnt, |pcrLoc|);
    }
  }
}
