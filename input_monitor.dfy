/**
 * The input monitor: continuity-counter checking on transport stream packets
 * (section 2.4.3.3 of ISO/IEC 13818-1). The counter of a PID goes up by one,
 * modulo 16, from one packet with payload to the next, and stays the same on a
 * packet that carries only an adaptation field (adaptation_field_control 2).
 */
module InputMonitor {
  import opened GoInt
  import opened Wrappers
  import opened TsHeaders

  const NullPid := 8191
  const AdaptationOnly := 2

  /** A logged continuity error: where it was seen, the counter expected and the one received. */
  datatype CcError = CcError(pid: int, pktCnt: int, expected: int, got: int)

  /** Whether a packet whose PID last carried counter prev (if any) breaks continuity. */
  predicate HasCcError(prev: Option<int>, th: TsHeader)
  {
    prev.Some? && th.pid != NullPid
    && ((th.afc != AdaptationOnly && th.cc != GoRem(prev.value + 1, 16))
        || (th.afc == AdaptationOnly && th.cc != prev.value))
  }

  function Lookup(m: map<int, int>, k: int): Option<int>
  {
    if k in m then Some(m[k]) else None
  }

  class Monitor {
    /** The last counter seen on each PID. */
    var ccMap: map<int, int>
    /** The errors logged, oldest first. */
    var ccErrors: seq<CcError>

    /** setupInputMonitor */
    constructor ()
      ensures ccMap == map[] && ccErrors == []
    {
      ccMap := map[];
      ccErrors := [];
    }

    /** checkTsHeader: log a continuity error if there is one, then remember the packet's counter. */
    method CheckTsHeader(th: TsHeader, pktCnt: int)
      modifies this
      ensures ccMap == old(ccMap)[th.pid := th.cc]
      ensures ccErrors == old(ccErrors) + (if HasCcError(Lookup(old(ccMap), th.pid), th)
                                          then [CcError(th.pid, pktCnt, GoRem(old(ccMap)[th.pid] + 1, 16), th.cc)]
                                          else [])
    {
      if th.pid in ccMap {
        var currCC := ccMap[th.pid];
        var hasCcError := (th.afc != AdaptationOnly && th.cc != GoRem(currCC + 1, 16)) || (th.afc == AdaptationOnly && th.cc != currCC);
        hasCcError := th.pid != NullPid && hasCcError;
        if hasCcError {
          ccErrors := ccErrors + [CcError(th.pid, pktCnt, GoRem(currCC + 1, 16), th.cc)];
        }
      }
      ccMap := ccMap[th.pid := th.cc];
    }
  }

  /** The map and the number of errors logged after checking a run of packets one by one. */
  function CheckAll(ccMap: map<int, int>, packets: seq<TsHeader>): (r: (map<int, int>, nat))
  {
    if packets == [] then (ccMap, 0)
    else
      var last := packets[|packets| - 1];
      var (m, n) := CheckAll(ccMap, packets[..|packets| - 1]);
      (m[last.pid := last.cc], n + if HasCcError(Lookup(m, last.pid), last) then 1 else 0)
  }

  /** A packet on a PID never seen before is never an error. */
  lemma FirstPacketNoError(ccMap: map<int, int>, th: TsHeader)
    requires th.pid !in ccMap
    ensures !HasCcError(Lookup(ccMap, th.pid), th)
  {
  }

  /** The null PID is never flagged, whatever its counters. */
  lemma NullPidNoError(prev: Option<int>, th: TsHeader)
    requires th.pid == NullPid
    ensures !HasCcError(prev, th)
  {
  }

  /** The counter that follows c: one more, modulo 16. */
  function NextCc(c: int): int { GoRem(c + 1, 16) }

  /** The counter of the last packet on pid in a run, if any. */
  function LastCc(packets: seq<TsHeader>, pid: int): Option<int>
  {
    if packets == [] then None
    else if packets[|packets| - 1].pid == pid then Some(packets[|packets| - 1].cc)
    else LastCc(packets[..|packets| - 1], pid)
  }

  /** th continues its PID: the first on it, the null PID, the next counter, or the same one without payload. */
  predicate Follows(prev: Option<int>, th: TsHeader)
  {
    prev.None? || th.pid == NullPid
    || (if th.afc == AdaptationOnly then th.cc == prev.value else th.cc == NextCc(prev.value))
  }

  /** Every packet of the run continues the counter of the last packet before it on its PID. */
  predicate Continuous(packets: seq<TsHeader>)
  {
    packets == [] || (Continuous(packets[..|packets| - 1]) && Follows(LastCc(packets[..|packets| - 1], packets[|packets| - 1].pid), packets[|packets| - 1]))
  }

  /** The monitor's map after a run holds, for each PID, the counter of the run's last packet on it. */
  lemma {:induction false} CheckAllLookup(ccMap: map<int, int>, packets: seq<TsHeader>, pid: int)
    ensures Lookup(CheckAll(ccMap, packets).0, pid)
         == if LastCc(packets, pid).Some? then LastCc(packets, pid) else Lookup(ccMap, pid)
    decreases |packets|
  {
    if packets != [] {
      CheckAllLookup(ccMap, packets[..|packets| - 1], pid);
    }
  }

  /**
   * Starting from an empty map, a run of packets logs no continuity error
   * exactly when it is continuous.
   */
  lemma {:induction false} NoErrorsIffContinuous(packets: seq<TsHeader>)
    ensures CheckAll(map[], packets).1 == 0 <==> Continuous(packets)
    decreases |packets|
  {
    if packets != [] {
      var init, last := packets[..|packets| - 1], packets[|packets| - 1];
      NoErrorsIffContinuous(init);
      CheckAllLookup(map[], init, last.pid);
      assert Lookup(CheckAll(map[], init).0, last.pid) == LastCc(init, last.pid);
    }
  }

  /** The checks of a packet run agree with the monitor's method applied packet by packet. */
  lemma CheckOneMore(ccMap: map<int, int>, packets: seq<TsHeader>, th: TsHeader)
    ensures CheckAll(ccMap, packets + [th]).0 == CheckAll(ccMap, packets).0[th.pid := th.cc]
    ensures CheckAll(ccMap, packets + [th]).1
         == CheckAll(ccMap, packets).1 + if HasCcError(Lookup(CheckAll(ccMap, packets).0, th.pid), th) then 1 else 0
  {
    assert (packets + [th])[..|packets|] == packets;
  }
}
