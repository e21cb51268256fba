/**
 * The probe schedule and verdict of `main.c`: probe T1 (SYN) decides whether
 * the host is up and is the only probe matched against the signature list;
 * probes T2..T7 follow, and the replies to T2 (null), T3 (SYN|FIN|PSH|URG)
 * and T7 (FIN|PSH|URG) vote Linux or Windows with weights 1, 1 and 2.
 */
module Orchestrator {
  import opened Bytes
  import opened Bits
  import opened Wrappers
  import opened Network
  import opened DbParser
  import opened Matcher

  /** The size of the result vector; slots 1..7 hold the probes T1..T7. */
  const MaxTests: nat := 10

  /** Every probe goes to port 80. */
  const ProbePort: int := 80

  /**
   * The flags of T1..T7 in the order they are sent. The flag bits are
   * disjoint, so the C `|` of several of them is their sum.
   */
  const ProbeFlags: seq<int> := [
    SynFlag,
    0,
    SynFlag + FinFlag + PshFlag + UrgFlag,
    AckFlag,
    SynFlag,
    AckFlag,
    FinFlag + PshFlag + UrgFlag
  ]

  /**
   * The TTL and window the matcher reads for a reply: `ip->ttl` and
   * `ntohs(tcp->window)`. The TTL is given because the C locates its IP
   * header by a fixed offset; the window is given only for simplicity.
   */
  datatype Observation = Observation(ttl: byte, window: u16)

  /**
   * What one probe meets: whether the raw socket can be opened, the datagrams
   * received until one `recvfrom` waits two seconds without data, and what the matcher reads
   * for the reply.
   */
  datatype Exchange = Exchange(socketOk: bool, arrivals: seq<Datagram>, seen: Observation)

  /** The verdict of the final report. */
  datatype Os = Linux | Windows

  /** How a run ends: the host did not answer T1, or the full analysis. */
  datatype Outcome =
    | HostDown
    | Analysis(results: seq<int>, linuxScore: int, windowsScore: int, os: Os)

  /** The target answers: the socket opens and some arriving datagram comes from the target. */
  predicate Replied(target: Addr, e: Exchange)
  {
    e.socketOk && exists i :: 0 <= i < |e.arrivals| && e.arrivals[i].source == target
  }

  /** The entry of the result vector for one probe: 1 when answered, 0 on timeout. */
  ghost function ResultOf(target: Addr, e: Exchange): int
  {
    if Replied(target, e) then 1 else 0
  }

  /** Linux votes: one each for replies to T2 and T3, two for a reply to T7. */
  function LinuxScore(r2: bool, r3: bool, r7: bool): (n: nat)
    ensures n <= 4 && (n == 0 <==> !r2 && !r3 && !r7)
  {
    BitValue(r2) + BitValue(r3) + 2 * BitValue(r7)
  }

  /** Windows votes: the same weights for the probes left unanswered; the two scores always total 4. */
  function WindowsScore(r2: bool, r3: bool, r7: bool): (n: nat)
    ensures n + LinuxScore(r2, r3, r7) == 4
  {
    BitValue(!r2) + BitValue(!r3) + 2 * BitValue(!r7)
  }

  /**
   * Linux wins only on a strict majority, so a 2:2 tie is Windows: the
   * verdict is Linux exactly when T7 is answered together with T2 or T3.
   */
  function Verdict(r2: bool, r3: bool, r7: bool): (os: Os)
    ensures os == Linux <==> r7 && (r2 || r3)
    ensures os == Linux <==> LinuxScore(r2, r3, r7) > 2
  {
    if LinuxScore(r2, r3, r7) > WindowsScore(r2, r3, r7) then Linux else Windows
  }

  /**
   * `run_test_and_match`: send the probe with `flags` to port 80, wait for
   * the first reply from the target, and, when there is one and a list was
   * given, match it against the list. The result is 1 for a reply, 0 for none.
   */
  method RunTestAndMatch(src: Addr, target: Addr, flags: int, db: SignatureNode?, ghost spine: seq<SignatureNode>, e: Exchange)
    returns (result: int, sent: seq<byte>, report: Option<Match>)
    requires IsList(db, spine)
    ensures sent == ProbeSegment(src, target, ProbePort, flags)
    ensures result == ResultOf(target, e)
    ensures report == if Replied(target, e) && db != null then Report(Contents(spine), e.seen.ttl, e.seen.window) else None
  {
    sent := SendTcpPacket(src, target, ProbePort, flags);
    var resp := ReceiveTcpResponse(target, e.socketOk, e.arrivals);
    report := None;
    if resp.Some? {
      if db != null {
        var best, score, found := FindBestMatch(db, spine, e.seen.ttl, e.seen.window);
        report := found;
      }
      result := 1;
    } else {
      result := 0;
    }
  }

  /**
   * Steps 0 and 1 of `main`: load the list and run T1 (SYN), the only probe
   * matched against it. The match never reports, since every loaded record
   * has both expectations unknown.
   */
  method LoadAndRunFirstProbe(src: Addr, target: Addr, dbFile: Option<seq<string>>, e: Exchange)
    returns (result: int, sent: seq<byte>, report: Option<Match>)
    requires dbFile.Some? ==> LinesReadable(dbFile.value)
    ensures result == ResultOf(target, e)
    ensures sent == ProbeSegment(src, target, ProbePort, ProbeFlags[0])
    ensures report == if Replied(target, e) && dbFile.Some?
                      then Report(Records(dbFile.value), e.seen.ttl, e.seen.window)
                      else None
    ensures report == None
  {
    var db, count, spine := ParseNmapDb(dbFile);
    result, sent, report := RunTestAndMatch(src, target, ProbeFlags[0], db, spine, e);
    if dbFile.Some? {
      RecordsHaveUnknownExpectations(dbFile.value);
      UnknownExpectationsNeverMatch(Records(dbFile.value), e.seen.ttl, e.seen.window);
    }
  }

  /**
   * One statement of step 2 of `main`, `results[slot] = run_test_and_match(...)`
   * with no list: the probe is sent and its result lands in its slot, every
   * other slot keeping its value.
   */
  method RunProbe(src: Addr, target: Addr, flags: int, e: Exchange, results: array<int>, slot: nat)
    returns (sent: seq<byte>)
    requires slot < results.Length
    modifies results
    ensures sent == ProbeSegment(src, target, ProbePort, flags)
    ensures results[..] == old(results[..])[slot := ResultOf(target, e)]
  {
    var report;
    results[slot], sent, report := RunTestAndMatch(src, target, flags, null, [], e);
  }

  // `main` runs the six statements of step 2 in a row; the model splits them
  // into two halves of three only to keep each proof small.

  /** Statements 1..3 of step 2 of `main`: T2 (null), T3 (SYN|FIN|PSH|URG) and T4 (ACK) into slots 2..4. */
  method RunProbesT2ToT4(src: Addr, target: Addr, tail: seq<Exchange>, results: array<int>)
    returns (segs: seq<seq<byte>>)
    requires |tail| == 3 && results.Length == MaxTests
    modifies results
    ensures |segs| == 3 && forall i :: 0 <= i < 3 ==> segs[i] == ProbeSegment(src, target, ProbePort, ProbeFlags[1 + i])
    ensures forall i :: 0 <= i < 3 ==> results[2 + i] == ResultOf(target, tail[i])
    ensures forall i :: 0 <= i < MaxTests && !(2 <= i < 5) ==> results[i] == old(results[i])
  {
    var s2 := RunProbe(src, target, ProbeFlags[1], tail[0], results, 2);
    var s3 := RunProbe(src, target, ProbeFlags[2], tail[1], results, 3);
    var s4 := RunProbe(src, target, ProbeFlags[3], tail[2], results, 4);
    segs := [s2, s3, s4];
  }

  /** Statements 4..6 of step 2 of `main`: T5 (SYN), T6 (ACK) and T7 (FIN|PSH|URG) into slots 5..7. */
  method RunProbesT5ToT7(src: Addr, target: Addr, tail: seq<Exchange>, results: array<int>)
    returns (segs: seq<seq<byte>>)
    requires |tail| == 3 && results.Length == MaxTests
    modifies results
    ensures |segs| == 3 && forall i :: 0 <= i < 3 ==> segs[i] == ProbeSegment(src, target, ProbePort, ProbeFlags[4 + i])
    ensures forall i :: 0 <= i < 3 ==> results[5 + i] == ResultOf(target, tail[i])
    ensures forall i :: 0 <= i < MaxTests && !(5 <= i < 8) ==> results[i] == old(results[i])
  {
    var s5 := RunProbe(src, target, ProbeFlags[4], tail[0], results, 5);
    var s6 := RunProbe(src, target, ProbeFlags[5], tail[1], results, 6);
    var s7 := RunProbe(src, target, ProbeFlags[6], tail[2], results, 7);
    segs := [s5, s6, s7];
  }

  /**
   * Step 2 of `main`: probes T2..T7 in order, each without the list, their
   * results stored in slots 2..7 of the result vector.
   */
  method RunHeuristicProbes(src: Addr, target: Addr, tail: seq<Exchange>, results: array<int>)
    returns (segs: seq<seq<byte>>)
    requires |tail| == |ProbeFlags| - 1 && results.Length == MaxTests
    modifies results
    ensures |segs| == 6 && forall i :: 0 <= i < 6 ==> segs[i] == ProbeSegment(src, target, ProbePort, ProbeFlags[1 + i])
    ensures forall i :: 0 <= i < 6 ==> results[i + 2] == ResultOf(target, tail[i])
    ensures results[0] == old(results[0]) && results[1] == old(results[1])
    ensures results[8] == old(results[8]) && results[9] == old(results[9])
  {
    var first := RunProbesT2ToT4(src, target, tail[..3], results);
    var second := RunProbesT5ToT7(src, target, tail[3..], results);
    segs := first + second;
  }

  /**
   * Step 3 of `main`: a reply to T2 or T3 is one vote for Linux, a reply to
   * T7 two; each unanswered one votes Windows with the same weight, and
   * Linux needs a strict majority.
   */
  method AnalyzeResults(results: array<int>) returns (linuxScore: int, windowsScore: int, os: Os)
    requires results.Length == MaxTests
    ensures var r2, r3, r7 := results[2] != 0, results[3] != 0, results[7] != 0;
            linuxScore == LinuxScore(r2, r3, r7) && windowsScore == WindowsScore(r2, r3, r7) && os == Verdict(r2, r3, r7)
  {
    linuxScore, windowsScore := 0, 0;
    if results[2] != 0 { linuxScore := linuxScore + 1; } else { windowsScore := windowsScore + 1; }
    if results[3] != 0 { linuxScore := linuxScore + 1; } else { windowsScore := windowsScore + 1; }
    if results[7] != 0 { linuxScore := linuxScore + 2; } else { windowsScore := windowsScore + 2; }
    os := if linuxScore > windowsScore then Linux else Windows;
  }

  /**
   * `main` after the privilege and argument checks: load the list, run T1,
   * stop with "host down" when it is unanswered, otherwise run T2..T7 without
   * the list and give the verdict. `sent` lists the probes in sending order
   * and `t1Report` is the matcher's report for T1.
   */
  method Fingerprint(src: Addr, target: Addr, dbFile: Option<seq<string>>, exchanges: seq<Exchange>)
    returns (outcome: Outcome, sent: seq<seq<byte>>, t1Report: Option<Match>)
    requires dbFile.Some? ==> LinesReadable(dbFile.value)
    requires |exchanges| == |ProbeFlags|
    ensures !Replied(target, exchanges[0]) ==>
              outcome == HostDown && sent == [ProbeSegment(src, target, ProbePort, ProbeFlags[0])]
    ensures Replied(target, exchanges[0]) ==>
              && |sent| == |ProbeFlags|
              && (forall i :: 0 <= i < |ProbeFlags| ==> sent[i] == ProbeSegment(src, target, ProbePort, ProbeFlags[i]))
              && outcome.Analysis?
    ensures outcome.Analysis? ==>
              var r2, r3, r7 := Replied(target, exchanges[1]), Replied(target, exchanges[2]), Replied(target, exchanges[6]);
              && |outcome.results| == MaxTests
              && outcome.results[0] == 0 && outcome.results[8] == 0 && outcome.results[9] == 0
              && (forall i :: 0 <= i < |ProbeFlags| ==> outcome.results[i + 1] == ResultOf(target, exchanges[i]))
              && outcome.linuxScore == LinuxScore(r2, r3, r7)
              && outcome.windowsScore == WindowsScore(r2, r3, r7)
              && outcome.os == Verdict(r2, r3, r7)
    ensures t1Report == None
  {
    var results := new int[MaxTests](_ => 0);
    var r, seg;
    r, seg, t1Report := LoadAndRunFirstProbe(src, target, dbFile, exchanges[0]);
    results[1] := r;
    sent := [seg];
    if results[1] == 0 {
      outcome := HostDown;
      return;
    }
    var rest := RunHeuristicProbes(src, target, exchanges[1..], results);
    sent := sent + rest;
    var linuxScore, windowsScore, os := AnalyzeResults(results);
    outcome := Analysis(results[..], linuxScore, windowsScore, os);
  }
}
