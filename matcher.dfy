/**
 * The best-match scorer of `matcher.c`: each signature scores +10 when its
 * expected TTL is within 5 of the reply's and +50 when its expected window
 * equals the reply's; a linear scan with a strict `>` keeps the first
 * signature of the highest score, and a match is reported only at 10 or more.
 *
 * The records read are the loader's: `data->ttl` and `data->window_size`
 * in the C code stand for the declared fields `t1_ttl` and `t1_window`.
 */
module Matcher {
  import opened Bytes
  import opened Wrappers
  import opened DbParser

  /** A scored signature: the reported name and its score. */
  datatype Match = Match(osName: string, score: int)

  /** The outcome of the scan: the highest score seen and the index of the signature that set it. */
  datatype Best = Best(maxScore: int, index: Option<nat>)

  /** The score at or above which a match is reported. */
  const ReportThreshold: int := 10

  function Abs(x: int): nat { if x < 0 then -x else x }

  /** TTL within 5 hops of a known expectation. */
  predicate TtlClose(sig: OSSignature, pktTtl: int)
  {
    sig.t1Ttl != Unknown && Abs(pktTtl - sig.t1Ttl) <= 5
  }

  /** Window exactly equal to a known expectation. */
  predicate WindowExact(sig: OSSignature, pktWin: int)
  {
    sig.t1Window != Unknown && sig.t1Window == pktWin
  }

  /** The per-signature score: +10 for a close TTL, +50 for an exact window. */
  function Score(sig: OSSignature, pktTtl: int, pktWin: int): (s: int)
    ensures s in {0, 10, 50, 60}
    ensures s >= 50 <==> WindowExact(sig, pktWin)
    ensures s % 50 == 10 <==> TtlClose(sig, pktTtl)
    ensures s > 0 <==> s >= ReportThreshold
  {
    (if TtlClose(sig, pktTtl) then 10 else 0) + (if WindowExact(sig, pktWin) then 50 else 0)
  }

  /**
   * The state after scanning `sigs` from the start: `max_score` starting at
   * 0, replaced, together with `best_match`, whenever a later score is
   * strictly higher.
   */
  function Scan(sigs: seq<OSSignature>, pktTtl: int, pktWin: int): Best
    decreases |sigs|
  {
    if sigs == [] then Best(0, None)
    else
      var prev := Scan(sigs[..|sigs| - 1], pktTtl, pktWin);
      var s := Score(sigs[|sigs| - 1], pktTtl, pktWin);
      if s > prev.maxScore then Best(s, Some(|sigs| - 1)) else prev
  }

  /**
   * What the scan computes: the maximum score over all signatures (0 for
   * none); no best match iff every score is 0; otherwise the earliest
   * signature attaining that maximum, every earlier one scoring less.
   */
  lemma {:induction false} ScanIsFirstMaximum(sigs: seq<OSSignature>, pktTtl: int, pktWin: int)
    ensures var b := Scan(sigs, pktTtl, pktWin);
      && b.maxScore >= 0
      && (forall i :: 0 <= i < |sigs| ==> Score(sigs[i], pktTtl, pktWin) <= b.maxScore)
      && (b.index.None? <==> b.maxScore == 0)
      && (b.index.Some? ==>
            && b.index.value < |sigs|
            && Score(sigs[b.index.value], pktTtl, pktWin) == b.maxScore
            && forall j :: 0 <= j < b.index.value ==> Score(sigs[j], pktTtl, pktWin) < b.maxScore)
    decreases |sigs|
  {
    if sigs != [] {
      var init := sigs[..|sigs| - 1];
      ScanIsFirstMaximum(init, pktTtl, pktWin);
      assert forall i :: 0 <= i < |init| ==> init[i] == sigs[i];
    }
  }

  /** The report printed after the scan: the best match's name and score, if any reaches 10. */
  function Report(sigs: seq<OSSignature>, pktTtl: int, pktWin: int): Option<Match>
  {
    var b := Scan(sigs, pktTtl, pktWin);
    if b.index.Some? && b.index.value < |sigs| && b.maxScore >= ReportThreshold
    then Some(Match(sigs[b.index.value].osName, b.maxScore))
    else None
  }

  /**
   * A match is reported iff some signature scores above 0: the `>= 10`
   * check never rejects a best match, since every positive score is at
   * least 10. The match reported is the first signature of the top score.
   */
  lemma ReportIffSomeScore(sigs: seq<OSSignature>, pktTtl: int, pktWin: int)
    ensures Report(sigs, pktTtl, pktWin).Some? <==>
            exists i :: 0 <= i < |sigs| && Score(sigs[i], pktTtl, pktWin) > 0
    ensures Report(sigs, pktTtl, pktWin).Some? ==>
            exists k :: 0 <= k < |sigs|
              && Report(sigs, pktTtl, pktWin) == Some(Match(sigs[k].osName, Score(sigs[k], pktTtl, pktWin)))
              && (forall j :: 0 <= j < k ==> Score(sigs[j], pktTtl, pktWin) < Score(sigs[k], pktTtl, pktWin))
              && (forall j :: 0 <= j < |sigs| ==> Score(sigs[j], pktTtl, pktWin) <= Score(sigs[k], pktTtl, pktWin))
  {
    ScanIsFirstMaximum(sigs, pktTtl, pktWin);
    var b := Scan(sigs, pktTtl, pktWin);
    if b.index.Some? {
      var k := b.index.value;
      assert Score(sigs[k], pktTtl, pktWin) > 0;
    }
  }

  /** Signatures whose expectations are both unknown score 0, so nothing loaded by the loader is ever reported. */
  lemma UnknownExpectationsNeverMatch(sigs: seq<OSSignature>, pktTtl: int, pktWin: int)
    requires forall i :: 0 <= i < |sigs| ==> sigs[i].t1Ttl == Unknown && sigs[i].t1Window == Unknown
    ensures Report(sigs, pktTtl, pktWin) == None
  {
    ReportIffSomeScore(sigs, pktTtl, pktWin);
  }

  /**
   * `find_best_match` over the list at `db`, for the reply's TTL and window:
   * it walks the list once, keeps `max_score` and `best_match` as `Scan`
   * does, and reports as `Report` does. It only reads the list.
   */
  method FindBestMatch(db: SignatureNode?, ghost spine: seq<SignatureNode>, pktTtl: byte, pktWin: u16)
    returns (bestMatch: SignatureNode?, maxScore: int, report: Option<Match>)
    requires IsList(db, spine)
    ensures var b := Scan(Contents(spine), pktTtl, pktWin);
      && maxScore == b.maxScore
      && bestMatch == (if b.index.Some? && b.index.value < |spine| then spine[b.index.value] else null)
    ensures report == Report(Contents(spine), pktTtl, pktWin)
  {
    ghost var sigs := Contents(spine);
    var curr := db;
    bestMatch, maxScore := null, 0;
    ghost var k := 0;
    ghost var bestIndex: Option<nat> := None;
    while curr != null
      invariant 0 <= k <= |spine|
      invariant curr == if k < |spine| then spine[k] else null
      invariant Best(maxScore, bestIndex) == Scan(sigs[..k], pktTtl, pktWin)
      invariant bestIndex.Some? ==> bestIndex.value < k
      invariant bestMatch == if bestIndex.Some? then spine[bestIndex.value] else null
      decreases |spine| - k
    {
      assert sigs[..k + 1][..k] == sigs[..k];
      var score := 0;
      if curr.data.t1Ttl != Unknown {
        var diff := Abs(pktTtl - curr.data.t1Ttl);
        if diff <= 5 {
          score := score + 10;
        }
      }
      if curr.data.t1Window != Unknown {
        if curr.data.t1Window == pktWin {
          score := score + 50;
        }
      }
      if score > maxScore {
        maxScore := score;
        bestMatch := curr;
        bestIndex := Some(k);
      }
      curr := curr.next;
      k := k + 1;
    }
    assert sigs[..k] == sigs;
    ScanIsFirstMaximum(sigs, pktTtl, pktWin);
    if bestMatch != null && maxScore >= ReportThreshold {
      report := Some(Match(bestMatch.data.osName, maxScore));
    } else {
      report := None;
    }
  }
}
