/**
 * The page's event handlers, on the values of the session fields they read.
 * React queues the `setX` calls a handler makes and commits them together
 * when it next renders, so a handler body sees the values its fields had when
 * the click arrived (`showNextPart` tests `currentPartIndex` after queuing its
 * increment).  Each method returns the state that commit leaves; `ok == false`
 * means the draws ran out, and nothing is committed then.
 */
module Handlers {
  import opened Wrappers
  import opened Digits
  import opened SequenceGenerator
  import opened Segmenter
  import opened NoiseInterleaver
  import opened SessionState

  /** `segments.map(segment => createSegmentWithNoise(segment))`, one padded group per segment, in order. */
  method PadAll(segs: seq<string>, rng: seq<nat>) returns (res: Option<seq<SegmentDisplay>>, used: nat)
    ensures used <= |rng|
    ensures res.None? ==> used == |rng|
    ensures PaddedAll(segs, rng) == if res.Some? then Some((res.value, used)) else None
    ensures res.Some? ==> AllPadded(res.value, segs)
  {
    var parts: seq<SegmentDisplay> := [];
    used := 0;
    MapStart(segs, rng);
    var k := 0;
    while k < |segs|
      invariant k <= |segs| && used <= |rng|
      invariant MapSoFar(segs, rng, parts, k, used)
    {
      var part, taken := CreateSegmentWithNoise(segs[k], rng[used..]);
      if part.None? {
        MapFails(segs, rng, parts, k, used);
        return None, used + taken;
      }
      MapStep(segs, rng, parts, k, used, part.value, taken);
      used, parts, k := used + taken, parts + [part.value], k + 1;
    }
    MapDone(segs, rng, parts, used);
    return Some(parts), used;
  }

  /**
   * `generateNumber`: an empty field or a value below 6 is reset to '6';
   * otherwise a fresh secret of that length is drawn and cut, and the reveal
   * starts from the beginning.
   */
  method GenerateNumber(st: Snapshot, rng: seq<nat>) returns (ok: bool, next: Snapshot)
    requires SessionInvariant(st)
    ensures ok == AfterGenerate(st, rng).Some?
    ensures next == if ok then AfterGenerate(st, rng).value else st
    ensures SessionInvariant(next)
  {
    GenerateKeepsInvariant(st, rng);
    next := st;
    if st.digits == [] || DecimalValue(st.digits) < MinLength {
      next := next.(digits := "6");
      return true, next;
    }
    var num, trials, used := GenerateComplexNumber(DecimalValue(st.digits), rng);
    if num.None? {
      return false, next;
    }
    var newSegments, _ := GenerateRandomSegments(num.value, rng[used..]);
    if newSegments.None? {
      return false, next;
    }
    next := next.(randomNumber := num, segments := newSegments.value, displayedParts := [],
                  currentPartIndex := 0, showingCompleted := false, showAll := false);
    ok := true;
  }

  /** `resetDisplay`: clears the display, the index and both flags, and cuts the same secret anew. */
  method ResetDisplay(st: Snapshot, rng: seq<nat>) returns (ok: bool, next: Snapshot)
    requires SessionInvariant(st)
    ensures ok == AfterReset(st, rng).Some?
    ensures next == if ok then AfterReset(st, rng).value else st
    ensures SessionInvariant(next)
  {
    ResetOutcome(st, rng);
    next := st.(displayedParts := [], currentPartIndex := 0, showingCompleted := false, showAll := false);
    if HasSecret(st) {
      var cut, _ := GenerateRandomSegments(st.randomNumber.value, rng);
      if cut.None? {
        return false, st;
      }
      next := next.(segments := cut.value);
    }
    ok := true;
  }

  /**
   * `showNextPart`: past the last segment nothing happens; otherwise the
   * display is replaced by the padded current segment, the index moves on,
   * and revealing the last segment marks the session completed.
   */
  method ShowNextPart(st: Snapshot, rng: seq<nat>) returns (ok: bool, next: Snapshot)
    requires SessionInvariant(st)
    ensures ok == AfterNext(st, rng).Some?
    ensures next == if ok then AfterNext(st, rng).value else st
    ensures SessionInvariant(next)
  {
    NextOutcome(st, rng);
    next := st;
    if st.currentPartIndex >= |st.segments| {
      return true, next;
    }
    var currentSegment := st.segments[st.currentPartIndex];
    var part, _ := CreateSegmentWithNoise(currentSegment, rng);
    if part.None? {
      return false, next;
    }
    next := next.(displayedParts := [part.value], currentPartIndex := st.currentPartIndex + 1);
    if st.currentPartIndex == |st.segments| - 1 {
      next := next.(showingCompleted := true);
    }
    ok := true;
  }

  /**
   * `showAllSegments`: without a secret nothing happens; otherwise the secret
   * is cut anew and every segment is shown padded, all at once.
   */
  method ShowAllSegments(st: Snapshot, rng: seq<nat>) returns (ok: bool, next: Snapshot)
    requires SessionInvariant(st)
    ensures ok == AfterShowAll(st, rng).Some?
    ensures next == if ok then AfterShowAll(st, rng).value else st
    ensures SessionInvariant(next)
  {
    ShowAllOutcome(st, rng);
    next := st;
    if !HasSecret(st) {
      return true, next;
    }
    var cut, used := GenerateRandomSegments(st.randomNumber.value, rng);
    if cut.None? {
      return false, next;
    }
    var newSegments := cut.value;
    var allParts, _ := PadAll(newSegments, rng[used..]);
    if allParts.None? {
      return false, next;
    }
    next := next.(segments := newSegments, displayedParts := allParts.value, currentPartIndex := |newSegments|,
                  showingCompleted := true, showAll := true);
    ok := true;
  }
}
