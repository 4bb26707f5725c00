/**
 * The session's state as a value, and the invariant every handler keeps.
 */
module SessionState {
  import opened Wrappers
  import opened Digits
  import opened SequenceGenerator
  import opened Segmenter
  import opened NoiseInterleaver

  /** The range of lengths the input field lets through. */
  const MinLength := 6
  const MaxLength := 32

  /** The values of all session fields at one moment. */
  datatype Snapshot = Snapshot(
    digits: string,
    randomNumber: Option<string>,
    segments: seq<string>,
    displayedParts: seq<SegmentDisplay>,
    currentPartIndex: int,
    showingCompleted: bool,
    showAll: bool)

  /** `parts[i]` is a padding of `segs[i]`, for every i. */
  predicate AllPadded(parts: seq<SegmentDisplay>, segs: seq<string>) {
    |parts| == |segs| && forall i :: 0 <= i < |parts| ==> IsPadding(parts[i], segs[i])
  }

  /** The number of real digits shown over all groups. */
  function TotalRealLength(parts: seq<SegmentDisplay>): nat {
    if parts == [] then 0 else TotalRealLength(parts[..|parts| - 1]) + parts[|parts| - 1].realLength
  }

  /** Padding every segment shows, in all, as many real digits as the segments hold. */
  lemma {:induction false} TotalRealLengthIsConcatLength(parts: seq<SegmentDisplay>, segs: seq<string>)
    requires AllPadded(parts, segs)
    ensures TotalRealLength(parts) == |Concat(segs)|
  {
    if parts != [] {
      var k := |parts| - 1;
      assert AllPadded(parts[..k], segs[..k]);
      assert segs[..k] == segs[..|segs| - 1];
      TotalRealLengthIsConcatLength(parts[..k], segs[..k]);
    }
  }

  /**
   * `segments.map(segment => createSegmentWithNoise(segment))` from segment
   * `k` and draw `rng[from]` on: the groups, each drawing from what the
   * previous one left, and the position after the last draw used.
   */
  function PaddedFrom(segs: seq<string>, k: nat, rng: seq<nat>, from: nat): (r: Option<(seq<SegmentDisplay>, nat)>)
    requires from <= |rng|
    ensures r.Some? ==> from <= r.value.1 <= |rng|
    decreases |segs| - k
  {
    if k >= |segs| then Some(([], from))
    else
      var p := Padded(segs[k], rng[from..]);
      if p.None? then None
      else JoinParts([p.value.0], PaddedFrom(segs, k + 1, rng, from + p.value.1))
  }

  /** Every segment padded in turn on the draws `rng`. */
  function PaddedAll(segs: seq<string>, rng: seq<nat>): Option<(seq<SegmentDisplay>, nat)> {
    PaddedFrom(segs, 0, rng, 0)
  }

  /** `prefix` put in front of the groups the rest of the map yields. */
  function JoinParts(prefix: seq<SegmentDisplay>, rest: Option<(seq<SegmentDisplay>, nat)>)
    : Option<(seq<SegmentDisplay>, nat)>
  {
    if rest.None? then None else Some((prefix + rest.value.0, rest.value.1))
  }

  lemma JoinPartsJoin(p: seq<SegmentDisplay>, q: seq<SegmentDisplay>, r: Option<(seq<SegmentDisplay>, nat)>)
    ensures JoinParts(p, JoinParts(q, r)) == JoinParts(p + q, r)
  {
    if r.Some? {
      assert p + (q + r.value.0) == (p + q) + r.value.0;
    }
  }

  /** One segment padded, seen from the groups already made. */
  lemma PaddedFromStep(segs: seq<string>, k: nat, rng: seq<nat>, from: nat, parts: seq<SegmentDisplay>,
                       g: SegmentDisplay, u: nat)
    requires k < |segs| && from <= |rng| && Padded(segs[k], rng[from..]) == Some((g, u))
    ensures JoinParts(parts, PaddedFrom(segs, k, rng, from)) == JoinParts(parts + [g], PaddedFrom(segs, k + 1, rng, from + u))
  {
    assert PaddedFrom(segs, k, rng, from) == JoinParts([g], PaddedFrom(segs, k + 1, rng, from + u));
    JoinPartsJoin(parts, [g], PaddedFrom(segs, k + 1, rng, from + u));
  }

  /** The map so far: `parts` made for the first `k` segments with the draws before `used`. */
  predicate MapSoFar(segs: seq<string>, rng: seq<nat>, parts: seq<SegmentDisplay>, k: nat, used: nat) {
    used <= |rng| && PaddedAll(segs, rng) == JoinParts(parts, PaddedFrom(segs, k, rng, used))
  }

  /** One segment padded keeps `MapSoFar`. */
  lemma MapStep(segs: seq<string>, rng: seq<nat>, parts: seq<SegmentDisplay>, k: nat, used: nat,
                g: SegmentDisplay, u: nat)
    requires MapSoFar(segs, rng, parts, k, used) && k < |segs|
    requires Padded(segs[k], rng[used..]) == Some((g, u))
    ensures MapSoFar(segs, rng, parts + [g], k + 1, used + u)
  {
    PaddedFromStep(segs, k, rng, used, parts, g, u);
  }

  /** Before the first segment the map so far is empty. */
  lemma MapStart(segs: seq<string>, rng: seq<nat>)
    ensures MapSoFar(segs, rng, [], 0, 0)
  {
    if PaddedAll(segs, rng).Some? {
      assert [] + PaddedAll(segs, rng).value.0 == PaddedAll(segs, rng).value.0;
    }
  }

  /** A segment whose padding runs out of draws ends the map with nothing. */
  lemma MapFails(segs: seq<string>, rng: seq<nat>, parts: seq<SegmentDisplay>, k: nat, used: nat)
    requires MapSoFar(segs, rng, parts, k, used) && k < |segs|
    requires Padded(segs[k], rng[used..]).None?
    ensures PaddedAll(segs, rng).None?
  {
  }

  /** Past the last segment the map is complete: one padding per segment. */
  lemma MapDone(segs: seq<string>, rng: seq<nat>, parts: seq<SegmentDisplay>, used: nat)
    requires MapSoFar(segs, rng, parts, |segs|, used)
    ensures PaddedAll(segs, rng) == Some((parts, used)) && used <= |rng|
    ensures AllPadded(parts, segs)
  {
    PaddedFromDone(segs, rng, used, parts);
    PaddedAllPads(segs, rng);
  }

  /** Past the last segment the map yields nothing more. */
  lemma PaddedFromDone(segs: seq<string>, rng: seq<nat>, from: nat, parts: seq<SegmentDisplay>)
    requires from <= |rng|
    ensures JoinParts(parts, PaddedFrom(segs, |segs|, rng, from)) == Some((parts, from))
  {
    assert parts + [] == parts;
  }

  /** Every group the map yields pads its own segment. */
  lemma {:induction false} PaddedFromPads(segs: seq<string>, k: nat, rng: seq<nat>, from: nat,
                                          parts: seq<SegmentDisplay>, end: nat)
    requires k <= |segs| && from <= |rng| && PaddedFrom(segs, k, rng, from) == Some((parts, end))
    ensures PadsFrom(parts, segs, k)
    decreases |segs| - k
  {
    if k < |segs| {
      var g, u, rest := PaddedFromHead(segs, k, rng, from, parts, end);
      PaddedFromPads(segs, k + 1, rng, from + u, rest, end);
      PaddedCons(g, rest, segs, k);
    }
  }

  /** A map that finishes pads the segment it starts at, then finishes on the rest. */
  lemma PaddedFromHead(segs: seq<string>, k: nat, rng: seq<nat>, from: nat, parts: seq<SegmentDisplay>, end: nat)
    returns (g: SegmentDisplay, u: nat, rest: seq<SegmentDisplay>)
    requires k < |segs| && from <= |rng| && PaddedFrom(segs, k, rng, from) == Some((parts, end))
    ensures IsPadding(g, segs[k]) && from + u <= |rng| && parts == [g] + rest
    ensures PaddedFrom(segs, k + 1, rng, from + u) == Some((rest, end))
  {
    var p := Padded(segs[k], rng[from..]).value;
    PaddedIsPadding(segs[k], rng[from..]);
    g, u := p.0, p.1;
    rest := PaddedFrom(segs, k + 1, rng, from + u).value.0;
  }

  /** `parts[i]` is a padding of `segs[k + i]`, one group per segment from `k` on. */
  predicate PadsFrom(parts: seq<SegmentDisplay>, segs: seq<string>, k: nat) {
    |parts| + k == |segs| && forall i :: 0 <= i < |parts| ==> IsPadding(parts[i], segs[k + i])
  }

  /** A padding of `segs[k]` in front of paddings of the segments after it. */
  lemma PaddedCons(g: SegmentDisplay, rest: seq<SegmentDisplay>, segs: seq<string>, k: nat)
    requires k < |segs| && IsPadding(g, segs[k]) && PadsFrom(rest, segs, k + 1)
    ensures PadsFrom([g] + rest, segs, k)
  {
    forall i | 0 <= i < |[g] + rest|
      ensures IsPadding(([g] + rest)[i], segs[k + i])
    {
      if i > 0 {
        assert ([g] + rest)[i] == rest[i - 1] && k + i == k + 1 + (i - 1);
      }
    }
  }

  /** What the map promises: one padding per segment, in order. */
  lemma PaddedAllPads(segs: seq<string>, rng: seq<nat>)
    requires PaddedAll(segs, rng).Some?
    ensures AllPadded(PaddedAll(segs, rng).value.0, segs)
  {
    PaddedFromPads(segs, 0, rng, 0, PaddedAll(segs, rng).value.0, PaddedAll(segs, rng).value.1);
  }

  /** A digit value a segment shorter than `Width` does not contain (any digit for a longer one). */
  ghost function AbsentDigit(seg: string): (d: nat)
    ensures d <= 9 && (|seg| < Width ==> Char(d) !in seg)
  {
    if |seg| < Width then
      DecoyValuesAvailable(seg);
      var d :| 0 <= d <= 9 && Char(d) !in seg; d
    else 0
  }

  /** For each segment from `k` on, twice its decoy count draws of a digit it lacks. */
  ghost function PadDraws(segs: seq<string>, k: nat): seq<nat>
    decreases |segs| - k
  {
    if k >= |segs| then [] else Repeat(AbsentDigit(segs[k]), 2 * NoiseCount(segs[k])) + PadDraws(segs, k + 1)
  }

  /** `n` copies of `d`. */
  function Repeat(d: nat, n: nat): (r: seq<nat>)
    ensures |r| == n && forall j :: 0 <= j < n ==> r[j] == d
  {
    if n == 0 then [] else [d] + Repeat(d, n - 1)
  }

  /** On `PadDraws`, the map from segment `k` on finishes. */
  lemma {:induction false} PaddedFromOnDraws(segs: seq<string>, k: nat, rng: seq<nat>, from: nat)
    requires k <= |segs| && from <= |rng| && rng[from..] == PadDraws(segs, k)
    ensures PaddedFrom(segs, k, rng, from).Some?
    decreases |segs| - k
  {
    if k < |segs| {
      PadDrawsRest(segs, k, rng, from);
      PaddedFromOnDraws(segs, k + 1, rng, from + 2 * NoiseCount(segs[k]));
      PaddedFromCons(segs, k, rng, from);
    }
  }

  /** After the run `PadDraws` gives segment `k` come the draws of the segments after it. */
  lemma PadDrawsRest(segs: seq<string>, k: nat, rng: seq<nat>, from: nat)
    requires k < |segs| && from <= |rng| && rng[from..] == PadDraws(segs, k)
    ensures from + 2 * NoiseCount(segs[k]) <= |rng| && rng[from + 2 * NoiseCount(segs[k])..] == PadDraws(segs, k + 1)
  {
    var n := 2 * NoiseCount(segs[k]);
    assert rng[from..] == Repeat(AbsentDigit(segs[k]), n) + PadDraws(segs, k + 1);
    assert rng[from + n..] == rng[from..][n..];
  }

  /** On `PadDraws`, if the rest of the map finishes, so does the map from segment `k`. */
  lemma PaddedFromCons(segs: seq<string>, k: nat, rng: seq<nat>, from: nat)
    requires k < |segs| && from <= |rng| && rng[from..] == PadDraws(segs, k)
    requires from + 2 * NoiseCount(segs[k]) <= |rng| && PaddedFrom(segs, k + 1, rng, from + 2 * NoiseCount(segs[k])).Some?
    ensures PaddedFrom(segs, k, rng, from).Some?
  {
    PadDrawsHead(segs, k, rng, from);
    var p := Padded(segs[k], rng[from..]);
    var rest := PaddedFrom(segs, k + 1, rng, from + p.value.1);
    assert rest.Some?;
    assert PaddedFrom(segs, k, rng, from) == JoinParts([p.value.0], rest);
  }

  /** On `PadDraws`, segment `k` is padded with its own run of draws. */
  lemma PadDrawsHead(segs: seq<string>, k: nat, rng: seq<nat>, from: nat)
    requires k < |segs| && from <= |rng| && rng[from..] == PadDraws(segs, k)
    ensures Padded(segs[k], rng[from..]).Some? && Padded(segs[k], rng[from..]).value.1 == 2 * NoiseCount(segs[k])
  {
    var n := 2 * NoiseCount(segs[k]);
    var d := AbsentDigit(segs[k]);
    var r := rng[from..];
    assert r == Repeat(d, n) + PadDraws(segs, k + 1);
    if |segs[k]| < Width {
      PaddedOnRun(segs[k], d, r);
    } else {
      PaddedOversized(segs[k], r);
    }
  }

  /**
   * Every list of segments can be padded: some draws finish
   * `segments.map(createSegmentWithNoise)`.
   */
  lemma PaddedAllReachable(segs: seq<string>)
    ensures exists rng :: PaddedAll(segs, rng).Some?
  {
    var rng := PadDraws(segs, 0);
    PaddedFromOnDraws(segs, 0, rng, 0);
    assert PaddedAll(segs, rng).Some?;
  }

  /**
   * The display shows nothing, or exactly the group of the segment revealed
   * last (the one before `index`), or one group per segment.
   */
  predicate ShowsRevealed(displayed: seq<SegmentDisplay>, segments: seq<string>, index: int) {
    displayed == []
    || (|displayed| == 1 && 1 <= index <= |segments| && IsPadding(displayed[0], segments[index - 1]))
    || AllPadded(displayed, segments)
  }

  /**
   * A 32-digit secret cut with all-zero draws ends in a 12-digit segment;
   * `Width - 12` is negative, so its group gets no decoy and shows the 12 real
   * digits as they are.
   */
  lemma LongSecretFinalGroupIsBare(s: string, rng: seq<nat>, segs: seq<string>, g: SegmentDisplay)
    requires |s| == MaxLength && IsPartition(s, segs) && CutsFollowDraws(s, rng, segs)
    requires forall i :: 0 <= i < |rng| ==> rng[i] == 0
    requires IsPadding(g, segs[|segs| - 1])
    ensures |segs| == 11 && |segs[|segs| - 1]| == 12
    ensures |g.digits| == 12 && Decoys(g.digits) == []
  {
    ZeroDrawsLeaveLongestTail(s, rng, segs);
    OversizedSegmentShownBare(g, segs[|segs| - 1]);
  }

  /**
   * The field holds a digit string of value at most 32; a secret, once made,
   * has 6 to 32 digits and the segments cut it; the index stays within the
   * segments; and the display shows only groups of those segments.
   */
  predicate SessionInvariant(st: Snapshot) {
    IsDigits(st.digits) && (st.digits != [] ==> DecimalValue(st.digits) <= MaxLength)
    && 0 <= st.currentPartIndex <= |st.segments|
    && (st.randomNumber.None? ==> st.segments == [])
    && (st.randomNumber.Some? ==>
          IsSecret(st.randomNumber.value) && MinLength <= |st.randomNumber.value| <= MaxLength
          && IsPartition(st.randomNumber.value, st.segments))
    && ShowsRevealed(st.displayedParts, st.segments, st.currentPartIndex)
  }

  /** Putting '6' into the field keeps the invariant. */
  lemma DefaultField(st: Snapshot)
    requires SessionInvariant(st)
    ensures SessionInvariant(st.(digits := "6"))
  {
    assert "6"[..0] == [];
  }

  /** Every segment of a fresh cut of the secret shown at once keeps the invariant. */
  lemma AllRevealed(st: Snapshot, segs: seq<string>, parts: seq<SegmentDisplay>)
    requires SessionInvariant(st) && st.randomNumber.Some?
    requires IsPartition(st.randomNumber.value, segs) && AllPadded(parts, segs)
    ensures SessionInvariant(st.(segments := segs, displayedParts := parts, currentPartIndex := |segs|,
                                  showingCompleted := true, showAll := true))
  {
  }

  /** `if (randomNumber)`: a secret is present (null and '' are falsy). */
  predicate HasSecret(st: Snapshot) {
    st.randomNumber.Some? && st.randomNumber.value != []
  }

  /** `!digits || parseInt(digits) < 6`: the guard of `generateNumber`. */
  predicate FieldTooSmall(st: Snapshot)
    requires IsDigits(st.digits)
  {
    st.digits == [] || DecimalValue(st.digits) < MinLength
  }

  /**
   * `generateNumber` on the draws `rng`: the guard resets the field to '6';
   * otherwise a secret of the field's length is drawn, the remaining draws cut
   * it, and the reveal starts over.  `None` means the draws ran out.
   */
  function AfterGenerate(st: Snapshot, rng: seq<nat>): Option<Snapshot>
    requires IsDigits(st.digits)
  {
    if FieldTooSmall(st) then Some(st.(digits := "6"))
    else
      var g := Generated(DecimalValue(st.digits), rng);
      if g.None? then None
      else
        var c := Cut(g.value.0, rng[g.value.2..]);
        if c.None? then None
        else Some(st.(randomNumber := Some(g.value.0), segments := c.value.0, displayedParts := [],
                      currentPartIndex := 0, showingCompleted := false, showAll := false))
  }

  /** `resetDisplay` on the draws `rng`: the display cleared and, with a secret, a fresh cut of it. */
  function AfterReset(st: Snapshot, rng: seq<nat>): Option<Snapshot> {
    var cleared := st.(displayedParts := [], currentPartIndex := 0, showingCompleted := false, showAll := false);
    if !HasSecret(st) then Some(cleared)
    else
      var c := Cut(st.randomNumber.value, rng);
      if c.None? then None else Some(cleared.(segments := c.value.0))
  }

  /**
   * `showNextPart` on the draws `rng`: past the last segment nothing changes;
   * otherwise the display becomes the current segment padded, the index moves
   * on, and the last segment marks the session completed.
   */
  function AfterNext(st: Snapshot, rng: seq<nat>): (r: Option<Snapshot>)
    requires 0 <= st.currentPartIndex
    ensures r.Some? ==> st.currentPartIndex <= r.value.currentPartIndex
  {
    var k := st.currentPartIndex;
    if k >= |st.segments| then Some(st)
    else
      var p := Padded(st.segments[k], rng);
      if p.None? then None
      else Some(st.(displayedParts := [p.value.0], currentPartIndex := k + 1,
                    showingCompleted := st.showingCompleted || k == |st.segments| - 1))
  }

  /**
   * `showAllSegments` on the draws `rng`: without a secret nothing changes;
   * otherwise the secret is cut anew and every segment is shown padded.
   */
  function AfterShowAll(st: Snapshot, rng: seq<nat>): Option<Snapshot> {
    if !HasSecret(st) then Some(st)
    else
      var c := Cut(st.randomNumber.value, rng);
      if c.None? then None
      else
        var p := PaddedAll(c.value.0, rng[c.value.1..]);
        if p.None? then None
        else Some(st.(segments := c.value.0, displayedParts := p.value.0, currentPartIndex := |c.value.0|,
                      showingCompleted := true, showAll := true))
  }

  /**
   * What `generateNumber` promises.  Past the guard it fails exactly when the
   * draws run out for the secret, or fewer than `TargetGroups - 1` draws are
   * left for its cut; otherwise the secret is the drawn one, has the field's
   * length, and is cut by the draws that follow, with the reveal at its start.
   */
  lemma GenerateOutcome(st: Snapshot, rng: seq<nat>)
    requires SessionInvariant(st)
    ensures FieldTooSmall(st) ==> AfterGenerate(st, rng) == Some(st.(digits := "6"))
    ensures !FieldTooSmall(st) ==>
      var n := DecimalValue(st.digits);
      (AfterGenerate(st, rng).Some? <==>
         Generated(n, rng).Some? && |rng| - Generated(n, rng).value.2 >= TargetGroups(n) - 1)
    ensures !FieldTooSmall(st) && AfterGenerate(st, rng).Some? ==>
      var n := DecimalValue(st.digits);
      var (s, _, u) := Generated(n, rng).value;
      var after := AfterGenerate(st, rng).value;
      after.digits == st.digits && after.randomNumber == Some(s) && |s| == n && IsSecret(s)
      && IsPartition(s, after.segments) && CutsFollowDraws(s, rng[u..], after.segments)
      && after.displayedParts == [] && after.currentPartIndex == 0 && !after.showingCompleted && !after.showAll
  {
    if !FieldTooSmall(st) {
      var n := DecimalValue(st.digits);
      if Generated(n, rng).Some? {
        GeneratedIsSecret(n, rng);
        var (s, _, u) := Generated(n, rng).value;
        CutIsPartition(s, rng[u..]);
      }
    }
  }

  /** `generateNumber` keeps the invariant. */
  lemma GenerateKeepsInvariant(st: Snapshot, rng: seq<nat>)
    requires SessionInvariant(st)
    ensures AfterGenerate(st, rng).Some? ==> SessionInvariant(AfterGenerate(st, rng).value)
  {
    GenerateOutcome(st, rng);
    if FieldTooSmall(st) {
      DefaultField(st);
    }
  }

  /**
   * What `resetDisplay` promises: it fails exactly when a secret is present
   * and fewer than `TargetGroups - 1` draws are left for its cut; otherwise
   * the display, the index and both flags are cleared, and a present secret
   * is cut anew by the draws.
   */
  lemma ResetOutcome(st: Snapshot, rng: seq<nat>)
    requires SessionInvariant(st)
    ensures AfterReset(st, rng).Some? <==>
      !(HasSecret(st) && |rng| < TargetGroups(|st.randomNumber.value|) - 1)
    ensures AfterReset(st, rng).Some? ==>
      var after := AfterReset(st, rng).value;
      after.digits == st.digits && after.randomNumber == st.randomNumber
      && after.displayedParts == [] && after.currentPartIndex == 0 && !after.showingCompleted && !after.showAll
      && (if HasSecret(st) then
            IsPartition(st.randomNumber.value, after.segments)
            && CutsFollowDraws(st.randomNumber.value, rng, after.segments)
          else after.segments == st.segments)
      && SessionInvariant(after)
  {
    if HasSecret(st) {
      CutIsPartition(st.randomNumber.value, rng);
    }
  }

  /**
   * What `showNextPart` promises: past the last segment nothing changes;
   * otherwise it fails exactly when the draws run out for padding the current
   * segment (never for a segment of `Width` or more digits), and it shows that
   * segment padded, alone, moves the index on and marks the last one completed.
   */
  lemma NextOutcome(st: Snapshot, rng: seq<nat>)
    requires SessionInvariant(st)
    ensures st.currentPartIndex >= |st.segments| ==> AfterNext(st, rng) == Some(st)
    ensures st.currentPartIndex < |st.segments| ==>
      var seg := st.segments[st.currentPartIndex];
      (AfterNext(st, rng).Some? <==> DrawsSuffice(seg, rng))
      && (|seg| >= Width ==> AfterNext(st, rng).Some?)
    ensures st.currentPartIndex < |st.segments| && AfterNext(st, rng).Some? ==>
      var k := st.currentPartIndex;
      var after := AfterNext(st, rng).value;
      |after.displayedParts| == 1 && IsPadding(after.displayedParts[0], st.segments[k])
      && after.currentPartIndex == k + 1
      && after.showingCompleted == (st.showingCompleted || k == |st.segments| - 1)
      && after == st.(displayedParts := after.displayedParts, currentPartIndex := k + 1,
                      showingCompleted := after.showingCompleted)
      && SessionInvariant(after)
  {
    var k := st.currentPartIndex;
    if k < |st.segments| {
      var seg := st.segments[k];
      PaddedSucceeds(seg, rng);
      if |seg| >= Width {
        PaddedOversized(seg, rng);
      }
      if Padded(seg, rng).Some? {
        var g := Padded(seg, rng).value.0;
        PaddedIsPadding(seg, rng);
        OneRevealed(st, g, st.showingCompleted || k == |st.segments| - 1);
      }
    }
  }

  /** Showing one padded segment alone, with the index past it, keeps the invariant. */
  lemma OneRevealed(st: Snapshot, g: SegmentDisplay, completed: bool)
    requires SessionInvariant(st) && st.currentPartIndex < |st.segments|
    requires IsPadding(g, st.segments[st.currentPartIndex])
    ensures SessionInvariant(st.(displayedParts := [g], currentPartIndex := st.currentPartIndex + 1,
                                  showingCompleted := completed))
  {
  }

  /**
   * What `showAllSegments` promises: without a secret nothing changes;
   * otherwise it fails exactly when fewer than `TargetGroups - 1` draws are
   * left for the cut or the rest run out while padding; and it shows every
   * segment of the new cut padded, as many real digits as the secret has.
   */
  lemma ShowAllOutcome(st: Snapshot, rng: seq<nat>)
    requires SessionInvariant(st)
    ensures !HasSecret(st) ==> AfterShowAll(st, rng) == Some(st)
    ensures HasSecret(st) ==>
      var s := st.randomNumber.value;
      var t := TargetGroups(|s|) - 1;
      (AfterShowAll(st, rng).Some? <==>
         |rng| >= t && Cut(s, rng).Some? && PaddedAll(Cut(s, rng).value.0, rng[t..]).Some?)
    ensures HasSecret(st) && AfterShowAll(st, rng).Some? ==>
      var s := st.randomNumber.value;
      var after := AfterShowAll(st, rng).value;
      after.digits == st.digits && after.randomNumber == st.randomNumber
      && IsPartition(s, after.segments) && CutsFollowDraws(s, rng, after.segments)
      && AllPadded(after.displayedParts, after.segments)
      && TotalRealLength(after.displayedParts) == |s|
      && after.currentPartIndex == |after.segments| && after.showingCompleted && after.showAll
      && SessionInvariant(after)
  {
    if HasSecret(st) {
      var s := st.randomNumber.value;
      CutIsPartition(s, rng);
      var c := Cut(s, rng);
      if c.Some? {
        var p := PaddedAll(c.value.0, rng[c.value.1..]);
        if p.Some? {
          ShowAllEffects(st, rng, c.value.0, c.value.1, p.value.0, p.value.1);
        }
      }
    }
  }

  /** The state `showAllSegments` commits, from the cut and the map it made. */
  lemma ShowAllEffects(st: Snapshot, rng: seq<nat>, segs: seq<string>, used: nat,
                       parts: seq<SegmentDisplay>, end: nat)
    requires SessionInvariant(st) && HasSecret(st)
    requires Cut(st.randomNumber.value, rng) == Some((segs, used)) && used <= |rng|
    requires PaddedAll(segs, rng[used..]) == Some((parts, end))
    ensures IsPartition(st.randomNumber.value, segs) && CutsFollowDraws(st.randomNumber.value, rng, segs)
    ensures AllPadded(parts, segs) && TotalRealLength(parts) == |st.randomNumber.value|
    ensures AfterShowAll(st, rng) == Some(st.(segments := segs, displayedParts := parts, currentPartIndex := |segs|,
                                              showingCompleted := true, showAll := true))
    ensures SessionInvariant(st.(segments := segs, displayedParts := parts, currentPartIndex := |segs|,
                                  showingCompleted := true, showAll := true))
  {
    CutIsPartition(st.randomNumber.value, rng);
    PaddedAllPads(segs, rng[used..]);
    TotalRealLengthIsConcatLength(parts, segs);
    AllRevealed(st, segs, parts);
  }

  /**
   * Clicking "next" once per entry of `draws`, from entry `i` on, until a click
   * runs out of draws: the state reached and the number of clicks made.
   */
  function Clicks(st: Snapshot, draws: seq<seq<nat>>, i: nat): (Snapshot, nat)
    requires 0 <= st.currentPartIndex
    decreases |draws| - i
  {
    if i >= |draws| then (st, i)
    else
      var n := AfterNext(st, draws[i]);
      if n.None? then (st, i) else Clicks(n.value, draws, i + 1)
  }

  /** The display holds the group click `index` made of the segment before `index`. */
  predicate ShowsClick(st: Snapshot, draws: seq<seq<nat>>)
    requires 0 <= st.currentPartIndex <= |st.segments|
  {
    var k := st.currentPartIndex;
    1 <= k ==>
      k <= |draws| && Padded(st.segments[k - 1], draws[k - 1]).Some?
      && st.displayedParts == [Padded(st.segments[k - 1], draws[k - 1]).value.0]
  }

  /** What `i` clicks of "next" from the start leave, as far as the next click needs. */
  predicate Clicked(st: Snapshot, draws: seq<seq<nat>>, i: nat) {
    SessionInvariant(st) && i <= |draws|
    && st.currentPartIndex == Min(i, |st.segments|) && ShowsClick(st, draws)
    && (st.showingCompleted <==> 0 < |st.segments| <= i)
  }

  /** A click that finds its draws keeps `Clicked` and changes neither the segments nor the secret. */
  lemma ClickStep(st: Snapshot, draws: seq<seq<nat>>, i: nat)
    requires Clicked(st, draws, i) && i < |draws| && AfterNext(st, draws[i]).Some?
    ensures Clicked(AfterNext(st, draws[i]).value, draws, i + 1)
    ensures var after := AfterNext(st, draws[i]).value;
      after.segments == st.segments && after.randomNumber == st.randomNumber && after.digits == st.digits
  {
    var k := st.currentPartIndex;
    if k < |st.segments| {
      var seg := st.segments[k];
      var g := Padded(seg, draws[i]).value.0;
      ClickedAfterReveal(st, draws, i, g);
      assert AfterNext(st, draws[i]).value
        == st.(displayedParts := [g], currentPartIndex := k + 1, showingCompleted := k == |st.segments| - 1);
    } else {
      assert AfterNext(st, draws[i]).value == st;
    }
  }

  /** The state a revealing click leaves is one more click from the start. */
  lemma ClickedAfterReveal(st: Snapshot, draws: seq<seq<nat>>, i: nat, g: SegmentDisplay)
    requires Clicked(st, draws, i) && i < |draws| && st.currentPartIndex < |st.segments|
    requires Padded(st.segments[st.currentPartIndex], draws[i]).Some?
    requires g == Padded(st.segments[st.currentPartIndex], draws[i]).value.0
    ensures Clicked(st.(displayedParts := [g], currentPartIndex := st.currentPartIndex + 1,
                        showingCompleted := st.currentPartIndex == |st.segments| - 1), draws, i + 1)
  {
    PaddedIsPadding(st.segments[st.currentPartIndex], draws[i]);
    OneRevealed(st, g, st.currentPartIndex == |st.segments| - 1);
  }

  /** A click that runs out of draws was padding a segment that is still to show. */
  lemma ClickStops(st: Snapshot, draws: seq<seq<nat>>, i: nat)
    requires Clicked(st, draws, i) && i < |draws| && AfterNext(st, draws[i]).None?
    ensures st.currentPartIndex < |st.segments| && Padded(st.segments[st.currentPartIndex], draws[i]).None?
  {
  }

  /**
   * Clicking "next" from a state reached by `i` clicks from the start: the
   * segments and the secret stay; after `n` clicks the index is
   * `min(n, |segments|)` and the display holds the group made by the click
   * of the segment before it; the session is completed exactly when `n`
   * reaches the segment count; and clicking stops early only when padding
   * the current segment runs out of draws.
   */
  lemma {:induction false} ClicksReveal(st: Snapshot, draws: seq<seq<nat>>, i: nat)
    requires Clicked(st, draws, i)
    ensures var (fin, n) := Clicks(st, draws, i);
      i <= n <= |draws| && Clicked(fin, draws, n)
      && fin.segments == st.segments && fin.randomNumber == st.randomNumber && fin.digits == st.digits
      && (n < |draws| ==> fin.currentPartIndex < |fin.segments|
                          && Padded(fin.segments[fin.currentPartIndex], draws[n]).None?)
    decreases |draws| - i
  {
    if i < |draws| && AfterNext(st, draws[i]).Some? {
      var next := AfterNext(st, draws[i]).value;
      ClickStep(st, draws, i);
      ClicksReveal(next, draws, i + 1);
      assert Clicks(st, draws, i) == Clicks(next, draws, i + 1);
    } else if i < |draws| {
      ClickStops(st, draws, i);
      assert Clicks(st, draws, i) == (st, i);
    }
  }
}
