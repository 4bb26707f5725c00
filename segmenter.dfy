/**
 * The segmenter: cuts a secret into `TargetGroups(|s|)` contiguous pieces.
 * Every piece cut inside the loop takes one draw and has 2 to 4 digits, and
 * the size is capped so that each group still to come can get 2 digits; the
 * final piece takes whatever is left.
 */
module Segmenter {
  import opened Wrappers
  import opened Digits

  const MinSize := 2
  const MaxSize := 4

  /** `max(2, floor(n / 3) + 1)`; four digits per group always cover n. */
  function TargetGroups(n: nat): (t: nat)
    ensures t >= 2
    ensures MaxSize * t > n
  {
    Max(2, n / 3 + 1)
  }

  /** `s.slice(0, max)` when `s` is longer than `max`, otherwise `s`. */
  function Truncate(s: string, max: nat): (r: string)
    ensures |r| == Min(|s|, max) && r <= s
  {
    if |s| > max then s[..max] else s
  }

  /** The largest piece the loop may cut when `remainingGroups` groups must still follow. */
  function MaxAllowed(remainingLength: int, remainingGroups: int): int {
    Min(MaxSize, remainingLength - remainingGroups * MinSize)
  }

  /** The segments joined back together, in order. */
  function Concat(segs: seq<string>): string {
    if segs == [] then [] else Concat(segs[..|segs| - 1]) + segs[|segs| - 1]
  }

  lemma ConcatAppend(segs: seq<string>, x: string)
    ensures Concat(segs + [x]) == Concat(segs) + x
  {
    assert (segs + [x])[..|segs|] == segs;
  }

  /**
   * What the segmenter promises of its result: the pieces spell `s`, every
   * piece is non-empty, every piece but the last has 2 to 4 digits, there are
   * at most `TargetGroups(|s|)` of them, and from 4 digits on exactly that many
   * with a last piece of at least 2 digits.  Up to 3 digits stay one piece.
   */
  predicate IsPartition(s: string, segs: seq<string>) {
    Concat(segs) == s
    && (forall i :: 0 <= i < |segs| ==> |segs[i]| > 0)
    && (forall i :: 0 <= i < |segs| - 1 ==> MinSize <= |segs[i]| <= MaxSize)
    && |segs| <= TargetGroups(|s|)
    && (|s| >= 4 ==> |segs| == TargetGroups(|s|) && |segs[|segs| - 1]| >= MinSize)
    && (1 <= |s| <= 3 ==> segs == [s])
  }

  /** The i-th piece was cut with the i-th draw from what was left of `s` at that point. */
  predicate CutFollowsDraw(s: string, rng: seq<nat>, segs: seq<string>, i: int)
    requires 0 <= i < |segs|
  {
    var before := |Concat(segs[..i])|;
    var maxAllowed := MaxAllowed(|s| - before, TargetGroups(|s|) - i - 1);
    i < |rng| && maxAllowed >= MinSize && |segs[i]| == MinSize + rng[i] % (maxAllowed - MinSize + 1)
  }

  predicate CutsFollowDraws(s: string, rng: seq<nat>, segs: seq<string>) {
    forall i :: 0 <= i < |segs| - 1 ==> CutFollowsDraw(s, rng, segs, i)
  }

  lemma CutsExtend(s: string, rng: seq<nat>, segs: seq<string>, x: string)
    requires forall j :: 0 <= j < |segs| ==> CutFollowsDraw(s, rng, segs, j)
    ensures forall j :: 0 <= j < |segs| ==> CutFollowsDraw(s, rng, segs + [x], j)
  {
    forall j | 0 <= j < |segs|
      ensures CutFollowsDraw(s, rng, segs + [x], j)
    {
      assert CutFollowsDraw(s, rng, segs, j);
      assert (segs + [x])[..j] == segs[..j];
      assert (segs + [x])[j] == segs[j];
    }
  }

  /** From 4 digits on, the first cut keeps 2 digits for every group. */
  lemma EnoughForEveryGroup(n: nat)
    requires n >= 4
    ensures n >= MinSize * TargetGroups(n)
  {
  }

  /** While 2 digits remain for every group, the loop never takes its early exit. */
  lemma RoomForACut(remaining: nat, targetGroups: nat, i: nat)
    requires i < targetGroups - 1 && remaining >= MinSize * (targetGroups - i)
    ensures MinSize <= MaxAllowed(remaining, targetGroups - i - 1)
    ensures remaining - MaxAllowed(remaining, targetGroups - i - 1) >= MinSize * (targetGroups - i - 1)
  {
  }

  /** A secret of 1 to 3 digits takes the early exit on the first iteration. */
  lemma ShortSecretNoRoom(n: nat)
    requires 1 <= n <= 3
    ensures TargetGroups(n) == 2 && MaxAllowed(n, 1) < MinSize
  {
  }

  /** Appending the piece cut with draw `rng[i]` records that cut. */
  lemma NewCut(s: string, rng: seq<nat>, segs: seq<string>, piece: string, maxAllowed: int)
    requires |segs| < |rng| && |Concat(segs)| <= |s|
    requires maxAllowed == MaxAllowed(|s| - |Concat(segs)|, TargetGroups(|s|) - |segs| - 1) >= MinSize
    requires |piece| == MinSize + rng[|segs|] % (maxAllowed - MinSize + 1)
    ensures CutFollowsDraw(s, rng, segs + [piece], |segs|)
  {
    assert (segs + [piece])[..|segs|] == segs;
  }

  /** A secret of 1 to 3 digits as one piece meets the segmenter's promise. */
  lemma SinglePiece(s: string, rng: seq<nat>)
    requires 1 <= |s| <= 3
    ensures IsPartition(s, [s]) && CutsFollowDraws(s, rng, [s])
  {
    assert [s][..0] == [];
  }

  /** When the loop has made `TargetGroups - 1` cuts (or none of an empty secret), the rest closes the cut. */
  lemma LastPiece(s: string, rng: seq<nat>, segs: seq<string>, rest: string)
    requires CutSoFar(s, rng, segs, rest) && |rest| > 0
    requires |s| >= 4 && |segs| == TargetGroups(|s|) - 1 && |rest| >= MinSize
    ensures IsPartition(s, segs + [rest]) && CutsFollowDraws(s, rng, segs + [rest])
  {
    ConcatAppend(segs, rest);
    CutsExtend(s, rng, segs, rest);
  }

  /** What the loop knows after cutting `segs` off the front of `s`, with `rest` left over. */
  predicate CutSoFar(s: string, rng: seq<nat>, segs: seq<string>, rest: string) {
    Concat(segs) + rest == s
    && (forall j :: 0 <= j < |segs| ==> MinSize <= |segs[j]| <= MaxSize)
    && (forall j :: 0 <= j < |segs| ==> CutFollowsDraw(s, rng, segs, j))
  }

  /** One iteration of the loop: cutting `size` digits drawn with `rng[|segs|]` keeps `CutSoFar`. */
  lemma CutStep(s: string, rng: seq<nat>, segs: seq<string>, rest: string, maxAllowed: int, size: nat)
    requires CutSoFar(s, rng, segs, rest) && |segs| < |rng|
    requires maxAllowed == MaxAllowed(|rest|, TargetGroups(|s|) - |segs| - 1) >= MinSize
    requires size == rng[|segs|] % (maxAllowed - MinSize + 1) + MinSize
    requires size <= |rest|
    ensures CutSoFar(s, rng, segs + [rest[..size]], rest[size..])
  {
    var piece := rest[..size];
    assert rest == piece + rest[size..];
    ConcatAppend(segs, piece);
    CutsExtend(s, rng, segs, piece);
    NewCut(s, rng, segs, piece, maxAllowed);
  }

  /**
   * The loop of `generateRandomSegments` from iteration `i` on, with `rest`
   * still to cut: the pieces it pushes (the last one included) and the
   * position after the last draw used.
   */
  function Pieces(rng: seq<nat>, rest: string, i: nat, targetGroups: nat): (r: Option<(seq<string>, nat)>)
    ensures r.Some? ==> i <= r.value.1 <= Max(i, |rng|)
    decreases targetGroups - i
  {
    if i + 1 >= targetGroups || rest == [] then Some((if rest == [] then [] else [rest], i))
    else
      var maxAllowed := MaxAllowed(|rest|, targetGroups - i - 1);
      if maxAllowed < MinSize then Some(([rest], i))
      else if i >= |rng| then None
      else
        var size := rng[i] % (maxAllowed - MinSize + 1) + MinSize;
        JoinPieces([rest[..size]], Pieces(rng, rest[size..], i + 1, targetGroups))
  }

  /** `generateRandomSegments(s)` on the draws `rng`: the pieces and the number of draws used. */
  function Cut(s: string, rng: seq<nat>): (r: Option<(seq<string>, nat)>)
    ensures r.Some? ==> r.value.1 <= |rng|
  {
    Pieces(rng, Truncate(s, MaxSize * TargetGroups(|s|)), 0, TargetGroups(|s|))
  }

  /** `prefix` put in front of the pieces the rest of the loop pushes. */
  function JoinPieces(prefix: seq<string>, rest: Option<(seq<string>, nat)>): Option<(seq<string>, nat)> {
    if rest.None? then None else Some((prefix + rest.value.0, rest.value.1))
  }

  lemma JoinPiecesJoin(p: seq<string>, q: seq<string>, r: Option<(seq<string>, nat)>)
    ensures JoinPieces(p, JoinPieces(q, r)) == JoinPieces(p + q, r)
  {
    if r.Some? {
      var (x, end) := r.value;
      assert p + (q + x) == (p + q) + x;
    }
  }

  lemma JoinNoPieces(r: Option<(seq<string>, nat)>)
    ensures JoinPieces([], r) == r
  {
    if r.Some? {
      assert [] + r.value.0 == r.value.0;
    }
  }

  /** The loop ends, by its condition or by the early exit, with `rest` as the last piece. */
  lemma PiecesEnd(rng: seq<nat>, rest: string, i: nat, targetGroups: nat, segs: seq<string>)
    requires i + 1 >= targetGroups || rest == [] || MaxAllowed(|rest|, targetGroups - i - 1) < MinSize
    ensures JoinPieces(segs, Pieces(rng, rest, i, targetGroups))
      == Some((segs + (if rest == [] then [] else [rest]), i))
  {
    assert segs + [] == segs;
  }

  /** One cut of the loop, seen from the pieces already pushed. */
  lemma PiecesStep(rng: seq<nat>, rest: string, i: nat, targetGroups: nat, segs: seq<string>, maxAllowed: int, size: int)
    requires i + 1 < targetGroups && rest != [] && i < |rng|
    requires maxAllowed == MaxAllowed(|rest|, targetGroups - i - 1) >= MinSize
    requires size == rng[i] % (maxAllowed - MinSize + 1) + MinSize
    ensures 0 <= size <= |rest|
    ensures JoinPieces(segs, Pieces(rng, rest, i, targetGroups))
      == JoinPieces(segs + [rest[..size]], Pieces(rng, rest[size..], i + 1, targetGroups))
  {
    JoinPiecesJoin(segs, [rest[..size]], Pieces(rng, rest[size..], i + 1, targetGroups));
  }

  /**
   * The rest of the loop, from a state the loop can reach, completes the cut:
   * it fails exactly when a secret of 4 or more digits has fewer draws than
   * cuts, and otherwise the pieces spell `s`, follow the draws and took one
   * draw per cut.
   */
  lemma {:induction false} PiecesArePartition(s: string, rng: seq<nat>, segs: seq<string>, rest: string, i: nat)
    requires i + 1 <= TargetGroups(|s|) && |segs| == i && i <= |rng|
    requires CutSoFar(s, rng, segs, rest)
    requires |s| >= 4 ==> |rest| >= MinSize * (TargetGroups(|s|) - i)
    requires |s| <= 3 ==> i == 0
    ensures CutCompletes(s, rng, segs, Pieces(rng, rest, i, TargetGroups(|s|)))
    decreases TargetGroups(|s|) - i
  {
    var t := TargetGroups(|s|);
    if i + 1 >= t || rest == [] {
      if rest != [] {
        LastPiece(s, rng, segs, rest);
      } else {
        assert segs + [] == segs;
        assert Concat(segs) == s;
      }
    } else {
      var maxAllowed := MaxAllowed(|rest|, t - i - 1);
      if |s| >= 4 {
        RoomForACut(|rest|, t, i);
      } else {
        ShortSecretNoRoom(|s|);
      }
      if maxAllowed < MinSize {
        assert segs == [] && rest == s;
        SinglePiece(s, rng);
      } else if i < |rng| {
        var size := rng[i] % (maxAllowed - MinSize + 1) + MinSize;
        PiecesStep(rng, rest, i, t, segs, maxAllowed, size);
        CutStep(s, rng, segs, rest, maxAllowed, size);
        PiecesArePartition(s, rng, segs + [rest[..size]], rest[size..], i + 1);
        assert Pieces(rng, rest, i, t) == JoinPieces([rest[..size]], Pieces(rng, rest[size..], i + 1, t));
        CompletesJoin(s, rng, segs, rest[..size], Pieces(rng, rest[size..], i + 1, t));
      }
    }
  }

  /**
   * The rest of the cut, as the loop finishes it after `segs`: it fails
   * exactly when a secret of 4 or more digits has fewer draws than cuts, and
   * otherwise the pieces spell `s`, follow the draws and took one draw per cut.
   */
  predicate CutCompletes(s: string, rng: seq<nat>, segs: seq<string>, r: Option<(seq<string>, nat)>) {
    (r.Some? <==> !(|s| >= 4 && |rng| < TargetGroups(|s|) - 1))
    && (r.Some? ==>
          IsPartition(s, segs + r.value.0) && CutsFollowDraws(s, rng, segs + r.value.0)
          && r.value.1 == if |s| >= 4 then TargetGroups(|s|) - 1 else 0)
  }

  /** Moving a piece from the pushed ones to the front of the rest keeps `CutCompletes`. */
  lemma CompletesJoin(s: string, rng: seq<nat>, segs: seq<string>, piece: string, r: Option<(seq<string>, nat)>)
    requires CutCompletes(s, rng, segs + [piece], r)
    ensures CutCompletes(s, rng, segs, JoinPieces([piece], r))
  {
    if r.Some? {
      assert segs + ([piece] + r.value.0) == segs + [piece] + r.value.0;
    }
  }

  /**
   * What `generateRandomSegments(s)` promises: it fails exactly when a secret
   * of 4 or more digits gets fewer draws than the `TargetGroups - 1` cuts it
   * needs; otherwise its pieces are a partition of `s` cut by the draws, one
   * draw per cut.
   */
  lemma CutIsPartition(s: string, rng: seq<nat>)
    ensures Cut(s, rng).Some? <==> !(|s| >= 4 && |rng| < TargetGroups(|s|) - 1)
    ensures Cut(s, rng).Some? ==>
      IsPartition(s, Cut(s, rng).value.0) && CutsFollowDraws(s, rng, Cut(s, rng).value.0)
      && Cut(s, rng).value.1 == if |s| >= 4 then TargetGroups(|s|) - 1 else 0
  {
    assert Truncate(s, MaxSize * TargetGroups(|s|)) == s;
    if |s| >= 4 {
      EnoughForEveryGroup(|s|);
    }
    assert Concat([]) + s == s;
    PiecesArePartition(s, rng, [], s, 0);
    if Cut(s, rng).Some? {
      assert [] + Cut(s, rng).value.0 == Cut(s, rng).value.0;
    }
  }

  /** What a result that agrees with `Cut` promises, as `CutIsPartition` states it. */
  lemma CutOutcome(s: string, rng: seq<nat>, res: Option<seq<string>>, used: nat)
    requires Cut(s, rng) == if res.Some? then Some((res.value, used)) else None
    ensures res.None? <==> |s| >= 4 && |rng| < TargetGroups(|s|) - 1
    ensures res.Some? ==> IsPartition(s, res.value) && CutsFollowDraws(s, rng, res.value)
    ensures res.Some? ==> used == if |s| >= 4 then TargetGroups(|s|) - 1 else 0
  {
    CutIsPartition(s, rng);
  }

  /**
   * `generateRandomSegments(number)`.  `None` means the draws ran out; that
   * happens exactly when a secret of 4 or more digits gets fewer draws than the
   * `TargetGroups - 1` cuts it needs.
   */
  method GenerateRandomSegments(number: string, rng: seq<nat>) returns (res: Option<seq<string>>, used: nat)
    ensures used <= |rng|
    ensures res.None? <==> |number| >= 4 && |rng| < TargetGroups(|number|) - 1
    ensures res.Some? ==> IsPartition(number, res.value) && CutsFollowDraws(number, rng, res.value)
    ensures res.Some? ==> used == if |number| >= 4 then TargetGroups(|number|) - 1 else 0
    ensures Cut(number, rng) == if res.Some? then Some((res.value, used)) else None
  {
    var targetGroups := TargetGroups(|number|);
    var segments: seq<string> := [];
    var maxDigits := targetGroups * MaxSize;
    var remainingDigits := Truncate(number, maxDigits);
    var i := 0;
    JoinNoPieces(Cut(number, rng));
    while i < targetGroups - 1 && |remainingDigits| > 0
      invariant 0 <= i <= targetGroups - 1 && i <= |rng|
      invariant Cut(number, rng) == JoinPieces(segments, Pieces(rng, remainingDigits, i, targetGroups))
    {
      var remainingGroups := targetGroups - i - 1;
      var maxAllowed := MaxAllowed(|remainingDigits|, remainingGroups);
      if maxAllowed < MinSize {
        PiecesEnd(rng, remainingDigits, i, targetGroups, segments);
        segments := segments + [remainingDigits];
        res, used := Some(segments), i;
        CutOutcome(number, rng, res, used);
        return;
      }
      if i >= |rng| {
        res, used := None, i;
        CutOutcome(number, rng, res, used);
        return;
      }
      var size := rng[i] % (maxAllowed - MinSize + 1) + MinSize;
      PiecesStep(rng, remainingDigits, i, targetGroups, segments, maxAllowed, size);
      segments := segments + [remainingDigits[..size]];
      remainingDigits := remainingDigits[size..];
      i := i + 1;
    }
    PiecesEnd(rng, remainingDigits, i, targetGroups, segments);
    if |remainingDigits| > 0 {
      segments := segments + [remainingDigits];
    } else {
      assert segments + [] == segments;
    }
    res, used := Some(segments), i;
    CutOutcome(number, rng, res, used);
  }

  /** The first k pieces, each of at least `MinSize` digits, hold at least `MinSize * k` digits. */
  lemma {:induction false} PrefixLength(segs: seq<string>, k: nat)
    requires k <= |segs|
    requires forall j :: 0 <= j < k ==> |segs[j]| >= MinSize
    ensures |Concat(segs[..k])| >= MinSize * k
    ensures (forall j :: 0 <= j < k ==> |segs[j]| == MinSize) ==> |Concat(segs[..k])| == MinSize * k
  {
    if k > 0 {
      assert segs[..k][..k - 1] == segs[..k - 1];
      PrefixLength(segs, k - 1);
    }
  }

  /** From 4 digits on, the last piece has between 2 and `|s| - 2 * (TargetGroups - 1)` digits. */
  lemma LastPieceBounds(s: string, segs: seq<string>)
    requires |s| >= 4 && IsPartition(s, segs)
    ensures MinSize <= |segs[|segs| - 1]| <= |s| - MinSize * (TargetGroups(|s|) - 1)
  {
    var k := |segs| - 1;
    assert segs[..k + 1] == segs;
    PrefixLength(segs, k);
  }

  /**
   * When every draw is 0 every cut takes 2 digits, so the last piece gets the
   * largest possible share: `|s| - 2 * (TargetGroups - 1)` digits.
   */
  lemma ZeroDrawsLeaveLongestTail(s: string, rng: seq<nat>, segs: seq<string>)
    requires |s| >= 4 && IsPartition(s, segs) && CutsFollowDraws(s, rng, segs)
    requires forall i :: 0 <= i < |rng| ==> rng[i] == 0
    ensures |segs[|segs| - 1]| == |s| - MinSize * (TargetGroups(|s|) - 1)
  {
    var k := |segs| - 1;
    forall j | 0 <= j < k
      ensures |segs[j]| == MinSize
    {
      assert CutFollowsDraw(s, rng, segs, j);
    }
    assert segs[..k + 1] == segs;
    PrefixLength(segs, k);
  }
}
