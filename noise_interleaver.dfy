/**
 * The noise padder: a segment is shown as a row of `Width` tagged digits, its
 * own digits (tagged real, in order) with decoy digits spliced in at drawn
 * slots.  A decoy never takes a value that occurs in the segment.
 */
module NoiseInterleaver {
  import opened Wrappers
  import opened Digits

  /** Width of one displayed group: real digits plus decoys. */
  const Width := 8

  /** One shown cell: a digit character and whether it belongs to the secret. */
  datatype DigitDisplay = DigitDisplay(value: char, isReal: bool)

  /** One shown group and the number of real digits it carries. */
  datatype SegmentDisplay = SegmentDisplay(digits: seq<DigitDisplay>, realLength: nat)

  /** The values of the real cells, in display order. */
  function Reals(ds: seq<DigitDisplay>): string {
    if ds == [] then [] else (if ds[0].isReal then [ds[0].value] else []) + Reals(ds[1..])
  }

  /** The values of the decoy cells, in display order. */
  function Decoys(ds: seq<DigitDisplay>): string {
    if ds == [] then [] else (if ds[0].isReal then [] else [ds[0].value]) + Decoys(ds[1..])
  }

  /**
   * `g` is a padding of `seg`: `max(Width, |seg|)` cells whose real cells spell
   * `seg` and whose `max(0, Width - |seg|)` decoys are digits absent from `seg`.
   */
  predicate IsPadding(g: SegmentDisplay, seg: string) {
    |g.digits| == Max(Width, |seg|)
    && Reals(g.digits) == seg
    && |Decoys(g.digits)| == Max(0, Width - |seg|)
    && (forall d :: d in g.digits && !d.isReal ==> IsDigit(d.value) && d.value !in seg)
    && g.realLength == |seg|
  }

  lemma {:induction false} RealsAppend(a: seq<DigitDisplay>, b: seq<DigitDisplay>)
    ensures Reals(a + b) == Reals(a) + Reals(b)
  {
    if a == [] {
      assert a + b == b;
    } else {
      var ab := a + b;
      assert ab[0] == a[0] && ab[1..] == a[1..] + b;
      RealsAppend(a[1..], b);
      var head := if a[0].isReal then [a[0].value] else [];
      assert Reals(ab) == head + Reals(a[1..] + b);
      assert Reals(a) == head + Reals(a[1..]);
    }
  }

  lemma {:induction false} DecoysAppend(a: seq<DigitDisplay>, b: seq<DigitDisplay>)
    ensures Decoys(a + b) == Decoys(a) + Decoys(b)
  {
    if a == [] {
      assert a + b == b;
    } else {
      var ab := a + b;
      assert ab[0] == a[0] && ab[1..] == a[1..] + b;
      DecoysAppend(a[1..], b);
      var head := if a[0].isReal then [] else [a[0].value];
      assert Decoys(ab) == head + Decoys(a[1..] + b);
      assert Decoys(a) == head + Decoys(a[1..]);
    }
  }

  /** Splicing a decoy cell in anywhere keeps the real digits and adds one decoy. */
  lemma InsertDecoy(ds: seq<DigitDisplay>, p: nat, x: DigitDisplay)
    requires p <= |ds| && !x.isReal
    ensures Reals(ds[..p] + [x] + ds[p..]) == Reals(ds)
    ensures |Decoys(ds[..p] + [x] + ds[p..])| == |Decoys(ds)| + 1
  {
    assert ds == ds[..p] + ds[p..];
    RealsAppend(ds[..p] + [x], ds[p..]);
    RealsAppend(ds[..p], [x]);
    RealsAppend(ds[..p], ds[p..]);
    DecoysAppend(ds[..p] + [x], ds[p..]);
    DecoysAppend(ds[..p], [x]);
    DecoysAppend(ds[..p], ds[p..]);
  }

  /** A group without decoys consists of real cells only. */
  lemma {:induction false} NoDecoysAllReal(ds: seq<DigitDisplay>)
    requires Decoys(ds) == []
    ensures forall d :: d in ds ==> d.isReal
    ensures Reals(ds) == seq(|ds|, i requires 0 <= i < |ds| => ds[i].value)
  {
    if ds != [] {
      NoDecoysAllReal(ds[1..]);
      assert forall d :: d in ds ==> d == ds[0] || d in ds[1..];
    }
  }

  /** `segment.split('').map(d => ({ value: d, isReal: true }))`. */
  function RealDigits(segment: string): (ds: seq<DigitDisplay>)
    ensures |ds| == |segment|
    ensures Reals(ds) == segment && Decoys(ds) == []
  {
    if segment == [] then []
    else
      var rest := RealDigits(segment[1..]);
      assert ([DigitDisplay(segment[0], true)] + rest)[1..] == rest;
      [DigitDisplay(segment[0], true)] + rest
  }

  /** The distinct characters of `s`. */
  function Distinct(s: string): (r: set<char>)
    ensures |r| <= |s|
    ensures forall c :: c in r <==> c in s
  {
    if s == [] then {} else {s[0]} + Distinct(s[1..])
  }

  /**
   * A string of n characters leaves at least `10 - n` of the ten digits
   * unused, so the redraw loop of `generateNoiseDigits` always has values it
   * accepts when the segment has fewer than 10 digits.
   */
  lemma DecoyValuesAvailable(realDigits: string)
    ensures |AllDigits - Distinct(realDigits)| >= 10 - |realDigits|
    ensures |realDigits| < 10 ==> exists d :: 0 <= d <= 9 && Char(d) !in realDigits
  {
    var used := Distinct(realDigits);
    var free := AllDigits - used;
    AllDigitsCount();
    SplitCardinality(AllDigits, used);
    SubsetCardinality(AllDigits * used, used);
    assert |free| >= 10 - |realDigits|;
    if |realDigits| < 10 {
      assert free != {};
      var c :| c in free;
      DigitOfAllDigits(c);
      assert c !in realDigits;
      var d := Value(c);
      assert 0 <= d <= 9 && Char(d) == c;
    }
  }

  /** The ten digit characters. */
  const AllDigits: set<char> := {'0', '1', '2', '3', '4', '5', '6', '7', '8', '9'}

  lemma DigitOfAllDigits(c: char)
    requires c in AllDigits
    ensures IsDigit(c)
  {
  }

  lemma AllDigitsCount()
    ensures |AllDigits| == 10
  {
  }

  lemma SplitCardinality(a: set<char>, b: set<char>)
    ensures |a| == |a - b| + |a * b|
  {
    assert a == (a - b) + (a * b);
    assert (a - b) * (a * b) == {};
  }

  lemma SubsetCardinality(a: set<char>, b: set<char>)
    requires a <= b
    ensures |a| <= |b|
  {
    assert b == a + (b - a);
  }

  /** `s.includes(c)`. */
  predicate Includes(s: string, c: char) {
    s != [] && (s[0] == c || Includes(s[1..], c))
  }

  lemma {:induction false} IncludesIsIn(s: string, c: char)
    ensures Includes(s, c) <==> c in s
  {
    if s != [] {
      IncludesIsIn(s[1..], c);
      assert s == [s[0]] + s[1..];
    }
  }

  /** The decoy candidate a draw yields: `numbers[Math.floor(Math.random() * 10)]`. */
  function Candidate(r: nat): char {
    Char(r % 10)
  }

  /** The candidates of `rng[from..]` that the redraw loop keeps (those absent from `realDigits`), in order. */
  function Kept(rng: seq<nat>, realDigits: string, from: nat): string
    decreases |rng| - from
  {
    if from >= |rng| then []
    else (if Includes(realDigits, Candidate(rng[from])) then [] else [Candidate(rng[from])]) + Kept(rng, realDigits, from + 1)
  }

  /**
   * One run of the redraw loop, drawing from `rng[from]` on: the first kept
   * candidate and the position after the draw that gave it.
   */
  function NextNoise(rng: seq<nat>, realDigits: string, from: nat): (r: Option<(char, nat)>)
    ensures r.Some? ==> from < r.value.1 <= |rng|
    decreases |rng| - from
  {
    if from >= |rng| then None
    else if !Includes(realDigits, Candidate(rng[from])) then Some((Candidate(rng[from]), from + 1))
    else NextNoise(rng, realDigits, from + 1)
  }

  /**
   * `generateNoiseDigits(count, realDigits)` drawing from `rng[from]` on: the
   * decoys and the position after the last draw used.
   */
  function Noise(rng: seq<nat>, realDigits: string, count: int, from: nat): (r: Option<(string, nat)>)
    ensures r.Some? ==> from <= r.value.1 <= Max(from, |rng|)
    decreases count
  {
    if count <= 0 then Some(([], from))
    else
      var first := NextNoise(rng, realDigits, from);
      if first.None? then None
      else Join([first.value.0], Noise(rng, realDigits, count - 1, first.value.1))
  }

  /** `prefix` put in front of what the rest of a generator yields. */
  function Join(prefix: string, rest: Option<(string, nat)>): Option<(string, nat)> {
    if rest.None? then None else Some((prefix + rest.value.0, rest.value.1))
  }

  lemma JoinNothing(r: Option<(string, nat)>)
    ensures Join([], r) == r
  {
    if r.Some? {
      assert [] + r.value.0 == r.value.0;
    }
  }

  lemma JoinJoin(p: string, q: string, r: Option<(string, nat)>)
    ensures Join(p, Join(q, r)) == Join(p + q, r)
  {
    if r.Some? {
      var (x, end) := r.value;
      assert p + (q + x) == (p + q) + x;
    }
  }

  /** The first kept candidate is the first of `Kept`, and the rest of `Kept` follows it. */
  lemma {:induction false} NextNoiseIsFirstKept(rng: seq<nat>, realDigits: string, from: nat)
    decreases |rng| - from
    ensures NextNoise(rng, realDigits, from).Some? <==> |Kept(rng, realDigits, from)| >= 1
    ensures NextNoise(rng, realDigits, from).Some? ==>
      var (c, next) := NextNoise(rng, realDigits, from).value;
      Kept(rng, realDigits, from) == [c] + Kept(rng, realDigits, next)
  {
    if from < |rng| && Includes(realDigits, Candidate(rng[from])) {
      NextNoiseIsFirstKept(rng, realDigits, from + 1);
    }
  }

  /**
   * The decoys are the first `count` kept candidates, and the loop finishes
   * exactly when the draws hold `count` of them.
   */
  lemma {:induction false} NoiseIsKept(rng: seq<nat>, realDigits: string, count: nat, from: nat)
    ensures Noise(rng, realDigits, count, from).Some? <==> |Kept(rng, realDigits, from)| >= count
    ensures Noise(rng, realDigits, count, from).Some? ==>
      Noise(rng, realDigits, count, from).value.0 == Kept(rng, realDigits, from)[..count]
  {
    if count > 0 {
      NextNoiseIsFirstKept(rng, realDigits, from);
      if NextNoise(rng, realDigits, from).Some? {
        var (c, next) := NextNoise(rng, realDigits, from).value;
        NoiseIsKept(rng, realDigits, count - 1, next);
        var all := Kept(rng, realDigits, from);
        var rest := Kept(rng, realDigits, next);
        if |rest| >= count - 1 {
          assert all[..count] == [c] + rest[..count - 1];
        }
      }
    }
  }

  /**
   * What `generateNoiseDigits(count, realDigits)` promises on the draws `rng`:
   * it runs out exactly when the draws hold fewer than `max(0, count)` kept
   * candidates, and otherwise returns the first `max(0, count)` of them.
   */
  lemma NoiseOutcome(rng: seq<nat>, realDigits: string, count: int, res: Option<string>, used: nat)
    requires Noise(rng, realDigits, count, 0) == if res.Some? then Some((res.value, used)) else None
    ensures res.None? <==> |Kept(rng, realDigits, 0)| < Max(0, count)
    ensures res.Some? ==> res.value == Kept(rng, realDigits, 0)[..Max(0, count)] && |res.value| == Max(0, count)
    ensures res.Some? ==> forall k :: 0 <= k < |res.value| ==> IsDigit(res.value[k]) && res.value[k] !in realDigits
  {
    if count > 0 {
      NoiseIsKept(rng, realDigits, count, 0);
    }
    if res.Some? {
      NoiseLength(rng, realDigits, count, 0);
      NoiseAreDecoys(rng, realDigits, count, 0);
    }
  }

  /**
   * `generateNoiseDigits(length, realDigits)`: `max(0, length)` digits, each
   * redrawn until it does not occur in `realDigits`.  `None` means the draws
   * ran out.
   */
  method GenerateNoiseDigits(length: int, realDigits: string, rng: seq<nat>) returns (res: Option<string>, used: nat)
    ensures used <= |rng|
    ensures res.None? ==> used == |rng|
    ensures Noise(rng, realDigits, length, 0) == if res.Some? then Some((res.value, used)) else None
    ensures res.None? <==> |Kept(rng, realDigits, 0)| < Max(0, length)
    ensures res.Some? ==> res.value == Kept(rng, realDigits, 0)[..Max(0, length)] && |res.value| == Max(0, length)
    ensures res.Some? ==> forall k :: 0 <= k < |res.value| ==> IsDigit(res.value[k]) && res.value[k] !in realDigits
  {
    var result := "";
    used := 0;
    var i := 0;
    JoinNothing(Noise(rng, realDigits, length, 0));
    while i < length
      invariant 0 <= i <= Max(0, length) && used <= |rng|
      invariant Noise(rng, realDigits, length, 0) == Join(result, Noise(rng, realDigits, length - i, used))
    {
      var start := used;
      var noiseDigit := '0';
      var found := false;
      while !found
        invariant start <= used <= |rng|
        invariant !found ==> NextNoise(rng, realDigits, start) == NextNoise(rng, realDigits, used)
        invariant found ==> NextNoise(rng, realDigits, start) == Some((noiseDigit, used))
        decreases |rng| - used, if found then 0 else 1
      {
        if used == |rng| {
          assert Noise(rng, realDigits, length - i, start) == None;
          NoiseOutcome(rng, realDigits, length, None, used);
          return None, used;
        }
        noiseDigit := Candidate(rng[used]);
        used := used + 1;
        found := !Includes(realDigits, noiseDigit);
      }
      JoinJoin(result, [noiseDigit], Noise(rng, realDigits, length - i - 1, used));
      result := result + [noiseDigit];
      i := i + 1;
    }
    assert result + [] == result;
    NoiseOutcome(rng, realDigits, length, Some(result), used);
    return Some(result), used;
  }

  /**
   * The splice loop of `createSegmentWithNoise` from decoy `k` of `noise` and
   * draw `rng[from]` on: each decoy, in order, goes into `row` at slot
   * `r % (|row| + 1)` of the next draw `r`.  Returns the row and the position
   * after the last draw used.
   */
  function Splice(row: seq<DigitDisplay>, noise: string, k: nat, rng: seq<nat>, from: nat)
    : (r: Option<(seq<DigitDisplay>, nat)>)
    ensures r.Some? ==> r.value.1 == from + Max(0, |noise| - k) && r.value.1 <= Max(from, |rng|)
    decreases |noise| - k
  {
    if k >= |noise| then Some((row, from))
    else if from >= |rng| then None
    else
      var p := rng[from] % (|row| + 1);
      Splice(row[..p] + [DigitDisplay(noise[k], false)] + row[p..], noise, k + 1, rng, from + 1)
  }

  /** The splice takes one draw per decoy, and fails exactly when there are fewer draws than decoys. */
  lemma {:induction false} SpliceTakesOneDrawPerDecoy(row: seq<DigitDisplay>, noise: string, k: nat, rng: seq<nat>, from: nat)
    decreases |noise| - k
    requires k <= |noise|
    ensures Splice(row, noise, k, rng, from).Some? <==> from + (|noise| - k) <= Max(from, |rng|)
  {
    if k < |noise| && from < |rng| {
      var p := rng[from] % (|row| + 1);
      SpliceTakesOneDrawPerDecoy(row[..p] + [DigitDisplay(noise[k], false)] + row[p..], noise, k + 1, rng, from + 1);
    }
  }

  /** The number of decoys a segment gets: `8 - segment.length`, nothing when that is negative. */
  function NoiseCount(segment: string): nat {
    if |segment| < Width then Width - |segment| else 0
  }

  /** A finished splice of the decoys into the row of `segment`, as a group. */
  function Grouped(segment: string, r: Option<(seq<DigitDisplay>, nat)>): Option<(SegmentDisplay, nat)> {
    if r.None? then None else Some((SegmentDisplay(r.value.0, |segment|), r.value.1))
  }

  /** `createSegmentWithNoise(segment)` on the draws `rng`: the group and the number of draws used. */
  function Padded(segment: string, rng: seq<nat>): (r: Option<(SegmentDisplay, nat)>)
    ensures r.Some? ==> r.value.1 <= |rng|
  {
    var noise := Noise(rng, segment, Width - |segment|, 0);
    if noise.None? then None
    else Grouped(segment, Splice(RealDigits(segment), noise.value.0, 0, rng, noise.value.1))
  }

  /**
   * The page passes `8 - segment.length` to `generateNoiseDigits`, which
   * draws nothing when that count is not positive, so the draws go exactly as
   * for `NoiseCount(segment)`.
   */
  lemma NoiseCountAgrees(rng: seq<nat>, segment: string)
    ensures Noise(rng, segment, Width - |segment|, 0) == Noise(rng, segment, NoiseCount(segment), 0)
    ensures NoiseCount(segment) == Max(0, Width - |segment|)
  {
  }

  /** `count` decoys are `max(0, count)` characters long. */
  lemma {:induction false} NoiseLength(rng: seq<nat>, realDigits: string, count: int, from: nat)
    requires Noise(rng, realDigits, count, from).Some?
    ensures |Noise(rng, realDigits, count, from).value.0| == Max(0, count)
    decreases count
  {
    if count > 0 {
      var next := NextNoise(rng, realDigits, from).value.1;
      NoiseLength(rng, realDigits, count - 1, next);
    }
  }

  /** Every kept candidate is a digit absent from `realDigits`. */
  lemma {:induction false} KeptAreDecoys(rng: seq<nat>, realDigits: string, from: nat)
    ensures forall j :: 0 <= j < |Kept(rng, realDigits, from)| ==>
      IsDigit(Kept(rng, realDigits, from)[j]) && Kept(rng, realDigits, from)[j] !in realDigits
    decreases |rng| - from
  {
    if from < |rng| {
      KeptAreDecoys(rng, realDigits, from + 1);
      IncludesIsIn(realDigits, Candidate(rng[from]));
    }
  }

  /** The decoys `generateNoiseDigits` returns are digits absent from `realDigits`. */
  lemma NoiseAreDecoys(rng: seq<nat>, realDigits: string, count: int, from: nat)
    requires Noise(rng, realDigits, count, from).Some?
    ensures forall j :: 0 <= j < |Noise(rng, realDigits, count, from).value.0| ==>
      IsDigit(Noise(rng, realDigits, count, from).value.0[j])
      && Noise(rng, realDigits, count, from).value.0[j] !in realDigits
  {
    if count > 0 {
      NoiseIsKept(rng, realDigits, count, from);
      KeptAreDecoys(rng, realDigits, from);
    }
  }

  /**
   * Splicing decoys, each a digit absent from `segment`, into a row whose real
   * cells spell `segment` keeps the real cells and adds one decoy cell each.
   */
  lemma {:induction false} SpliceKeepsReals(segment: string, row: seq<DigitDisplay>, noise: string, k: nat, rng: seq<nat>, from: nat)
    requires k <= |noise| && Splice(row, noise, k, rng, from).Some?
    requires Reals(row) == segment && |Decoys(row)| == k && |row| == |segment| + k
    requires forall d :: d in row && !d.isReal ==> IsDigit(d.value) && d.value !in segment
    requires forall j :: k <= j < |noise| ==> IsDigit(noise[j]) && noise[j] !in segment
    ensures var out := Splice(row, noise, k, rng, from).value.0;
      Reals(out) == segment && |Decoys(out)| == |noise| && |out| == |segment| + |noise|
      && forall d :: d in out && !d.isReal ==> IsDigit(d.value) && d.value !in segment
    decreases |noise| - k
  {
    if k < |noise| {
      var p := rng[from] % (|row| + 1);
      var cell := DigitDisplay(noise[k], false);
      var next := row[..p] + [cell] + row[p..];
      InsertDecoy(row, p, cell);
      assert forall d :: d in next ==> d in row || d == cell;
      SpliceKeepsReals(segment, next, noise, k + 1, rng, from + 1);
    }
  }

  /** `createSegmentWithNoise` returns a padding of its segment. */
  lemma PaddedIsPadding(segment: string, rng: seq<nat>)
    requires Padded(segment, rng).Some?
    ensures IsPadding(Padded(segment, rng).value.0, segment)
  {
    var noise := Noise(rng, segment, Width - |segment|, 0).value;
    NoiseLength(rng, segment, Width - |segment|, 0);
    NoiseAreDecoys(rng, segment, Width - |segment|, 0);
    var row := RealDigits(segment);
    NoDecoysAllReal(row);
    SpliceKeepsReals(segment, row, noise.0, 0, rng, noise.1);
  }

  /**
   * Padding succeeds exactly when the draws hold `NoiseCount` kept candidates
   * and, after the draw that gave the last of them, one more draw per decoy.
   */
  lemma PaddedSucceeds(segment: string, rng: seq<nat>)
    ensures Noise(rng, segment, NoiseCount(segment), 0).Some? <==> |Kept(rng, segment, 0)| >= NoiseCount(segment)
    ensures Padded(segment, rng).Some? <==>
      Noise(rng, segment, NoiseCount(segment), 0).Some?
      && Noise(rng, segment, NoiseCount(segment), 0).value.1 + NoiseCount(segment) <= |rng|
  {
    NoiseIsKept(rng, segment, NoiseCount(segment), 0);
    NoiseCountAgrees(rng, segment);
    var n := Noise(rng, segment, NoiseCount(segment), 0);
    if n.Some? {
      var (noise, next) := n.value;
      NoiseLength(rng, segment, NoiseCount(segment), 0);
      SpliceTakesOneDrawPerDecoy(RealDigits(segment), noise, 0, rng, next);
    }
  }

  /**
   * The draws suffice for `createSegmentWithNoise(segment)`: the decoy loop
   * finishes (by `PaddedSucceeds`, exactly when the draws hold `NoiseCount`
   * kept candidates), and after the last of them one slot draw per decoy
   * remains.
   */
  predicate DrawsSuffice(segment: string, rng: seq<nat>) {
    var n := Noise(rng, segment, NoiseCount(segment), 0);
    n.Some? && n.value.1 + NoiseCount(segment) <= |rng|
  }

  /** What `createSegmentWithNoise(segment)` promises on the draws `rng`, from the reference `Padded`. */
  lemma PaddedOutcome(segment: string, rng: seq<nat>, res: Option<SegmentDisplay>, used: nat)
    requires Padded(segment, rng) == if res.Some? then Some((res.value, used)) else None
    ensures res.Some? <==> DrawsSuffice(segment, rng)
    ensures res.Some? ==> IsPadding(res.value, segment)
    ensures |segment| >= Width ==> res == Some(SegmentDisplay(RealDigits(segment), |segment|)) && used == 0
  {
    PaddedSucceeds(segment, rng);
    if res.Some? {
      PaddedIsPadding(segment, rng);
    }
    if |segment| >= Width {
      PaddedOversized(segment, rng);
    }
  }

  /** A segment of `Width` or more digits needs no draw: its group is its own digits. */
  lemma PaddedOversized(segment: string, rng: seq<nat>)
    requires |segment| >= Width
    ensures Padded(segment, rng) == Some((SegmentDisplay(RealDigits(segment), |segment|), 0))
  {
  }

  /**
   * `createSegmentWithNoise(segment)`: draws `Width - |segment|` decoys, then
   * splices each one into the row at a slot drawn from `0..|row|`.
   */
  method CreateSegmentWithNoise(segment: string, rng: seq<nat>) returns (res: Option<SegmentDisplay>, used: nat)
    ensures used <= |rng|
    ensures res.None? ==> used == |rng|
    ensures Padded(segment, rng) == if res.Some? then Some((res.value, used)) else None
    ensures res.Some? <==> DrawsSuffice(segment, rng)
    ensures res.Some? ==> IsPadding(res.value, segment)
    ensures |segment| >= Width ==> res == Some(SegmentDisplay(RealDigits(segment), |segment|)) && used == 0
  {
    var noiseCount := Width - |segment|;
    var noise;
    noise, used := GenerateNoiseDigits(noiseCount, segment, rng);
    if noise.None? {
      PaddedOutcome(segment, rng, None, used);
      return None, used;
    }
    var noiseDigits := noise.value;
    var allDigits := RealDigits(segment);
    var k := 0;
    while k < |noiseDigits|
      invariant 0 <= k <= |noiseDigits| && used <= |rng|
      invariant Padded(segment, rng) == Grouped(segment, Splice(allDigits, noiseDigits, k, rng, used))
    {
      if used == |rng| {
        PaddedOutcome(segment, rng, None, used);
        return None, used;
      }
      var insertPosition := rng[used] % (|allDigits| + 1);
      used := used + 1;
      var cell := DigitDisplay(noiseDigits[k], false);
      allDigits := allDigits[..insertPosition] + [cell] + allDigits[insertPosition..];
      k := k + 1;
    }
    res := Some(SegmentDisplay(allDigits, |segment|));
    PaddedOutcome(segment, rng, res, used);
  }

  /** Draws that all give the same acceptable candidate `c` yield `c` repeated, one draw each. */
  lemma {:induction false} NoiseOnKeptRun(rng: seq<nat>, realDigits: string, count: nat, from: nat, c: char)
    requires from + count <= |rng| && c !in realDigits
    requires forall j :: from <= j < from + count ==> Candidate(rng[j]) == c
    ensures Noise(rng, realDigits, count, from) == Some((seq(count, _ => c), from + count))
    decreases count
  {
    if count > 0 {
      IncludesIsIn(realDigits, c);
      assert Candidate(rng[from]) == c;
      assert NextNoise(rng, realDigits, from) == Some((c, from + 1));
      NoiseOnKeptRun(rng, realDigits, count - 1, from + 1, c);
      assert [c] + seq(count - 1, _ => c) == seq(count, _ => c);
    } else {
      assert seq(count, _ => c) == [];
    }
  }

  /** When `realDigits` holds all ten digits, the redraw loop keeps no candidate. */
  lemma {:induction false} NothingKept(rng: seq<nat>, realDigits: string, from: nat)
    requires forall d :: 0 <= d <= 9 ==> Char(d) in realDigits
    ensures Kept(rng, realDigits, from) == []
    decreases |rng| - from
  {
    if from < |rng| {
      IncludesIsIn(realDigits, Candidate(rng[from]));
      NothingKept(rng, realDigits, from + 1);
    }
  }

  /**
   * `generateNoiseDigits(length, realDigits)` on its own: some sequence of
   * draws finishes it exactly when `length` is not positive or some digit is
   * absent from `realDigits`.  With all ten digits present and a positive
   * `length`, the redraw loop never ends, whatever is drawn.
   */
  lemma NoiseReachable(realDigits: string, length: int)
    ensures (exists rng :: Noise(rng, realDigits, length, 0).Some?) <==>
      length <= 0 || exists d :: 0 <= d <= 9 && Char(d) !in realDigits
  {
    if length <= 0 {
      assert Noise([], realDigits, length, 0).Some?;
    } else if exists d :: 0 <= d <= 9 && Char(d) !in realDigits {
      var d :| 0 <= d <= 9 && Char(d) !in realDigits;
      var rng := seq(length, _ => d);
      assert forall j :: 0 <= j < length ==> Candidate(rng[j]) == Char(d);
      NoiseOnKeptRun(rng, realDigits, length, 0, Char(d));
      assert Noise(rng, realDigits, length, 0).Some?;
    } else {
      forall rng: seq<nat>
        ensures Noise(rng, realDigits, length, 0).None?
      {
        NothingKept(rng, realDigits, 0);
        NoiseIsKept(rng, realDigits, length, 0);
      }
    }
  }

  /**
   * Every segment can be padded: some sequence of draws finishes
   * `createSegmentWithNoise`, since a digit absent from the segment always
   * exists.
   */
  lemma PaddingReachable(segment: string)
    ensures exists rng :: Padded(segment, rng).Some?
  {
    if |segment| >= Width {
      PaddedOversized(segment, []);
      assert Padded(segment, []).Some?;
    } else {
      DecoyValuesAvailable(segment);
      var d :| 0 <= d <= 9 && Char(d) !in segment;
      PaddedOnRun(segment, d, seq(2 * NoiseCount(segment), _ => d));
    }
  }

  /** Draws that open with twice `NoiseCount` copies of one digit absent from the segment pad it, using just those. */
  lemma PaddedOnRun(segment: string, d: nat, rng: seq<nat>)
    requires d <= 9 && Char(d) !in segment
    requires 2 * NoiseCount(segment) <= |rng| && forall j :: 0 <= j < 2 * NoiseCount(segment) ==> rng[j] == d
    ensures Padded(segment, rng).Some? && Padded(segment, rng).value.1 == 2 * NoiseCount(segment)
  {
    var n := NoiseCount(segment);
    assert forall j :: 0 <= j < n ==> Candidate(rng[j]) == Char(d);
    NoiseOnKeptRun(rng, segment, n, 0, Char(d));
    PaddedSucceeds(segment, rng);
    NoiseCountAgrees(rng, segment);
  }

  /** A segment of `Width` or more digits is shown as it is: no decoy, every cell real. */
  lemma OversizedSegmentShownBare(g: SegmentDisplay, seg: string)
    requires IsPadding(g, seg) && |seg| >= Width
    ensures |g.digits| == |seg| && Decoys(g.digits) == []
    ensures forall i :: 0 <= i < |seg| ==> g.digits[i] == DigitDisplay(seg[i], true)
  {
    NoDecoysAllReal(g.digits);
    assert forall i :: 0 <= i < |seg| ==> g.digits[i] in g.digits;
  }
}
