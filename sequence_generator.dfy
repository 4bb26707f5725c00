/**
 * The secret generator: a digit string built by rejection sampling.  The first
 * digit is drawn from 1..9; every later digit is drawn from 0..9 until it is
 * neither a repeat of the previous digit nor the third step of a +1/-1 run,
 * except that from the 20th attempt on only the repeat rule still applies.
 */
module SequenceGenerator {
  import opened Wrappers
  import opened Digits

  /** After this many attempts at one position a run of three is let through. */
  const MaxAttempts := 20

  /** `secondLast, last, next` step by +1 twice or by -1 twice. */
  predicate IsSequential(next: int, last: int, secondLast: int) {
    (next == last + 1 && last == secondLast + 1) || (next == last - 1 && last == secondLast - 1)
  }

  /** The digits at i-2, i-1 and i of `s` form a +1/-1 run of three. */
  predicate RunAt(s: string, i: int)
    requires 2 <= i < |s|
  {
    IsSequential(Value(s[i]), Value(s[i - 1]), Value(s[i - 2]))
  }

  predicate NoAdjacentRepeat(s: string) {
    forall i :: 1 <= i < |s| ==> s[i] != s[i - 1]
  }

  /** The shape every generated secret has: non-empty, digits only, no leading 0, no repeats. */
  predicate IsSecret(s: string) {
    |s| >= 1 && IsDigits(s) && s[0] != '0' && NoAdjacentRepeat(s)
  }

  function Sum(xs: seq<nat>): nat {
    if xs == [] then 0 else Sum(xs[..|xs| - 1]) + xs[|xs| - 1]
  }

  lemma AppendAssoc<T>(a: seq<T>, b: seq<T>, c: seq<T>)
    ensures a + (b + c) == (a + b) + c
  {
  }

  lemma SumAppend(xs: seq<nat>, x: nat)
    ensures Sum(xs + [x]) == Sum(xs) + x
  {
    assert (xs + [x])[..|xs|] == xs;
  }

  /** Whether the do-while loop stops on `next`, drawn on attempt `attempts` after `secondLast, last`. */
  predicate Accepts(next: int, last: int, secondLast: int, attempts: nat) {
    (attempts >= MaxAttempts && next != last) || (next != last && !IsSequential(next, last, secondLast))
  }

  /**
   * One run of the do-while loop, drawing from `rng[from]` on with `attempts`
   * attempts made so far: the digit it stops on, the attempt that was, and the
   * position after that draw.
   */
  function NextDigit(rng: seq<nat>, last: int, secondLast: int, from: nat, attempts: nat)
    : (r: Option<(int, nat, nat)>)
    ensures r.Some? ==> 0 <= r.value.0 <= 9 && from < r.value.2 <= |rng|
    ensures r.Some? ==> r.value.1 == attempts + (r.value.2 - from) && Accepts(r.value.0, last, secondLast, r.value.1)
    decreases |rng| - from
  {
    if from >= |rng| then None
    else if Accepts(rng[from] % 10, last, secondLast, attempts + 1) then Some((rng[from] % 10, attempts + 1, from + 1))
    else NextDigit(rng, last, secondLast, from + 1, attempts + 1)
  }

  /**
   * The do-while loop stops on the first draw the rule accepts: every earlier
   * draw, counted from attempt `attempts + 1`, was rejected, and with no
   * accepted draw left the loop runs out.
   */
  lemma {:induction false} NextDigitIsFirstAccepted(rng: seq<nat>, last: int, secondLast: int, from: nat, attempts: nat)
    ensures NextDigit(rng, last, secondLast, from, attempts).Some? ==>
      var (next, _, after) := NextDigit(rng, last, secondLast, from, attempts).value;
      next == rng[after - 1] % 10
      && forall j :: from <= j < after - 1 ==> !Accepts(rng[j] % 10, last, secondLast, attempts + (j - from) + 1)
    ensures NextDigit(rng, last, secondLast, from, attempts).None? ==>
      forall j :: from <= j < |rng| ==> !Accepts(rng[j] % 10, last, secondLast, attempts + (j - from) + 1)
    decreases |rng| - from
  {
    if from < |rng| && !Accepts(rng[from] % 10, last, secondLast, attempts + 1) {
      NextDigitIsFirstAccepted(rng, last, secondLast, from + 1, attempts + 1);
    }
  }

  /**
   * The `for` loop of `generateComplexNumber` with `count` positions still to
   * fill after `secondLast, last`: the digits, the attempt each was accepted
   * on, and the position after the last draw used.
   */
  function MoreDigits(rng: seq<nat>, count: int, last: int, secondLast: int, from: nat)
    : (r: Option<(string, seq<nat>, nat)>)
    ensures r.Some? ==> from <= r.value.2 <= Max(from, |rng|)
    decreases count
  {
    if count <= 0 then Some(([], [], from))
    else
      var first := NextDigit(rng, last, secondLast, from, 0);
      if first.None? then None
      else
        var (next, attempts, after) := first.value;
        JoinDigits([Char(next)], [attempts], MoreDigits(rng, count - 1, next, last, after))
  }

  /** `generateComplexNumber(length)` on the draws `rng`: the secret, the attempt counts and the draws used. */
  function Generated(length: int, rng: seq<nat>): (r: Option<(string, seq<nat>, nat)>)
    ensures r.Some? ==> r.value.2 <= |rng|
  {
    if rng == [] then None
    else
      var first := rng[0] % 9 + 1;
      JoinDigits([Char(first)], [1], MoreDigits(rng, length - 1, first, -2, 1))
  }

  /** `prefix` and its attempt counts put in front of what the rest of the loop yields. */
  function JoinDigits(prefix: string, trials: seq<nat>, rest: Option<(string, seq<nat>, nat)>)
    : Option<(string, seq<nat>, nat)>
  {
    if rest.None? then None else Some((prefix + rest.value.0, trials + rest.value.1, rest.value.2))
  }

  /** One digit accepted by the loop, seen from the digits already made. */
  lemma MoreDigitsStep(rng: seq<nat>, count: int, last: int, secondLast: int, from: nat,
                       result: string, trials: seq<nat>, next: int, attempts: nat, after: nat)
    requires count > 0 && 0 <= next <= 9
    requires NextDigit(rng, last, secondLast, from, 0) == Some((next, attempts, after))
    ensures JoinDigits(result, trials, MoreDigits(rng, count, last, secondLast, from))
      == JoinDigits(result + [Char(next)], trials + [attempts], MoreDigits(rng, count - 1, next, last, after))
  {
    var r := MoreDigits(rng, count - 1, next, last, after);
    if r.Some? {
      var (s, t, end) := r.value;
      assert result + ([Char(next)] + s) == (result + [Char(next)]) + s;
      assert trials + ([attempts] + t) == (trials + [attempts]) + t;
    }
  }

  /** With no position left the loop yields nothing more. */
  lemma MoreDigitsDone(rng: seq<nat>, count: int, last: int, secondLast: int, from: nat, result: string, trials: seq<nat>)
    requires count <= 0
    ensures JoinDigits(result, trials, MoreDigits(rng, count, last, secondLast, from)) == Some((result, trials, from))
  {
    assert result + [] == result && trials + [] == trials;
  }

  /** A finished run of the do-while loop reads no draw past the one it stops on. */
  lemma {:induction false} NextDigitExtends(rng: seq<nat>, more: seq<nat>, last: int, secondLast: int, from: nat, attempts: nat)
    requires NextDigit(rng, last, secondLast, from, attempts).Some?
    ensures NextDigit(rng + more, last, secondLast, from, attempts) == NextDigit(rng, last, secondLast, from, attempts)
    decreases |rng| - from
  {
    assert (rng + more)[from] == rng[from];
    if !Accepts(rng[from] % 10, last, secondLast, attempts + 1) {
      NextDigitExtends(rng, more, last, secondLast, from + 1, attempts + 1);
    }
  }

  lemma {:induction false} MoreDigitsExtends(rng: seq<nat>, more: seq<nat>, count: int, last: int, secondLast: int, from: nat)
    requires MoreDigits(rng, count, last, secondLast, from).Some?
    ensures MoreDigits(rng + more, count, last, secondLast, from) == MoreDigits(rng, count, last, secondLast, from)
    decreases count
  {
    if count > 0 {
      NextDigitExtends(rng, more, last, secondLast, from, 0);
      var (next, attempts, after) := NextDigit(rng, last, secondLast, from, 0).value;
      MoreDigitsExtends(rng, more, count - 1, next, last, after);
    }
  }

  /**
   * Once the draws complete a secret, further draws change nothing: `None`
   * only ever means that the draws ran out before the last position.
   */
  lemma GeneratedExtends(length: int, rng: seq<nat>, more: seq<nat>)
    requires Generated(length, rng).Some?
    ensures Generated(length, rng + more) == Generated(length, rng)
  {
    var first := rng[0] % 9 + 1;
    assert (rng + more)[0] == rng[0];
    MoreDigitsExtends(rng, more, length - 1, first, -2, 1);
  }

  /**
   * The promise on a secret and its attempt counts: the digits form a secret,
   * the first was drawn once, every later one took at least one attempt, and
   * every run of three was let through only on attempt `MaxAttempts` or later.
   */
  predicate SecretWithTrials(result: string, trials: seq<nat>) {
    IsSecret(result) && |trials| == |result|
    && trials[0] == 1
    && (forall j :: 1 <= j < |trials| ==> trials[j] >= 1)
    && (forall j :: 2 <= j < |result| && RunAt(result, j) ==> trials[j] >= MaxAttempts)
  }

  /** What the loop knows of the digits made so far: `last` and `secondLast` are the final two (`-2` before the second). */
  predicate SecretSoFar(result: string, trials: seq<nat>, last: int, secondLast: int) {
    SecretWithTrials(result, trials)
    && last == Value(result[|result| - 1])
    && secondLast == (if |result| >= 2 then Value(result[|result| - 2]) else -2)
  }

  /** One accepted digit keeps `SecretSoFar`. */
  lemma SecretStep(result: string, trials: seq<nat>, last: int, secondLast: int, next: int, attempts: nat)
    requires SecretSoFar(result, trials, last, secondLast)
    requires 0 <= next <= 9 && attempts >= 1 && Accepts(next, last, secondLast, attempts)
    ensures SecretSoFar(result + [Char(next)], trials + [attempts], next, last)
    ensures (result + [Char(next)])[0] == result[0]
    ensures Sum(trials + [attempts]) == Sum(trials) + attempts
  {
    var i := |result|;
    var r := result + [Char(next)];
    assert r[i] != r[i - 1];
    assert 2 <= i ==> (RunAt(r, i) <==> IsSequential(next, last, secondLast));
    assert forall j :: 2 <= j < i ==> (RunAt(r, j) <==> RunAt(result, j));
    SumAppend(trials, attempts);
  }

  /**
   * The rest of the loop extends the digits made so far by `max(0, count)`
   * more, keeps the promise, and charges one attempt per draw.
   */
  lemma {:induction false} MoreDigitsKeepSecret(rng: seq<nat>, count: int, last: int, secondLast: int, from: nat,
                                                result: string, trials: seq<nat>)
    requires SecretSoFar(result, trials, last, secondLast)
    requires MoreDigits(rng, count, last, secondLast, from).Some?
    ensures var (s, t, end) := MoreDigits(rng, count, last, secondLast, from).value;
      |s| == Max(0, count) && SecretWithTrials(result + s, trials + t)
      && Sum(trials + t) == Sum(trials) + (end - from) && (result + s)[0] == result[0]
    decreases count
  {
    if count <= 0 {
      assert result + [] == result && trials + [] == trials;
    } else {
      var (next, attempts, after) := NextDigit(rng, last, secondLast, from, 0).value;
      SecretStep(result, trials, last, secondLast, next, attempts);
      MoreDigitsKeepSecret(rng, count - 1, next, last, after, result + [Char(next)], trials + [attempts]);
      var (s', t', end') := MoreDigits(rng, count - 1, next, last, after).value;
      AppendAssoc(result, [Char(next)], s');
      AppendAssoc(trials, [attempts], t');
    }
  }

  /**
   * What `generateComplexNumber(length)` promises: `max(1, length)` digits
   * forming a secret, the first from the first draw, and attempt counts that
   * add up to the draws taken.
   */
  lemma GeneratedIsSecret(length: int, rng: seq<nat>)
    requires Generated(length, rng).Some?
    ensures var (s, trials, used) := Generated(length, rng).value;
      |s| == Max(1, length) && SecretWithTrials(s, trials)
      && s[0] == Char(rng[0] % 9 + 1) && Sum(trials) == used
  {
    var first := rng[0] % 9 + 1;
    assert Sum([1]) == Sum([]) + 1;
    assert SecretSoFar([Char(first)], [1], first, -2);
    MoreDigitsKeepSecret(rng, length - 1, first, -2, 1, [Char(first)], [1]);
  }

  /**
   * Digit `j` of `s` (from the second on) is the draw that ended its attempts,
   * `trials[j]` draws after the ones the earlier digits used, and every
   * earlier attempt at position `j` was rejected by the rule.
   */
  predicate DrawnAt(rng: seq<nat>, s: string, trials: seq<nat>, j: nat)
    requires 1 <= j < |s| && |trials| == |s| && IsDigits(s)
  {
    var start := Sum(trials[..j]);
    var end := Sum(trials[..j + 1]);
    var last := Value(s[j - 1]);
    var secondLast := if j >= 2 then Value(s[j - 2]) else -2;
    start < end <= |rng| && s[j] == Char(rng[end - 1] % 10)
    && forall p :: start <= p < end - 1 ==> !Accepts(rng[p] % 10, last, secondLast, p - start + 1)
  }

  /** Every digit of `s` after the first came from the draws as `DrawnAt` says. */
  predicate DrawnFrom(rng: seq<nat>, s: string, trials: seq<nat>) {
    |trials| == |s| && IsDigits(s) && forall j :: 1 <= j < |s| ==> DrawnAt(rng, s, trials, j)
  }

  /** One accepted digit keeps `DrawnFrom`. */
  lemma DrawnStep(rng: seq<nat>, result: string, trials: seq<nat>, last: int, secondLast: int,
                  next: int, attempts: nat, after: nat)
    requires DrawnFrom(rng, result, trials) && |result| >= 1
    requires last == Value(result[|result| - 1])
    requires secondLast == if |result| >= 2 then Value(result[|result| - 2]) else -2
    requires NextDigit(rng, last, secondLast, Sum(trials), 0) == Some((next, attempts, after))
    ensures DrawnFrom(rng, result + [Char(next)], trials + [attempts])
    ensures Sum(trials + [attempts]) == after
  {
    SumAppend(trials, attempts);
    var r := result + [Char(next)];
    var t := trials + [attempts];
    forall j | 1 <= j < |result|
      ensures DrawnAt(rng, r, t, j)
    {
      DrawnKept(rng, result, trials, Char(next), attempts, j);
    }
    DrawnLast(rng, result, trials, last, secondLast, next, attempts, after);
  }

  /** The digit just accepted is drawn as `DrawnAt` says. */
  lemma DrawnLast(rng: seq<nat>, result: string, trials: seq<nat>, last: int, secondLast: int,
                  next: int, attempts: nat, after: nat)
    requires |trials| == |result| >= 1 && IsDigits(result)
    requires last == Value(result[|result| - 1])
    requires secondLast == if |result| >= 2 then Value(result[|result| - 2]) else -2
    requires NextDigit(rng, last, secondLast, Sum(trials), 0) == Some((next, attempts, after))
    ensures DrawnAt(rng, result + [Char(next)], trials + [attempts], |result|)
  {
    NextDigitIsFirstAccepted(rng, last, secondLast, Sum(trials), 0);
    SumAppend(trials, attempts);
    var t := trials + [attempts];
    assert t[..|result|] == trials && t[..|result| + 1] == t;
  }

  /** Appending a digit leaves how the earlier ones were drawn as it was. */
  lemma DrawnKept(rng: seq<nat>, result: string, trials: seq<nat>, c: char, attempts: nat, j: nat)
    requires 1 <= j < |result| && |trials| == |result| && IsDigits(result) && IsDigit(c)
    requires DrawnAt(rng, result, trials, j)
    ensures DrawnAt(rng, result + [c], trials + [attempts], j)
  {
    var t := trials + [attempts];
    assert t[..j] == trials[..j] && t[..j + 1] == trials[..j + 1];
  }

  /**
   * The rest of the loop extends the digits made so far, each drawn as
   * `DrawnAt` says.
   */
  lemma {:induction false} MoreDigitsDrawn(rng: seq<nat>, count: int, last: int, secondLast: int,
                                           result: string, trials: seq<nat>)
    requires DrawnFrom(rng, result, trials) && |result| >= 1
    requires last == Value(result[|result| - 1])
    requires secondLast == if |result| >= 2 then Value(result[|result| - 2]) else -2
    requires MoreDigits(rng, count, last, secondLast, Sum(trials)).Some?
    ensures var (s, t, _) := MoreDigits(rng, count, last, secondLast, Sum(trials)).value;
      DrawnFrom(rng, result + s, trials + t)
    decreases count
  {
    if count <= 0 {
      assert result + [] == result && trials + [] == trials;
    } else {
      var (next, attempts, after) := NextDigit(rng, last, secondLast, Sum(trials), 0).value;
      DrawnStep(rng, result, trials, last, secondLast, next, attempts, after);
      var r := result + [Char(next)];
      assert r[|r| - 1] == Char(next) && r[|r| - 2] == result[|result| - 1];
      MoreDigitsDrawn(rng, count - 1, next, last, r, trials + [attempts]);
      var (s', t', _) := MoreDigits(rng, count - 1, next, last, after).value;
      AppendAssoc(result, [Char(next)], s');
      AppendAssoc(trials, [attempts], t');
    }
  }

  /**
   * Draws alternating between `4 - last` and `last` (for `last` 1 or 3) are
   * accepted one by one: neither is a repeat, and no +1/-1 run passes
   * through 1 and 3.
   */
  lemma {:induction false} MoreDigitsAlternate(rng: seq<nat>, count: nat, last: int, secondLast: int, from: nat)
    requires last == 1 || last == 3
    requires from + count <= |rng|
    requires forall j :: from <= j < from + count ==> rng[j] == if (j - from) % 2 == 0 then 4 - last else last
    ensures MoreDigits(rng, count, last, secondLast, from).Some?
    decreases count
  {
    if count > 0 {
      assert rng[from] == 4 - last;
      assert NextDigit(rng, last, secondLast, from, 0) == Some((4 - last, 1, from + 1));
      forall j | from + 1 <= j < from + count
        ensures rng[j] == if (j - (from + 1)) % 2 == 0 then 4 - (4 - last) else 4 - last
      {
        assert (j - from) % 2 == 0 <==> (j - (from + 1)) % 2 == 1;
      }
      MoreDigitsAlternate(rng, count - 1, 4 - last, last, from + 1);
    }
  }

  /** The draws `0, 3, 1, 3, 1, …`: first digit 1, then 3 and 1 in turn. */
  function AlternatingDraws(n: nat): (r: seq<nat>)
    ensures |r| == n + 1 && r[0] == 0
    ensures forall j :: 1 <= j <= n ==> r[j] == if (j - 1) % 2 == 0 then 3 else 1
  {
    [0] + seq(n, i => if i % 2 == 0 then 3 else 1)
  }

  /**
   * For every length some draws finish `generateComplexNumber`: the
   * generator fails only when its draws run out, never for want of an
   * acceptable digit.
   */
  lemma GeneratedReachable(length: int)
    ensures Generated(length, AlternatingDraws(Max(0, length - 1))).Some?
  {
    var rng := AlternatingDraws(Max(0, length - 1));
    assert rng[0] % 9 + 1 == 1;
    if length - 1 > 0 {
      MoreDigitsAlternate(rng, length - 1, 1, -2, 1);
    }
  }

  /**
   * The secret follows the draws: the first digit is `rng[0] % 9 + 1`, and
   * every later one is the first draw the rule accepted at its position.
   */
  lemma GeneratedFollowsDraws(length: int, rng: seq<nat>)
    requires Generated(length, rng).Some?
    ensures var (s, trials, _) := Generated(length, rng).value;
      s[0] == Char(rng[0] % 9 + 1) && DrawnFrom(rng, s, trials)
  {
    var first := rng[0] % 9 + 1;
    assert Sum([1]) == Sum([]) + 1;
    MoreDigitsDrawn(rng, length - 1, first, -2, [Char(first)], [1]);
  }

  /** `GeneratedIsSecret` and `GeneratedFollowsDraws` together, for a known outcome. */
  lemma GeneratedPromise(length: int, rng: seq<nat>, s: string, trials: seq<nat>, used: nat)
    requires Generated(length, rng) == Some((s, trials, used))
    ensures |s| == Max(1, length) && SecretWithTrials(s, trials)
    ensures s[0] == Char(rng[0] % 9 + 1) && Sum(trials) == used
    ensures DrawnFrom(rng, s, trials)
  {
    GeneratedIsSecret(length, rng);
    GeneratedFollowsDraws(length, rng);
  }

  /** What a result that agrees with `Generated` promises, as `GeneratedPromise` states it. */
  lemma GeneratedOutcome(length: int, rng: seq<nat>, res: Option<string>, trials: seq<nat>, used: nat)
    requires Generated(length, rng) == if res.Some? then Some((res.value, trials, used)) else None
    ensures res.Some? ==>
      |res.value| == Max(1, length) && SecretWithTrials(res.value, trials)
      && res.value[0] == Char(rng[0] % 9 + 1) && Sum(trials) == used
    ensures res.Some? ==> DrawnFrom(rng, res.value, trials)
  {
    if res.Some? {
      GeneratedPromise(length, rng, res.value, trials, used);
    }
  }

  /**
   * The do-while loop of `generateComplexNumber` for one position: draws until
   * `Accepts` holds and returns the digit with its attempt count.  `None` means
   * the draws ran out.
   */
  method DrawDigit(rng: seq<nat>, last: int, secondLast: int, from: nat) returns (res: Option<(int, nat)>, used: nat)
    requires from <= |rng|
    ensures from <= used <= |rng|
    ensures res.None? ==> used == |rng|
    ensures NextDigit(rng, last, secondLast, from, 0) == if res.Some? then Some((res.value.0, res.value.1, used)) else None
  {
    used := from;
    var next := 0;
    var attempts: nat := 0;
    var accepted := false;
    while !accepted
      invariant from <= used <= |rng| && attempts == used - from
      invariant !accepted ==> NextDigit(rng, last, secondLast, from, 0) == NextDigit(rng, last, secondLast, used, attempts)
      invariant accepted ==> NextDigit(rng, last, secondLast, from, 0) == Some((next, attempts, used))
      decreases |rng| - used, if accepted then 0 else 1
    {
      if used == |rng| {
        return None, used;
      }
      next := rng[used] % 10;
      used := used + 1;
      attempts := attempts + 1;
      if attempts >= MaxAttempts && next != last {
        accepted := true;
      } else {
        var isRepeated := next == last;
        var isSequential := IsSequential(next, last, secondLast);
        if !isRepeated && !isSequential {
          accepted := true;
        }
      }
    }
    return Some((next, attempts)), used;
  }

  /**
   * `generateComplexNumber(length)`.  `trials[i]` is the attempt on which the
   * digit at position i was accepted, and `used` counts the draws taken from
   * `rng`.  `None` means the draws ran out before the secret was complete.
   */
  method GenerateComplexNumber(length: int, rng: seq<nat>) returns (res: Option<string>, trials: seq<nat>, used: nat)
    ensures used <= |rng|
    ensures res.None? ==> used == |rng|
    ensures Generated(length, rng) == if res.Some? then Some((res.value, trials, used)) else None
    ensures res.Some? ==>
      |res.value| == Max(1, length) && SecretWithTrials(res.value, trials)
      && res.value[0] == Char(rng[0] % 9 + 1) && Sum(trials) == used
    ensures res.Some? ==> DrawnFrom(rng, res.value, trials)
  {
    if |rng| == 0 {
      return None, [], 0;
    }
    var first := rng[0] % 9 + 1;
    var result := [Char(first)];
    var last: int := first;
    var secondLast: int := -2;
    trials := [1];
    used := 1;
    var i := 1;
    while i < length
      invariant 1 <= i <= Max(1, length) && 0 < used <= |rng|
      invariant Generated(length, rng) == JoinDigits(result, trials, MoreDigits(rng, length - i, last, secondLast, used))
    {
      var start := used;
      var drawn;
      drawn, used := DrawDigit(rng, last, secondLast, start);
      if drawn.None? {
        assert MoreDigits(rng, length - i, last, secondLast, start) == None;
        return None, trials, used;
      }
      var (next, attempts) := drawn.value;
      MoreDigitsStep(rng, length - i, last, secondLast, start, result, trials, next, attempts, used);
      result := result + [Char(next)];
      trials := trials + [attempts];
      secondLast := last;
      last := next;
      i := i + 1;
    }
    MoreDigitsDone(rng, length - i, last, secondLast, used, result, trials);
    res := Some(result);
    GeneratedOutcome(length, rng, res, trials, used);
  }
}
