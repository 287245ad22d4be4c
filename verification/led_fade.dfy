/**
 * The 20-step colour fade of the RGB status LED (`set_rgb_fade` in
 * python/whisplay.py): the integer value each step sets, and which steps
 * run before a newer fade cancels the running one.
 */
module LedFade {

  const Steps := 20

  /**
   * Python's `int(q)` of the rational n / d: truncation toward zero, so the
   * quotient never overshoots n and falls short of it by less than d.
   */
  function TruncDiv(n: int, d: int): (q: int)
    requires d > 0
    ensures n >= 0 ==> 0 <= n - q * d < d
    ensures n < 0 ==> 0 <= q * d - n < d
  {
    if n >= 0 then n / d else -((-n) / d)
  }

  /** `max(0, min(255, v))`. */
  function Clamp(v: int): (c: int)
    ensures 0 <= c <= 255
    ensures 0 <= v <= 255 ==> c == v
    ensures v < 0 ==> c == 0
    ensures v > 255 ==> c == 255
  {
    if v < 0 then 0 else if v > 255 then 255 else v
  }

  /**
   * The channel value of step i: `int(start + diff * i / steps)`, clamped.
   * The source divides in floating point; since diff * i is an integer
   * and the quotient is either exact or at least 1/20 away from the next
   * integer, truncating the float gives the same value as truncating the
   * exact rational (20 * start + diff * i) / 20.
   */
  function StepValue(start: int, target: int, i: int): int {
    Clamp(TruncDiv(Steps * start + (target - start) * i, Steps))
  }

  lemma MulMono(a: int, b: int, c: int)
    requires a <= b && c >= 0
    ensures a * c <= b * c
  {
  }

  /**
   * With both ends in 0..255 the numerator is a weighted mean of them,
   * 20 * start + diff * i = start * (20 - i) + target * i, so it is never
   * negative (truncation is floor) and stays below 20 * 256 (the clamp is idle).
   */
  lemma StepUnclamped(start: int, target: int, i: int)
    requires 0 <= start <= 255 && 0 <= target <= 255 && 0 <= i <= Steps
    ensures StepValue(start, target, i) == (Steps * start + (target - start) * i) / Steps
    ensures start <= target ==> Steps * start <= Steps * start + (target - start) * i <= Steps * target
    ensures target <= start ==> Steps * target <= Steps * start + (target - start) * i <= Steps * start
  {
    var n := Steps * start + (target - start) * i;
    if start <= target {
      MulMono(0, i, target - start);
      MulMono(i, Steps, target - start);
      assert (target - start) * Steps == Steps * target - Steps * start;
      assert i * (target - start) == (target - start) * i;
    } else {
      MulMono(0, i, start - target);
      MulMono(i, Steps, start - target);
      assert (start - target) * Steps == Steps * start - Steps * target;
      assert i * (start - target) == -((target - start) * i);
    }
    assert 0 <= n <= Steps * 255;
  }

  /** Every step lies between the start and the target; step 0 is the start and step 20 the target. */
  lemma StepBetween(start: int, target: int, i: int)
    requires 0 <= start <= 255 && 0 <= target <= 255 && 0 <= i <= Steps
    ensures start <= target ==> start <= StepValue(start, target, i) <= target
    ensures target <= start ==> target <= StepValue(start, target, i) <= start
    ensures i == Steps ==> StepValue(start, target, i) == target
    ensures i == 0 ==> StepValue(start, target, i) == start
  {
    StepUnclamped(start, target, i);
    if i == Steps {
      assert Steps * start + (target - start) * i == Steps * target;
    }
  }

  /** The fade moves one way only: towards the target, never back. */
  lemma StepMonotone(start: int, target: int, i: int, j: int)
    requires 0 <= start <= 255 && 0 <= target <= 255 && 0 <= i <= j <= Steps
    ensures start <= target ==> StepValue(start, target, i) <= StepValue(start, target, j)
    ensures target <= start ==> StepValue(start, target, j) <= StepValue(start, target, i)
  {
    StepUnclamped(start, target, i);
    StepUnclamped(start, target, j);
    var ni := Steps * start + (target - start) * i;
    var nj := Steps * start + (target - start) * j;
    NumeratorMono(start, target, i, j);
    if start <= target {
      DivMono(ni, nj);
    } else {
      DivMono(nj, ni);
    }
  }

  /** The exact numerators 20 * start + diff * i move towards the target as i grows. */
  lemma NumeratorMono(start: int, target: int, i: int, j: int)
    requires i <= j
    ensures start <= target ==> Steps * start + (target - start) * i <= Steps * start + (target - start) * j
    ensures target <= start ==> Steps * start + (target - start) * j <= Steps * start + (target - start) * i
  {
    if start <= target {
      MulMono(i, j, target - start);
    } else {
      MulMono(i, j, start - target);
      assert (start - target) * j == -((target - start) * j);
      assert (start - target) * i == -((target - start) * i);
    }
  }

  lemma DivMono(a: int, b: int)
    requires 0 <= a <= b
    ensures a / Steps <= b / Steps
  {
  }

  /** The LED's three channel values. */
  datatype Led = Led(r: int, g: int, b: int)

  function StepLed(start: Led, target: Led, i: int): Led {
    Led(StepValue(start.r, target.r, i), StepValue(start.g, target.g, i), StepValue(start.b, target.b, i))
  }

  /**
   * The `set_rgb` calls of one fade worker. `cancelAt` is the first step
   * whose cancellation check finds the flag set (Steps + 1 or more when a
   * newer fade never interrupts this one): the steps before it run, the
   * rest do not.
   */
  function FadeCalls(start: Led, target: Led, cancelAt: nat): (calls: seq<Led>)
    ensures |calls| == if cancelAt == 0 then 0 else if cancelAt - 1 < Steps then cancelAt - 1 else Steps
    ensures forall k | 0 <= k < |calls| :: calls[k] == StepLed(start, target, k + 1)
  {
    var n := if cancelAt == 0 then 0 else if cancelAt - 1 < Steps then cancelAt - 1 else Steps;
    seq(n, k requires 0 <= k < n => StepLed(start, target, k + 1))
  }

  /**
   * `fade_worker`'s loop: for i = 1..20 it first checks the cancel flag
   * (`flags[i - 1]` is what the check at step i sees) and returns if a
   * newer fade has set it; otherwise it sets the LED to step i's colour.
   * The sleep between steps is not modelled.
   */
  method FadeWorker(start: Led, target: Led, flags: seq<bool>) returns (calls: seq<Led>)
    requires |flags| == Steps
    ensures |calls| <= Steps
    ensures forall k | 0 <= k < |calls| :: !flags[k] && calls[k] == StepLed(start, target, k + 1)
    ensures |calls| < Steps ==> flags[|calls|]
    ensures calls == FadeCalls(start, target, FirstFlagged(flags))
  {
    calls := [];
    var i := 1;
    while i <= Steps
      invariant 1 <= i <= Steps + 1
      invariant |calls| == i - 1
      invariant forall k | 0 <= k < |calls| :: !flags[k] && calls[k] == StepLed(start, target, k + 1)
    {
      if flags[i - 1] {
        FadeWorkerCalls(start, target, flags, calls);
        return;
      }
      calls := calls + [StepLed(start, target, i)];
      i := i + 1;
    }
    FadeWorkerCalls(start, target, flags, calls);
  }

  /** The step whose check first sees the flag set, or Steps + 1 when none does. */
  function FirstFlagged(flags: seq<bool>): (k: nat)
    ensures 1 <= k <= |flags| + 1
    ensures forall j | 0 <= j < k - 1 :: !flags[j]
    ensures k <= |flags| ==> flags[k - 1]
  {
    if |flags| == 0 then 1
    else if flags[0] then 1
    else 1 + FirstFlagged(flags[1..])
  }

  /**
   * The worker sends exactly the calls `FadeCalls` describes for the first
   * step whose check sees the flag: a cancel seen at step k leaves steps
   * 1..k-1 sent and nothing after.
   */
  lemma FadeWorkerCalls(start: Led, target: Led, flags: seq<bool>, calls: seq<Led>)
    requires |flags| == Steps
    requires |calls| <= Steps
    requires forall k | 0 <= k < |calls| :: !flags[k] && calls[k] == StepLed(start, target, k + 1)
    requires |calls| < Steps ==> flags[|calls|]
    ensures calls == FadeCalls(start, target, FirstFlagged(flags))
  {
    assert |calls| == FirstFlagged(flags) - 1;
  }

  predicate InRange(c: Led) {
    0 <= c.r <= 255 && 0 <= c.g <= 255 && 0 <= c.b <= 255
  }

  /** The colour the LED is left at: the last call's, or the start when no step ran. */
  function FinalLed(start: Led, target: Led, cancelAt: nat): Led {
    var calls := FadeCalls(start, target, cancelAt);
    if |calls| == 0 then start else calls[|calls| - 1]
  }

  /** An uninterrupted fade ends exactly at the target; an interrupted one ends in range. */
  lemma FadeEnds(start: Led, target: Led, cancelAt: nat)
    requires InRange(start) && InRange(target)
    ensures cancelAt > Steps ==> FinalLed(start, target, cancelAt) == target
    ensures InRange(FinalLed(start, target, cancelAt))
  {
    var calls := FadeCalls(start, target, cancelAt);
    if |calls| > 0 {
      var i := |calls|;
      StepBetween(start.r, target.r, i);
      StepBetween(start.g, target.g, i);
      StepBetween(start.b, target.b, i);
    }
  }
}
