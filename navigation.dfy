/**
 * The image index arithmetic of the navigation loop: "n" moves forward and
 * wraps to the first image, "p" moves back and wraps from the first image
 * to the last.
 */
module Navigation {

  /** `image_idx = (image_idx + 1) % images.len()`. */
  function Next(idx: nat, len: nat): (r: nat)
    requires len > 0
    ensures r < len
  {
    (idx + 1) % len
  }

  /** `image_idx = if image_idx == 0 { images.len() - 1 } else { image_idx - 1 }`. */
  function Previous(idx: nat, len: nat): (r: nat)
    requires len > 0
    ensures idx <= len ==> r < len
  {
    if idx == 0 then len - 1 else idx - 1
  }

  /** `n` presses of "n". */
  function NextTimes(idx: nat, len: nat, n: nat): nat
    requires len > 0
  {
    if n == 0 then idx else Next(NextTimes(idx, len, n - 1), len)
  }

  /** `n` presses of "p". */
  function PreviousTimes(idx: nat, len: nat, n: nat): nat
    requires len > 0
  {
    if n == 0 then idx else Previous(PreviousTimes(idx, len, n - 1), len)
  }

  /** Below the last image, "n" is a plain step forward; at the last image it wraps to the first. */
  lemma NextSteps(idx: nat, len: nat)
    requires idx < len
    ensures Next(idx, len) == if idx + 1 < len then idx + 1 else 0
  {
    if idx + 1 == len {
      assert (idx + 1) % len == len % len == 0;
    }
  }

  lemma {:induction false} NextTimesAdd(idx: nat, len: nat, a: nat, b: nat)
    requires len > 0
    ensures NextTimes(idx, len, a + b) == NextTimes(NextTimes(idx, len, a), len, b)
  {
    if b > 0 {
      NextTimesAdd(idx, len, a, b - 1);
    }
  }

  lemma {:induction false} NextTimesBelowEnd(idx: nat, len: nat, k: nat)
    requires idx + k < len
    ensures NextTimes(idx, len, k) == idx + k
  {
    if k > 0 {
      NextTimesBelowEnd(idx, len, k - 1);
      NextSteps(idx + k - 1, len);
    }
  }

  lemma {:induction false} PreviousTimesAdd(idx: nat, len: nat, a: nat, b: nat)
    requires len > 0
    ensures PreviousTimes(idx, len, a + b) == PreviousTimes(PreviousTimes(idx, len, a), len, b)
  {
    if b > 0 {
      PreviousTimesAdd(idx, len, a, b - 1);
    }
  }

  lemma {:induction false} PreviousTimesAboveStart(idx: nat, len: nat, k: nat)
    requires k <= idx < len
    ensures PreviousTimes(idx, len, k) == idx - k
  {
    if k > 0 {
      PreviousTimesAboveStart(idx, len, k - 1);
    }
  }

  /** Going back once from an index in range stays in range and is undone by going forward once, and conversely. */
  lemma {:induction false} NextAndPreviousAreInverse(idx: nat, len: nat)
    requires idx < len
    ensures Previous(Next(idx, len), len) == idx
    ensures Next(Previous(idx, len), len) == idx
  {
    NextSteps(idx, len);
    NextSteps(Previous(idx, len), len);
  }

  /** Pressing "n" as many times as there are images comes back to the same image. */
  lemma {:induction false} NextCycles(idx: nat, len: nat)
    requires idx < len
    ensures NextTimes(idx, len, len) == idx
  {
    var toLast := len - 1 - idx;
    NextTimesBelowEnd(idx, len, toLast);
    NextTimesAdd(idx, len, toLast, 1);
    NextSteps(len - 1, len);
    NextTimesAdd(idx, len, toLast + 1, idx);
    NextTimesBelowEnd(0, len, idx);
  }

  /** Pressing "p" as many times as there are images comes back to the same image. */
  lemma {:induction false} PreviousCycles(idx: nat, len: nat)
    requires idx < len
    ensures PreviousTimes(idx, len, len) == idx
  {
    PreviousTimesAboveStart(idx, len, idx);
    PreviousTimesAdd(idx, len, idx, 1);
    PreviousTimesAdd(idx, len, idx + 1, len - 1 - idx);
    PreviousTimesAboveStart(len - 1, len, len - 1 - idx);
  }
}
