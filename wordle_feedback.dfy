/**
 * Wordle colouring of a guess against a target, with repeated letters: exact
 * matches are green first, then the remaining occurrences of each letter in
 * the target are handed out as yellows from left to right, and every other
 * position is gray ('B').
 */
module WordleFeedback {
  import opened Common

  const Green: char := 'G'
  const Yellow: char := 'Y'
  const Gray: char := 'B'

  /** Occurrences of `c` in `s` (`Counter(s)[c]`). */
  function Count(s: string, c: char): nat {
    if s == [] then 0 else Count(s[..|s| - 1], c) + (if s[|s| - 1] == c then 1 else 0)
  }

  /** `Counter(s)[c]` for a dict-backed counter: a missing key reads as zero. */
  function Get(m: map<char, int>, c: char): int {
    if c in m then m[c] else 0
  }

  /** Position `i` of the guess matches the target exactly (`zip` stops at the shorter word). */
  predicate IsGreen(guess: string, target: string, i: nat)
    requires i < |guess|
  {
    i < |target| && guess[i] == target[i]
  }

  /** Green positions holding `c` among the first `n` positions of the guess. */
  function GreenCount(guess: string, target: string, c: char, n: nat): nat
    requires n <= |guess|
  {
    if n == 0 then 0
    else GreenCount(guess, target, c, n - 1) + (if guess[n - 1] == c && IsGreen(guess, target, n - 1) then 1 else 0)
  }

  /** Non-green positions holding `c` among the first `n` positions of the guess. */
  function NonGreenCount(guess: string, target: string, c: char, n: nat): nat
    requires n <= |guess|
  {
    if n == 0 then 0
    else NonGreenCount(guess, target, c, n - 1) + (if guess[n - 1] == c && !IsGreen(guess, target, n - 1) then 1 else 0)
  }

  /** Copies of `c` in the target that no green accounts for: the yellows `c` can still receive. */
  function Available(guess: string, target: string, c: char): int {
    Count(target, c) - GreenCount(guess, target, c, |guess|)
  }

  /**
   * The mark of position `i`: green on an exact match; otherwise yellow while
   * the earlier non-green occurrences of the letter have not used up its
   * available copies, gray after.
   */
  function Mark(guess: string, target: string, i: nat): char
    requires i < |guess|
  {
    if IsGreen(guess, target, i) then Green
    else if NonGreenCount(guess, target, guess[i], i) < Available(guess, target, guess[i]) then Yellow
    else Gray
  }

  /** The feedback string for the whole guess. */
  function Feedback(guess: string, target: string): (r: string)
    ensures |r| == |guess|
    ensures forall i :: 0 <= i < |r| ==> r[i] in {Green, Yellow, Gray}
    ensures forall i :: 0 <= i < |r| ==> (r[i] == Green <==> i < |target| && guess[i] == target[i])
  {
    seq(|guess|, i requires 0 <= i < |guess| => Mark(guess, target, i))
  }

  /** `simulate_feedback`: greens in a first pass, then yellows left to right from the remaining counts. */
  method SimulateFeedback(guess: string, target: string) returns (fb: string)
    ensures fb == Feedback(guess, target)
  {
    var pattern, remaining := MarkGreens(guess, target);
    fb := MarkYellows(guess, target, pattern, remaining);
  }

  /**
   * The first pass: every exact match is green, everything else gray, and
   * each green uses up one copy of its letter from the target's counts.
   */
  method MarkGreens(guess: string, target: string) returns (pattern: string, remaining: map<char, int>)
    ensures |pattern| == |guess|
    ensures forall j :: 0 <= j < |guess| ==> pattern[j] == (if IsGreen(guess, target, j) then Green else Gray)
    ensures forall c :: Get(remaining, c) == Available(guess, target, c)
  {
    pattern := seq(|guess|, _ => Gray);
    remaining := map c | c in target :: Count(target, c);
    forall c ensures Get(remaining, c) == Count(target, c) {
      if c !in target {
        CountAbsent(target, c);
      }
    }
    var m := Min(|guess|, |target|);
    for i := 0 to m
      invariant |pattern| == |guess|
      invariant forall j :: 0 <= j < |guess| ==>
                  pattern[j] == (if j < i && IsGreen(guess, target, j) then Green else Gray)
      invariant forall c :: Get(remaining, c) == Count(target, c) - GreenCount(guess, target, c, i)
    {
      if guess[i] == target[i] {
        pattern := pattern[i := Green];
        remaining := remaining[guess[i] := Get(remaining, guess[i]) - 1];
      }
    }
    forall c ensures Get(remaining, c) == Available(guess, target, c) {
      GreensStopAtTarget(guess, target, c, |guess|);
    }
  }

  /**
   * The second pass, left to right: a gray position turns yellow while its
   * letter still has a remaining copy, and uses that copy up.
   */
  method MarkYellows(guess: string, target: string, greens: string, counts: map<char, int>) returns (pattern: string)
    requires |greens| == |guess|
    requires forall j :: 0 <= j < |guess| ==> greens[j] == (if IsGreen(guess, target, j) then Green else Gray)
    requires forall c :: Get(counts, c) == Available(guess, target, c)
    ensures pattern == Feedback(guess, target)
  {
    pattern := greens;
    var remaining := counts;
    forall c ensures Get(remaining, c) ==
        Available(guess, target, c) - Min(NonGreenCount(guess, target, c, 0), Available(guess, target, c)) {
      AvailableNonNegative(guess, target, c);
    }
    for i := 0 to |guess|
      invariant |pattern| == |guess|
      invariant forall j :: 0 <= j < i ==> pattern[j] == Mark(guess, target, j)
      invariant forall j :: i <= j < |guess| ==> pattern[j] == greens[j]
      invariant forall c :: Get(remaining, c) ==
                  Available(guess, target, c) - Min(NonGreenCount(guess, target, c, i), Available(guess, target, c))
    {
      var c := guess[i];
      if pattern[i] == Gray && Get(remaining, c) > 0 {
        pattern := pattern[i := Yellow];
        remaining := remaining[c := Get(remaining, c) - 1];
      }
    }
  }

  /** A letter that does not occur has count zero. */
  lemma {:induction false} CountAbsent(s: string, c: char)
    requires c !in s
    ensures Count(s, c) == 0
  {
    if s != [] {
      assert c !in s[..|s| - 1];
      CountAbsent(s[..|s| - 1], c);
    }
  }

  /** A prefix holds no more copies of a letter than the whole word. */
  lemma {:induction false} CountPrefix(s: string, c: char, k: nat)
    requires k <= |s|
    ensures Count(s[..k], c) <= Count(s, c)
    decreases |s| - k
  {
    if k == |s| {
      assert s[..k] == s;
    } else {
      assert s[..k + 1][..k] == s[..k];
      assert Count(s[..k + 1], c) >= Count(s[..k], c);
      CountPrefix(s, c, k + 1);
    }
  }

  /** Each green on `c` sits on a copy of `c` in the target. */
  lemma {:induction false} GreensWithinTarget(guess: string, target: string, c: char, n: nat)
    requires n <= |guess|
    ensures GreenCount(guess, target, c, n) <= Count(target[..Min(n, |target|)], c)
  {
    if n > 0 {
      GreensWithinTarget(guess, target, c, n - 1);
      if n - 1 < |target| {
        assert target[..n][..n - 1] == target[..n - 1];
      }
    }
  }

  /** No letter has more greens than copies in the target. */
  lemma AvailableNonNegative(guess: string, target: string, c: char)
    ensures Available(guess, target, c) >= 0
  {
    GreensWithinTarget(guess, target, c, |guess|);
    CountPrefix(target, c, Min(|guess|, |target|));
  }

  /** Past the end of the target nothing is green, so the green count stops growing there. */
  lemma {:induction false} GreensStopAtTarget(guess: string, target: string, c: char, n: nat)
    requires Min(|guess|, |target|) <= n <= |guess|
    ensures GreenCount(guess, target, c, n) == GreenCount(guess, target, c, Min(|guess|, |target|))
  {
    if n > Min(|guess|, |target|) {
      GreensStopAtTarget(guess, target, c, n - 1);
    }
  }

  /** Every occurrence of a letter in the guess is either green or not. */
  lemma {:induction false} OccurrencesSplit(guess: string, target: string, c: char, n: nat)
    requires n <= |guess|
    ensures GreenCount(guess, target, c, n) + NonGreenCount(guess, target, c, n) == Count(guess[..n], c)
  {
    if n > 0 {
      OccurrencesSplit(guess, target, c, n - 1);
      assert guess[..n][..n - 1] == guess[..n - 1];
    }
  }

  /** Positions among the first `n` that hold `c` and are marked green or yellow. */
  function HitCount(fb: string, guess: string, c: char, n: nat): nat
    requires n <= |fb| && n <= |guess|
  {
    if n == 0 then 0
    else HitCount(fb, guess, c, n - 1) + (if guess[n - 1] == c && fb[n - 1] in {Green, Yellow} then 1 else 0)
  }

  /** Up to position `n`, a letter has its greens plus as many yellows as its available copies allow. */
  lemma {:induction false} HitsUpTo(guess: string, target: string, fb: string, c: char, n: nat)
    requires |fb| == |guess| && n <= |guess|
    requires forall j :: 0 <= j < |guess| ==> fb[j] == Mark(guess, target, j)
    ensures HitCount(fb, guess, c, n) ==
              GreenCount(guess, target, c, n) + Min(NonGreenCount(guess, target, c, n), Available(guess, target, c))
  {
    if n == 0 {
      AvailableNonNegative(guess, target, c);
    } else {
      HitsUpTo(guess, target, fb, c, n - 1);
      var ng := NonGreenCount(guess, target, c, n - 1);
      var avail := Available(guess, target, c);
      assert fb[n - 1] == Mark(guess, target, n - 1);
      if guess[n - 1] != c {
        assert HitCount(fb, guess, c, n) == HitCount(fb, guess, c, n - 1);
      } else if IsGreen(guess, target, n - 1) {
        assert HitCount(fb, guess, c, n) == HitCount(fb, guess, c, n - 1) + 1;
      } else if ng < avail {
        assert fb[n - 1] == Yellow;
        assert HitCount(fb, guess, c, n) == HitCount(fb, guess, c, n - 1) + 1;
        assert NonGreenCount(guess, target, c, n) == ng + 1;
      } else {
        assert fb[n - 1] == Gray;
        assert HitCount(fb, guess, c, n) == HitCount(fb, guess, c, n - 1);
      }
    }
  }

  /**
   * For every letter, the green and yellow marks on it number the smaller of
   * its counts in the guess and in the target.
   */
  lemma LetterHits(guess: string, target: string, c: char)
    ensures HitCount(Feedback(guess, target), guess, c, |guess|) == Min(Count(guess, c), Count(target, c))
  {
    var fb := Feedback(guess, target);
    HitsUpTo(guess, target, fb, c, |guess|);
    OccurrencesSplit(guess, target, c, |guess|);
    assert guess[..|guess|] == guess;
  }

  /** A non-green occurrence of a letter raises its non-green count at every later position. */
  lemma {:induction false} NonGreenGrows(guess: string, target: string, j: nat, i: nat)
    requires j < i <= |guess|
    requires !IsGreen(guess, target, j)
    ensures NonGreenCount(guess, target, guess[j], i) >= NonGreenCount(guess, target, guess[j], j) + 1
  {
    if i > j + 1 {
      NonGreenGrows(guess, target, j, i - 1);
    }
  }

  /**
   * Yellows go left to right: when a non-green occurrence of a letter is
   * yellow, every earlier non-green occurrence of the same letter is yellow too.
   */
  lemma YellowsLeftToRight(guess: string, target: string, j: nat, i: nat)
    requires j < i < |guess| && guess[j] == guess[i]
    requires Feedback(guess, target)[j] != Green && Feedback(guess, target)[i] == Yellow
    ensures Feedback(guess, target)[j] == Yellow
  {
    NonGreenGrows(guess, target, j, i);
  }
}
