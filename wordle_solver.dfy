/**
 * The solver state: the answer, the hints gathered so far and the guess and
 * answer lists still consistent with them. Making a guess narrows both lists;
 * scoring a guess groups the remaining answers by the feedback they would give.
 */
module WordleSolver {
  import opened Common
  import opened WordleFeedback
  import opened WordleHints

  /** `[w for w in words if is_valid(w, hints)]` */
  function KeepValid(words: seq<string>, green: map<int, char>, yellow: map<char, seq<int>>,
                     gray: set<char>, maxInstances: map<char, int>): (r: seq<string>)
    ensures forall w :: w in r <==> w in words && IsValid(w, green, yellow, gray, maxInstances)
    ensures forall w :: multiset(r)[w] == if IsValid(w, green, yellow, gray, maxInstances) then multiset(words)[w] else 0
    ensures Subsequence(r, words)
  {
    if words == [] then []
    else
      var rest := KeepValid(words[1..], green, yellow, gray, maxInstances);
      assert words == [words[0]] + words[1..];
      if IsValid(words[0], green, yellow, gray, maxInstances) then [words[0]] + rest else rest
  }

  /** `bucket_counts[p]` of a `defaultdict(int)`: a missing pattern reads as zero. */
  function GetCount(m: map<string, nat>, p: string): nat {
    if p in m then m[p] else 0
  }

  /** The targets among `targets` whose feedback for `guess` is `p`. */
  function PatternCount(guess: string, targets: seq<string>, p: string): nat {
    if targets == [] then 0
    else PatternCount(guess, targets[..|targets| - 1], p) + (if Feedback(guess, targets[|targets| - 1]) == p then 1 else 0)
  }

  /** One more target adds one to the count of its own pattern and nothing to the others. */
  lemma PatternCountStep(guess: string, targets: seq<string>, t: nat, p: string)
    requires t < |targets|
    ensures PatternCount(guess, targets[..t + 1], p) ==
              PatternCount(guess, targets[..t], p) + (if Feedback(guess, targets[t]) == p then 1 else 0)
  {
    assert targets[..t + 1][..t] == targets[..t];
  }

  /** The bucket sizes summed over `keys`. */
  function Total(keys: seq<string>, m: map<string, nat>): nat {
    if keys == [] then 0 else Total(keys[..|keys| - 1], m) + GetCount(m, keys[|keys| - 1])
  }

  /** The squared bucket sizes summed over `keys`. */
  function SquareTotal(keys: seq<string>, m: map<string, nat>): nat {
    if keys == [] then 0
    else SquareTotal(keys[..|keys| - 1], m) + GetCount(m, keys[|keys| - 1]) * GetCount(m, keys[|keys| - 1])
  }

  /** Changing the bucket of a pattern not among `keys` leaves their total alone. */
  lemma {:induction false} TotalIgnoresOthers(keys: seq<string>, m: map<string, nat>, p: string, v: nat)
    requires p !in keys
    ensures Total(keys, m[p := v]) == Total(keys, m)
  {
    if keys != [] {
      TotalIgnoresOthers(keys[..|keys| - 1], m, p, v);
    }
  }

  /** Growing the bucket of one of `keys` (each listed once) by one grows their total by one. */
  lemma {:induction false} TotalBump(keys: seq<string>, m: map<string, nat>, p: string)
    requires Distinct(keys) && p in keys
    ensures Total(keys, m[p := GetCount(m, p) + 1]) == Total(keys, m) + 1
  {
    var init := keys[..|keys| - 1];
    var last := keys[|keys| - 1];
    assert Distinct(init);
    if last == p {
      assert p !in init;
      TotalIgnoresOthers(init, m, p, GetCount(m, p) + 1);
    } else {
      assert p in init;
      TotalBump(init, m, p);
    }
  }

  /** The squared sizes are at least the sizes and at most the square of their total. */
  lemma {:induction false} SquareTotalBounds(keys: seq<string>, m: map<string, nat>)
    ensures Total(keys, m) <= SquareTotal(keys, m) <= Total(keys, m) * Total(keys, m)
  {
    if keys != [] {
      var init := keys[..|keys| - 1];
      var v := GetCount(m, keys[|keys| - 1]);
      SquareTotalBounds(init, m);
      SquareStep(Total(init, m), SquareTotal(init, m), v);
    }
  }

  /** Adding one more size `v` keeps the sum of squares between the sum and its square. */
  lemma SquareStep(s: nat, q: nat, v: nat)
    requires s <= q <= s * s
    ensures s + v <= q + v * v <= (s + v) * (s + v)
  {
    assert v <= v * v by {
      if v > 0 {
        assert v * v == v * (v - 1) + v;
      }
    }
    assert (s + v) * (s + v) == s * s + 2 * (s * v) + v * v;
  }

  /** `keys` and `counts` bucket the first `t` targets by their feedback for `guess`. */
  ghost predicate BucketsUpTo(guess: string, targets: seq<string>, t: nat, keys: seq<string>, counts: map<string, nat>)
    requires t <= |targets|
  {
    && Distinct(keys)
    && (forall p :: p in counts <==> p in keys)
    && (forall p :: GetCount(counts, p) == PatternCount(guess, targets[..t], p))
    && Total(keys, counts) == t
  }

  /** Counting one more target into its pattern's bucket, new or existing, buckets one more target. */
  lemma BucketStep(guess: string, targets: seq<string>, t: nat, keys: seq<string>, counts: map<string, nat>)
    requires t < |targets| && BucketsUpTo(guess, targets, t, keys, counts)
    ensures var p := Feedback(guess, targets[t]);
            if p in counts then BucketsUpTo(guess, targets, t + 1, keys, counts[p := GetCount(counts, p) + 1])
            else BucketsUpTo(guess, targets, t + 1, keys + [p], counts[p := 1])
  {
    var p := Feedback(guess, targets[t]);
    var keys', counts' := keys, counts[p := GetCount(counts, p) + 1];
    if p in counts {
      TotalBump(keys, counts, p);
    } else {
      TotalIgnoresOthers(keys, counts, p, 1);
      assert (keys + [p])[..|keys|] == keys;
      keys' := keys + [p];
    }
    forall q ensures GetCount(counts', q) == PatternCount(guess, targets[..t + 1], q) {
      PatternCountStep(guess, targets, t, q);
    }
  }

  /**
   * The bucket pass of `evaluate_guess`: the distinct feedback patterns of
   * `guess` against the targets, in first-seen order, each with the number of
   * targets that produce it; the sizes add up to the number of targets.
   */
  method Buckets(guess: string, targets: seq<string>) returns (keys: seq<string>, counts: map<string, nat>)
    ensures Distinct(keys)
    ensures forall p :: p in counts <==> p in keys
    ensures forall p :: GetCount(counts, p) == PatternCount(guess, targets, p)
    ensures Total(keys, counts) == |targets|
  {
    keys := [];
    counts := map[];
    for t := 0 to |targets|
      invariant BucketsUpTo(guess, targets, t, keys, counts)
    {
      var p := SimulateFeedback(guess, targets[t]);
      BucketStep(guess, targets, t, keys, counts);
      if p in counts {
        counts := counts[p := GetCount(counts, p) + 1];
      } else {
        counts := counts[p := 1];
        keys := keys + [p];
      }
    }
    assert targets[..|targets|] == targets;
  }

  class Solver {
    const hardMode: bool
    const answer: string
    const guesses: seq<string>
    const possibleGuesses: seq<string>
    const possibleAnswers: seq<string>
    const hints: Hints
    var validGuesses: seq<string>
    var validAnswers: seq<string>

    /** A fresh solver: empty hints, every word list still complete. */
    constructor (hardMode: bool, answer: string, guesses: seq<string>,
                 possibleGuesses: seq<string>, possibleAnswers: seq<string>)
      ensures this.hardMode == hardMode && this.answer == answer && this.guesses == guesses
      ensures this.possibleGuesses == possibleGuesses && this.possibleAnswers == possibleAnswers
      ensures fresh(hints)
      ensures hints.green == map[] && hints.yellow == map[] && hints.gray == {} && hints.maxInstances == map[]
      ensures validGuesses == possibleGuesses && validAnswers == possibleAnswers
    {
      this.hardMode := hardMode;
      this.answer := answer;
      this.guesses := guesses;
      this.possibleGuesses := possibleGuesses;
      this.possibleAnswers := possibleAnswers;
      hints := new Hints(map[], map[], {}, map[]);
      validGuesses := possibleGuesses;
      validAnswers := possibleAnswers;
    }

    /** The current hints admit `word`. */
    predicate Admits(word: string)
      reads hints
    {
      IsValid(word, hints.green, hints.yellow, hints.gray, hints.maxInstances)
    }

    /**
     * `make_guess`: records the hints from the guess's feedback against the
     * answer, then keeps only the words the hints still admit, in order. An
     * admitted answer of the guess's length is never dropped.
     */
    method MakeGuess(guess: string)
      modifies this`validGuesses, this`validAnswers, hints
      ensures var fb := Feedback(guess, answer);
              var n := Min(|fb|, |guess|);
              && hints.green == GreensAfter(old(hints.green), fb, guess, n)
              && hints.yellow == YellowsAfter(old(hints.yellow), fb, guess, n)
              && hints.gray == old(hints.gray) + GrayLetters(fb, guess, n)
              && hints.maxInstances == MaxAfter(old(hints.maxInstances), fb, guess, n, guess)
      ensures validGuesses == KeepValid(old(validGuesses), hints.green, hints.yellow, hints.gray, hints.maxInstances)
      ensures validAnswers == KeepValid(old(validAnswers), hints.green, hints.yellow, hints.gray, hints.maxInstances)
      ensures Subsequence(validGuesses, old(validGuesses)) && Subsequence(validAnswers, old(validAnswers))
      ensures |guess| == |answer| && old(Admits(answer)) ==> Admits(answer)
      ensures |guess| == |answer| && old(Admits(answer)) && answer in old(validAnswers) ==> answer in validAnswers
    {
      var fb := SimulateFeedback(guess, answer);
      ghost var before := (hints.green, hints.yellow, hints.gray, hints.maxInstances);
      hints.AddHintsFromFeedback(fb, guess);
      if |guess| == |answer| && IsValid(answer, before.0, before.1, before.2, before.3) {
        AnswerStaysValid(guess, answer, before.0, before.1, before.2, before.3);
      }
      validGuesses := KeepValid(validGuesses, hints.green, hints.yellow, hints.gray, hints.maxInstances);
      validAnswers := KeepValid(validAnswers, hints.green, hints.yellow, hints.gray, hints.maxInstances);
    }

    /**
     * The integer part of `evaluate_guess`: groups the remaining answers by the
     * feedback `guess` would get from each, and returns the sum of the squared
     * group sizes (the score is that sum divided by the number of answers);
     * `keys` and `counts` name the groups it summed over. It is 0 when no answer remains, and otherwise lies between the number of
     * answers and its square.
     */
    method BucketSquares(guess: string) returns (total: nat, ghost keys: seq<string>, ghost counts: map<string, nat>)
      ensures Distinct(keys) && forall p :: p in counts <==> p in keys
      ensures forall p :: GetCount(counts, p) == PatternCount(guess, validAnswers, p)
      ensures total == SquareTotal(keys, counts)
      ensures |validAnswers| == 0 ==> total == 0
      ensures |validAnswers| <= total <= |validAnswers| * |validAnswers|
    {
      var targets := validAnswers;
      if |targets| == 0 {
        return 0, [], map[];
      }
      var ks, cs := Buckets(guess, targets);
      keys, counts := ks, cs;
      total := 0;
      for k := 0 to |ks|
        invariant total == SquareTotal(ks[..k], cs)
      {
        assert ks[..k + 1][..k] == ks[..k];
        total := total + GetCount(cs, ks[k]) * GetCount(cs, ks[k]);
      }
      assert ks[..|ks|] == ks;
      SquareTotalBounds(ks, cs);
    }
  }
}
