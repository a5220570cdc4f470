/**
 * The hints gathered from feedback: fixed letters by position (green), letters
 * known to be present but not at certain positions (yellow), letters marked
 * gray, and per-letter upper bounds on the number of copies.
 */
module WordleHints {
  import opened Common
  import opened WordleFeedback

  /** `yellow[c]` of a `defaultdict(list)` read without inserting: a missing key is the empty list. */
  function GetList(m: map<char, seq<int>>, c: char): seq<int> {
    if c in m then m[c] else []
  }

  /** The yellow positions of `c` among the first `n`, in increasing order. */
  function YellowPositions(fb: string, guess: string, c: char, n: nat): (r: seq<int>)
    requires n <= |fb| && n <= |guess|
    ensures forall k :: 0 <= k < |r| ==> 0 <= r[k] < n && fb[r[k]] == Yellow && guess[r[k]] == c
  {
    if n == 0 then []
    else YellowPositions(fb, guess, c, n - 1) + (if fb[n - 1] == Yellow && guess[n - 1] == c then [n - 1] else [])
  }

  /** Green hints after the first `n` marks: `green[i] = c` for each green position, in order. */
  function GreensAfter(green: map<int, char>, fb: string, guess: string, n: nat): map<int, char>
    requires n <= |fb| && n <= |guess|
  {
    if n == 0 then green
    else
      var before := GreensAfter(green, fb, guess, n - 1);
      if fb[n - 1] == Green then before[n - 1 := guess[n - 1]] else before
  }

  /** Yellow hints after the first `n` marks: `yellow[c].append(i)` for each yellow position, in order. */
  function YellowsAfter(yellow: map<char, seq<int>>, fb: string, guess: string, n: nat): map<char, seq<int>>
    requires n <= |fb| && n <= |guess|
  {
    if n == 0 then yellow
    else
      var before := YellowsAfter(yellow, fb, guess, n - 1);
      if fb[n - 1] == Yellow then before[guess[n - 1] := GetList(before, guess[n - 1]) + [n - 1]] else before
  }

  /** Letters of the guess marked gray among the first `n` positions. */
  function GrayLetters(fb: string, guess: string, n: nat): set<char>
    requires n <= |fb| && n <= |guess|
  {
    if n == 0 then {}
    else GrayLetters(fb, guess, n - 1) + (if fb[n - 1] == Gray then {guess[n - 1]} else {})
  }

  /**
   * Bounds after visiting `letters`: each one the guess uses more often than
   * the first `n` marks matched (green or yellow) is capped at the matched count.
   */
  function MaxAfter(maxInstances: map<char, int>, fb: string, guess: string, n: nat, letters: seq<char>): map<char, int>
    requires n <= |fb| && n <= |guess|
  {
    if letters == [] then maxInstances
    else
      var before := MaxAfter(maxInstances, fb, guess, n, letters[..|letters| - 1]);
      var c := letters[|letters| - 1];
      if Count(guess, c) > HitCount(fb, guess, c, n) then before[c := HitCount(fb, guess, c, n)] else before
  }

  /** Python's `word[p]`: negative positions count from the end; out of range raises. */
  function CharAt(word: string, p: int): (r: Option<char>)
    ensures r.Some? <==> -|word| <= p < |word|
    ensures 0 <= p < |word| ==> r == Some(word[p])
  {
    if 0 <= p < |word| then Some(word[p])
    else if -|word| <= p < 0 then Some(word[|word| + p])
    else None
  }

  /**
   * `is_valid`: a gray letter with a bound is within it and one without a
   * bound is absent; every green position holds its letter; every yellow
   * letter occurs and sits at none of its recorded positions. A position
   * outside the word counts as a mismatch. Hints with nothing recorded
   * admit every word, and an admitted word reaches every green position.
   */
  predicate IsValid(word: string, green: map<int, char>, yellow: map<char, seq<int>>,
                    gray: set<char>, maxInstances: map<char, int>)
    ensures green == map[] && yellow == map[] && gray == {} ==> IsValid(word, green, yellow, gray, maxInstances)
    ensures IsValid(word, green, yellow, gray, maxInstances) ==> forall p :: p in green ==> -|word| <= p < |word|
  {
    && (forall c :: c in gray ==> if c in maxInstances then Count(word, c) <= maxInstances[c] else c !in word)
    && (forall p :: p in green ==> CharAt(word, p) == Some(green[p]))
    && (forall c :: c in yellow ==>
          && c in word
          && forall k :: 0 <= k < |yellow[c]| ==> CharAt(word, yellow[c][k]).Some? && CharAt(word, yellow[c][k]) != Some(c))
  }

  class Hints {
    var green: map<int, char>
    var yellow: map<char, seq<int>>
    var gray: set<char>
    var maxInstances: map<char, int>

    /** Hints start from the given collections (all empty by default). */
    constructor (green: map<int, char>, yellow: map<char, seq<int>>, gray: set<char>, maxInstances: map<char, int>)
      ensures this.green == green && this.yellow == yellow && this.gray == gray && this.maxInstances == maxInstances
    {
      this.green := green;
      this.yellow := yellow;
      this.gray := gray;
      this.maxInstances := maxInstances;
    }

    /** Every letter with a bound is gray (the invariant the hint engine relies on). */
    ghost predicate BoundsAreGray()
      reads this
    {
      forall c :: c in maxInstances ==> c in gray
    }

    /**
     * `add_hints_from_feedback`: walks the feedback and the guess together
     * (as far as the shorter goes) recording green, yellow and gray hints and
     * counting matched copies per letter, then bounds every letter the guess
     * uses more often than it was matched.
     */
    method AddHintsFromFeedback(fb: string, guess: string)
      modifies this
      ensures green == GreensAfter(old(green), fb, guess, Min(|fb|, |guess|))
      ensures yellow == YellowsAfter(old(yellow), fb, guess, Min(|fb|, |guess|))
      ensures gray == old(gray) + GrayLetters(fb, guess, Min(|fb|, |guess|))
      ensures maxInstances == MaxAfter(old(maxInstances), fb, guess, Min(|fb|, |guess|), guess)
      ensures |fb| == |guess| && (forall i :: 0 <= i < |fb| ==> fb[i] in {Green, Yellow, Gray}) && old(BoundsAreGray()) ==>
                BoundsAreGray()
    {
      var n := Min(|fb|, |guess|);
      var used: map<char, int> := map[];
      for i := 0 to n
        invariant green == GreensAfter(old(green), fb, guess, i)
        invariant yellow == YellowsAfter(old(yellow), fb, guess, i)
        invariant gray == old(gray) + GrayLetters(fb, guess, i)
        invariant maxInstances == old(maxInstances)
        invariant forall c :: Get(used, c) == HitCount(fb, guess, c, i)
      {
        var c := guess[i];
        if fb[i] == Green {
          green := green[i := c];
          used := used[c := Get(used, c) + 1];
        } else if fb[i] == Yellow {
          yellow := yellow[c := GetList(yellow, c) + [i]];
          used := used[c := Get(used, c) + 1];
        } else if fb[i] == Gray {
          gray := gray + {c};
        }
      }
      for k := 0 to |guess|
        invariant green == GreensAfter(old(green), fb, guess, n)
        invariant yellow == YellowsAfter(old(yellow), fb, guess, n)
        invariant gray == old(gray) + GrayLetters(fb, guess, n)
        invariant maxInstances == MaxAfter(old(maxInstances), fb, guess, n, guess[..k])
      {
        var c := guess[k];
        assert guess[..k + 1][..k] == guess[..k];
        if Count(guess, c) > Get(used, c) {
          maxInstances := maxInstances[c := Get(used, c)];
        }
      }
      assert guess[..|guess|] == guess;
      if |fb| == |guess| && (forall i :: 0 <= i < |fb| ==> fb[i] in {Green, Yellow, Gray}) && old(BoundsAreGray()) {
        BoundsStayGray(fb, guess, old(gray), old(maxInstances));
      }
    }
  }

  /** The green hints after `n` marks: the starting ones, overridden at every green position by the guessed letter. */
  lemma {:induction false} GreensMeaning(green: map<int, char>, fb: string, guess: string, n: nat, k: int)
    requires n <= |fb| && n <= |guess|
    ensures k in GreensAfter(green, fb, guess, n) <==> k in green || (0 <= k < n && fb[k] == Green)
    ensures k in GreensAfter(green, fb, guess, n) ==>
              GreensAfter(green, fb, guess, n)[k] == if 0 <= k < n && fb[k] == Green then guess[k] else green[k]
  {
    if n > 0 {
      GreensMeaning(green, fb, guess, n - 1, k);
    }
  }

  /** The yellow hints after `n` marks: each letter's starting list followed by its yellow positions. */
  lemma {:induction false} YellowsMeaning(yellow: map<char, seq<int>>, fb: string, guess: string, n: nat, c: char)
    requires n <= |fb| && n <= |guess|
    ensures c in YellowsAfter(yellow, fb, guess, n) <==> c in yellow || YellowPositions(fb, guess, c, n) != []
    ensures c in YellowsAfter(yellow, fb, guess, n) ==>
              YellowsAfter(yellow, fb, guess, n)[c] == GetList(yellow, c) + YellowPositions(fb, guess, c, n)
  {
    if n > 0 {
      YellowsMeaning(yellow, fb, guess, n - 1, c);
      var before := YellowsAfter(yellow, fb, guess, n - 1);
      var prior := YellowPositions(fb, guess, c, n - 1);
      var after := YellowsAfter(yellow, fb, guess, n);
      if fb[n - 1] == Yellow && guess[n - 1] == c {
        assert c in after && after[c] == GetList(yellow, c) + YellowPositions(fb, guess, c, n) by {
          assert YellowPositions(fb, guess, c, n) == prior + [n - 1];
          assert after == before[c := GetList(before, c) + [n - 1]];
          assert GetList(before, c) == GetList(yellow, c) + prior;
          assert (GetList(yellow, c) + prior) + [n - 1] == GetList(yellow, c) + (prior + [n - 1]);
        }
      } else {
        assert YellowPositions(fb, guess, c, n) == prior;
        assert (c in after <==> c in before) && (c in before ==> after[c] == before[c]);
      }
    }
  }

  /** A letter is gray after `n` marks exactly when one of its occurrences there is marked gray. */
  lemma {:induction false} GraysMeaning(fb: string, guess: string, n: nat, c: char)
    requires n <= |fb| && n <= |guess|
    ensures c in GrayLetters(fb, guess, n) <==> exists i :: 0 <= i < n && fb[i] == Gray && guess[i] == c
  {
    if n > 0 {
      GraysMeaning(fb, guess, n - 1, c);
    }
  }

  /** After visiting `letters`, exactly the overused ones among them carry their matched count. */
  lemma {:induction false} MaxMeaning(maxInstances: map<char, int>, fb: string, guess: string, n: nat,
                                      letters: seq<char>, c: char)
    requires n <= |fb| && n <= |guess|
    ensures c in MaxAfter(maxInstances, fb, guess, n, letters) <==>
              c in maxInstances || (c in letters && Count(guess, c) > HitCount(fb, guess, c, n))
    ensures c in MaxAfter(maxInstances, fb, guess, n, letters) ==>
              MaxAfter(maxInstances, fb, guess, n, letters)[c] ==
                if c in letters && Count(guess, c) > HitCount(fb, guess, c, n) then HitCount(fb, guess, c, n)
                else maxInstances[c]
  {
    if letters != [] {
      var init := letters[..|letters| - 1];
      MaxMeaning(maxInstances, fb, guess, n, init, c);
      assert letters == init + [letters[|letters| - 1]];
    }
  }

  /**
   * Occurrences of a letter that are matched never outnumber its occurrences;
   * a gray one leaves them strictly fewer, and when every mark is green,
   * yellow or gray, strictly fewer means some occurrence is gray.
   */
  lemma {:induction false} UnmatchedMeansGray(fb: string, guess: string, c: char, n: nat)
    requires n <= |fb| && n <= |guess|
    ensures HitCount(fb, guess, c, n) <= Count(guess[..n], c)
    ensures (exists i :: 0 <= i < n && fb[i] == Gray && guess[i] == c) ==>
              HitCount(fb, guess, c, n) < Count(guess[..n], c)
    ensures (forall i :: 0 <= i < n ==> fb[i] in {Green, Yellow, Gray}) &&
            HitCount(fb, guess, c, n) < Count(guess[..n], c) ==>
              exists i :: 0 <= i < n && fb[i] == Gray && guess[i] == c
  {
    if n > 0 {
      UnmatchedMeansGray(fb, guess, c, n - 1);
      assert guess[..n][..n - 1] == guess[..n - 1];
      assert Count(guess[..n], c) == Count(guess[..n - 1], c) + (if guess[n - 1] == c then 1 else 0);
    }
  }

  /**
   * For complete feedback (one mark per letter, each green, yellow or gray)
   * every letter that ends up with a bound is gray, so the bounds-are-gray
   * invariant survives `add_hints_from_feedback`.
   */
  lemma BoundsStayGray(fb: string, guess: string, gray: set<char>, maxInstances: map<char, int>)
    requires |fb| == |guess|
    requires forall i :: 0 <= i < |fb| ==> fb[i] in {Green, Yellow, Gray}
    requires forall c :: c in maxInstances ==> c in gray
    ensures forall c :: c in MaxAfter(maxInstances, fb, guess, |guess|, guess) ==>
              c in gray + GrayLetters(fb, guess, |guess|)
  {
    var n := |guess|;
    forall c | c in MaxAfter(maxInstances, fb, guess, n, guess)
      ensures c in gray + GrayLetters(fb, guess, n)
    {
      MaxMeaning(maxInstances, fb, guess, n, guess, c);
      if c !in maxInstances {
        UnmatchedMeansGray(fb, guess, c, n);
        assert guess[..n] == guess;
        GraysMeaning(fb, guess, n, c);
      }
    }
  }

  /** A letter with a positive count occurs in the word. */
  lemma CountPositive(s: string, c: char)
    requires Count(s, c) > 0
    ensures c in s
  {
    if c !in s {
      CountAbsent(s, c);
    }
  }

  /** The gray and bound hints from the true feedback of an equal-length guess still admit the answer. */
  lemma GraysStayValid(guess: string, answer: string, gray: set<char>, maxInstances: map<char, int>, c: char)
    requires |guess| == |answer|
    requires forall d :: d in gray ==> if d in maxInstances then Count(answer, d) <= maxInstances[d] else d !in answer
    requires c in gray + GrayLetters(Feedback(guess, answer), guess, |guess|)
    ensures var bounds := MaxAfter(maxInstances, Feedback(guess, answer), guess, |guess|, guess);
            if c in bounds then Count(answer, c) <= bounds[c] else c !in answer
  {
    var fb := Feedback(guess, answer);
    var n := |guess|;
    var hits := HitCount(fb, guess, c, n);
    MaxMeaning(maxInstances, fb, guess, n, guess, c);
    LetterHits(guess, answer, c);
    UnmatchedMeansGray(fb, guess, c, n);
    GraysMeaning(fb, guess, n, c);
    assert guess[..n] == guess;
    if c in guess && Count(guess, c) > hits {
      assert hits == Count(answer, c);
    } else {
      assert c in gray;
    }
  }

  /** The green hints from the true feedback of an equal-length guess still admit the answer. */
  lemma GreensStayValid(guess: string, answer: string, green: map<int, char>, p: int)
    requires |guess| == |answer|
    requires forall q :: q in green ==> CharAt(answer, q) == Some(green[q])
    requires p in GreensAfter(green, Feedback(guess, answer), guess, |guess|)
    ensures CharAt(answer, p) == Some(GreensAfter(green, Feedback(guess, answer), guess, |guess|)[p])
  {
    GreensMeaning(green, Feedback(guess, answer), guess, |guess|, p);
  }

  /** A letter with a yellow mark in the true feedback occurs in the answer. */
  lemma YellowLetterOccurs(guess: string, answer: string, c: char)
    requires |guess| == |answer|
    requires YellowPositions(Feedback(guess, answer), guess, c, |guess|) != []
    ensures c in answer
  {
    var x := YellowPositions(Feedback(guess, answer), guess, c, |guess|)[0];
    assert Feedback(guess, answer)[x] == Mark(guess, answer, x);
    AvailableNonNegative(guess, answer, c);
    CountPositive(answer, c);
  }

  /** The answer does not hold a letter at any position where the true feedback marks it yellow. */
  lemma YellowPositionsMiss(guess: string, answer: string, c: char)
    requires |guess| == |answer|
    ensures var added := YellowPositions(Feedback(guess, answer), guess, c, |guess|);
            forall k :: 0 <= k < |added| ==> CharAt(answer, added[k]).Some? && CharAt(answer, added[k]) != Some(c)
  {
    var fb := Feedback(guess, answer);
    var added := YellowPositions(fb, guess, c, |guess|);
    forall k | 0 <= k < |added| ensures CharAt(answer, added[k]).Some? && CharAt(answer, added[k]) != Some(c) {
      var x := added[k];
      assert fb[x] == Yellow && guess[x] == c && x < |answer|;
    }
  }

  /** The yellow hints from the true feedback of an equal-length guess still admit the answer. */
  lemma YellowsStayValid(guess: string, answer: string, yellow: map<char, seq<int>>, c: char)
    requires |guess| == |answer|
    requires forall d :: d in yellow ==>
               && d in answer
               && forall k :: 0 <= k < |yellow[d]| ==> CharAt(answer, yellow[d][k]).Some? && CharAt(answer, yellow[d][k]) != Some(d)
    requires c in YellowsAfter(yellow, Feedback(guess, answer), guess, |guess|)
    ensures var list := YellowsAfter(yellow, Feedback(guess, answer), guess, |guess|)[c];
            && c in answer
            && forall k :: 0 <= k < |list| ==> CharAt(answer, list[k]).Some? && CharAt(answer, list[k]) != Some(c)
  {
    var fb := Feedback(guess, answer);
    YellowsMeaning(yellow, fb, guess, |guess|, c);
    if c !in yellow {
      YellowLetterOccurs(guess, answer, c);
    }
    YellowPositionsMiss(guess, answer, c);
    MissesConcat(answer, c, GetList(yellow, c), YellowPositions(fb, guess, c, |guess|));
  }

  /** Two lists of positions where `word` does not hold `c` join into one. */
  lemma MissesConcat(word: string, c: char, xs: seq<int>, ys: seq<int>)
    requires forall k :: 0 <= k < |xs| ==> CharAt(word, xs[k]).Some? && CharAt(word, xs[k]) != Some(c)
    requires forall k :: 0 <= k < |ys| ==> CharAt(word, ys[k]).Some? && CharAt(word, ys[k]) != Some(c)
    ensures var zs := xs + ys;
            forall k :: 0 <= k < |zs| ==> CharAt(word, zs[k]).Some? && CharAt(word, zs[k]) != Some(c)
  {
    var zs := xs + ys;
    forall k | 0 <= k < |zs| ensures CharAt(word, zs[k]).Some? && CharAt(word, zs[k]) != Some(c) {
      if k < |xs| {
        assert zs[k] == xs[k];
      } else {
        assert zs[k] == ys[k - |xs|];
      }
    }
  }

  /**
   * Hints built from the true feedback of an equal-length guess never rule
   * out the answer: if it was admitted before, it is admitted after.
   */
  lemma AnswerStaysValid(guess: string, answer: string, green: map<int, char>, yellow: map<char, seq<int>>,
                         gray: set<char>, maxInstances: map<char, int>)
    requires |guess| == |answer|
    requires IsValid(answer, green, yellow, gray, maxInstances)
    ensures var fb := Feedback(guess, answer);
            IsValid(answer, GreensAfter(green, fb, guess, |guess|), YellowsAfter(yellow, fb, guess, |guess|),
                    gray + GrayLetters(fb, guess, |guess|), MaxAfter(maxInstances, fb, guess, |guess|, guess))
  {
    var fb := Feedback(guess, answer);
    forall c | c in gray + GrayLetters(fb, guess, |guess|)
      ensures var bounds := MaxAfter(maxInstances, fb, guess, |guess|, guess);
              if c in bounds then Count(answer, c) <= bounds[c] else c !in answer
    {
      GraysStayValid(guess, answer, gray, maxInstances, c);
    }
    forall p | p in GreensAfter(green, fb, guess, |guess|)
      ensures CharAt(answer, p) == Some(GreensAfter(green, fb, guess, |guess|)[p])
    {
      GreensStayValid(guess, answer, green, p);
    }
    forall c | c in YellowsAfter(yellow, fb, guess, |guess|)
      ensures var list := YellowsAfter(yellow, fb, guess, |guess|)[c];
              && c in answer
              && forall k :: 0 <= k < |list| ==> CharAt(answer, list[k]).Some? && CharAt(answer, list[k]) != Some(c)
    {
      YellowsStayValid(guess, answer, yellow, c);
    }
  }
}
