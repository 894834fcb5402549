/** The match engine: per-letter feedback of a guess against the target word. */
module Match {

  /** Classification of one guessed letter (wordle_match_t). */
  datatype MatchResult = Unknown | Nowhere | WrongSpot | Correct

  /** What a used-up letter of the scratch copy of the target is overwritten with. */
  const Consumed: char := '\0'

  /** A guessed letter that is credited to a letter of the target. */
  predicate IsHit(m: MatchResult) {
    m == Correct || m == WrongSpot
  }

  /** The scratch copy of the target after the first pass: every exact hit is consumed. */
  function AfterExact(guess: seq<char>, target: seq<char>): (scratch: seq<char>)
    requires |guess| == |target|
    ensures |scratch| == |target|
    ensures forall i :: 0 <= i < |target| ==> scratch[i] == target[i] || guess[i] == target[i]
    ensures forall i :: 0 <= i < |target| && guess[i] == target[i] ==> scratch[i] == Consumed
  {
    seq(|target|, i requires 0 <= i < |target| => if guess[i] == target[i] then Consumed else target[i])
  }

  /** The leftmost unconsumed position of `scratch` holding `c`, or `|scratch|` when there is none. */
  function LeftmostFree(scratch: seq<char>, c: char): (j: nat)
    ensures j <= |scratch|
    ensures j < |scratch| ==> scratch[j] != Consumed && scratch[j] == c
    ensures forall k :: 0 <= k < j ==> !(scratch[k] != Consumed && scratch[k] == c)
  {
    if scratch == [] then 0
    else if scratch[0] != Consumed && scratch[0] == c then 0
    else 1 + LeftmostFree(scratch[1..], c)
  }

  /** The state of the second pass: the classifications made so far and the scratch copy. */
  datatype Scan = Scan(marks: seq<MatchResult>, scratch: seq<char>)

  /** The second pass after it has classified the first `k` guessed letters. */
  function ScanPrefix(guess: seq<char>, target: seq<char>, k: nat): (s: Scan)
    requires |guess| == |target| && k <= |guess|
    ensures |s.marks| == k && |s.scratch| == |target|
    decreases k
  {
    if k == 0 then Scan([], AfterExact(guess, target))
    else
      var prev := ScanPrefix(guess, target, k - 1);
      var c := guess[k - 1];
      if c == target[k - 1] then Scan(prev.marks + [Correct], prev.scratch)
      else
        var j := LeftmostFree(prev.scratch, c);
        if j < |prev.scratch| then Scan(prev.marks + [WrongSpot], prev.scratch[j := Consumed])
        else Scan(prev.marks + [Nowhere], prev.scratch)
  }

  /** The feedback for `guess` against `target`: what wordle_try_match writes into `results`. */
  function Feedback(guess: seq<char>, target: seq<char>): (marks: seq<MatchResult>)
    requires |guess| == |target|
    ensures |marks| == |guess|
  {
    ScanPrefix(guess, target, |guess|).marks
  }

  /** The guessed letters that the classifications credit to the target, in order. */
  function Credited(guess: seq<char>, marks: seq<MatchResult>): seq<char>
    requires |marks| <= |guess|
    decreases |marks|
  {
    if marks == [] then []
    else
      var k := |marks| - 1;
      Credited(guess, marks[..k]) + (if IsHit(marks[k]) then [guess[k]] else [])
  }

  /** The letters of `guess[k..]` that sit at their own position in `target`. */
  function Agreeing(guess: seq<char>, target: seq<char>, k: nat): seq<char>
    requires |guess| == |target| && k <= |guess|
    decreases |guess| - k
  {
    if k == |guess| then []
    else (if guess[k] == target[k] then [guess[k]] else []) + Agreeing(guess, target, k + 1)
  }

  // ---------------------------------------------------------------------------
  // Classification

  /** Every classified letter is Correct, WrongSpot or Nowhere, and Correct exactly at the equal letters. */
  lemma {:induction false} ScanClassifies(guess: seq<char>, target: seq<char>, k: nat)
    requires |guess| == |target| && k <= |guess|
    ensures forall i :: 0 <= i < k ==> ScanPrefix(guess, target, k).marks[i] != Unknown
    ensures forall i :: 0 <= i < k ==>
      (ScanPrefix(guess, target, k).marks[i] == Correct <==> guess[i] == target[i])
  {
    if k > 0 {
      ScanClassifies(guess, target, k - 1);
    }
  }

  /** Feedback never leaves a letter Unknown, and reports Correct exactly where the words agree. */
  lemma FeedbackClassifies(guess: seq<char>, target: seq<char>)
    requires |guess| == |target|
    ensures |Feedback(guess, target)| == |guess|
    ensures forall i :: 0 <= i < |guess| ==> Feedback(guess, target)[i] != Unknown
    ensures forall i :: 0 <= i < |guess| ==> (Feedback(guess, target)[i] == Correct <==> guess[i] == target[i])
  {
    ScanClassifies(guess, target, |guess|);
  }

  /** All letters are Correct exactly when the guess is the target. */
  lemma FeedbackAllCorrect(guess: seq<char>, target: seq<char>)
    requires |guess| == |target|
    ensures (forall i :: 0 <= i < |guess| ==> Feedback(guess, target)[i] == Correct) <==> guess == target
  {
    FeedbackClassifies(guess, target);
    if forall i :: 0 <= i < |guess| ==> Feedback(guess, target)[i] == Correct {
      assert forall i :: 0 <= i < |guess| ==> guess[i] == target[i];
    }
  }

  // ---------------------------------------------------------------------------
  // Letter counting: no target letter is credited twice

  /** The unconsumed positions of the scratch copy still hold the target's letter, at a position
      whose own guess letter is not an exact hit. */
  ghost predicate ScratchFaithful(guess: seq<char>, target: seq<char>, scratch: seq<char>)
    requires |guess| == |target| == |scratch|
  {
    forall j :: 0 <= j < |scratch| && scratch[j] != Consumed ==> scratch[j] == target[j] && guess[j] != target[j]
  }

  lemma {:induction false} ScanFaithful(guess: seq<char>, target: seq<char>, k: nat)
    requires |guess| == |target| && k <= |guess|
    ensures ScratchFaithful(guess, target, ScanPrefix(guess, target, k).scratch)
  {
    if k > 0 {
      ScanFaithful(guess, target, k - 1);
    }
  }

  /** A letter marked WrongSpot occurs in the target at a position where the guess does not match exactly. */
  lemma {:induction false} WrongSpotIsElsewhere(guess: seq<char>, target: seq<char>, i: nat)
    requires |guess| == |target| && i < |guess|
    requires Feedback(guess, target)[i] == WrongSpot
    ensures exists j :: 0 <= j < |target| && target[j] == guess[i] && guess[j] != target[j]
  {
    var n := |guess|;
    WrongSpotAt(guess, target, i, n);
  }

  lemma {:induction false} WrongSpotAt(guess: seq<char>, target: seq<char>, i: nat, k: nat)
    requires |guess| == |target| && i < k <= |guess|
    requires ScanPrefix(guess, target, k).marks[i] == WrongSpot
    ensures exists j :: 0 <= j < |target| && target[j] == guess[i] && guess[j] != target[j]
  {
    var prev := ScanPrefix(guess, target, k - 1);
    if i < k - 1 {
      assert ScanPrefix(guess, target, k).marks[i] == prev.marks[i];
      WrongSpotAt(guess, target, i, k - 1);
    } else {
      ScanFaithful(guess, target, k - 1);
      var j := LeftmostFree(prev.scratch, guess[i]);
      assert j < |prev.scratch| && prev.scratch[j] == guess[i];
      assert target[j] == guess[i] && guess[j] != target[j];
    }
  }

  lemma {:induction false} AfterExactBalance(guess: seq<char>, target: seq<char>, k: nat, c: char)
    requires |guess| == |target| && k <= |guess| && c != Consumed
    ensures multiset(AfterExact(guess, target)[k..])[c] + multiset(Agreeing(guess, target, k))[c]
         == multiset(target[k..])[c]
    decreases |guess| - k
  {
    var s := AfterExact(guess, target);
    if k < |guess| {
      AfterExactBalance(guess, target, k + 1, c);
      CountHead(s, k, c);
      CountHead(target, k, c);
      var hit := if guess[k] == target[k] then [guess[k]] else [];
      assert multiset(Agreeing(guess, target, k))[c] == multiset(hit)[c] + multiset(Agreeing(guess, target, k + 1))[c];
    } else {
      assert s[k..] == [] && target[k..] == [];
    }
  }

  /** The count of `c` in a suffix is its count at the suffix's first position plus its count in the rest. */
  lemma CountHead(s: seq<char>, k: nat, c: char)
    requires k < |s|
    ensures multiset(s[k..])[c] == (if s[k] == c then 1 else 0) + multiset(s[k + 1..])[c]
  {
    assert s[k..] == [s[k]] + s[k + 1..];
  }

  lemma CreditedSnoc(guess: seq<char>, marks: seq<MatchResult>, m: MatchResult)
    requires |marks| < |guess|
    ensures Credited(guess, marks + [m]) == Credited(guess, marks) + (if IsHit(m) then [guess[|marks|]] else [])
  {
    assert (marks + [m])[..|marks|] == marks;
  }

  /** Consuming one unconsumed position removes exactly one copy of its letter. */
  lemma ConsumeOne(s: seq<char>, j: nat, c: char)
    requires j < |s| && s[j] != Consumed && c != Consumed
    ensures multiset(s[j := Consumed])[c] == multiset(s)[c] - (if c == s[j] then 1 else 0)
  {
    assert s == s[..j] + [s[j]] + s[j + 1..];
    assert s[j := Consumed] == s[..j] + [Consumed] + s[j + 1..];
  }

  /** How many copies of `c` the second pass has accounted for after `k` letters: still unconsumed
      in the scratch copy, credited to one of the first `k` guessed letters, or an exact hit later on. */
  ghost function Accounted(guess: seq<char>, target: seq<char>, k: nat, c: char): nat
    requires |guess| == |target| && k <= |guess|
  {
    var s := ScanPrefix(guess, target, k);
    multiset(s.scratch)[c] + multiset(Credited(guess, s.marks))[c] + multiset(Agreeing(guess, target, k))[c]
  }

  /** Classifying one more letter neither loses nor invents a copy of any letter but the sentinel. */
  lemma ScanBalanceStep(guess: seq<char>, target: seq<char>, k: nat, c: char)
    requires |guess| == |target| && 0 < k <= |guess| && c != Consumed
    ensures Accounted(guess, target, k, c) == Accounted(guess, target, k - 1, c)
  {
    var m := ScanPrefix(guess, target, k).marks[k - 1];
    var g := guess[k - 1];
    ScanMarkStep(guess, target, k, c);
    ScanScratchStep(guess, target, k, c);
    assert multiset(Agreeing(guess, target, k - 1))[c]
        == (if g == target[k - 1] && g == c then 1 else 0) + multiset(Agreeing(guess, target, k))[c];
    assert m == Correct <==> g == target[k - 1] by {
      ScanClassifies(guess, target, k);
    }
  }

  /** Classifying letter `k - 1` credits it exactly when it is a hit. */
  lemma ScanMarkStep(guess: seq<char>, target: seq<char>, k: nat, c: char)
    requires |guess| == |target| && 0 < k <= |guess|
    ensures var m := ScanPrefix(guess, target, k).marks[k - 1];
      multiset(Credited(guess, ScanPrefix(guess, target, k).marks))[c]
      == multiset(Credited(guess, ScanPrefix(guess, target, k - 1).marks))[c]
         + (if IsHit(m) && guess[k - 1] == c then 1 else 0)
  {
    var prev := ScanPrefix(guess, target, k - 1);
    var cur := ScanPrefix(guess, target, k);
    var m := cur.marks[k - 1];
    assert cur.marks == prev.marks + [m];
    CreditedSnoc(guess, prev.marks, m);
    var added := if IsHit(m) then [guess[k - 1]] else [];
    assert multiset(Credited(guess, cur.marks)) == multiset(Credited(guess, prev.marks)) + multiset(added);
  }

  /** Classifying letter `k - 1` consumes one copy of it exactly when it is WrongSpot. */
  lemma ScanScratchStep(guess: seq<char>, target: seq<char>, k: nat, c: char)
    requires |guess| == |target| && 0 < k <= |guess| && c != Consumed
    ensures var m := ScanPrefix(guess, target, k).marks[k - 1];
      multiset(ScanPrefix(guess, target, k).scratch)[c]
      == multiset(ScanPrefix(guess, target, k - 1).scratch)[c] - (if m == WrongSpot && guess[k - 1] == c then 1 else 0)
  {
    var prev := ScanPrefix(guess, target, k - 1);
    var g := guess[k - 1];
    var j := LeftmostFree(prev.scratch, g);
    if g != target[k - 1] && j < |prev.scratch| {
      ConsumeOne(prev.scratch, j, c);
    }
  }

  /** No letter but the sentinel is lost or invented by the second pass. */
  lemma {:induction false} ScanBalance(guess: seq<char>, target: seq<char>, k: nat, c: char)
    requires |guess| == |target| && k <= |guess| && c != Consumed
    ensures Accounted(guess, target, k, c) == multiset(target)[c]
  {
    if k == 0 {
      AfterExactBalance(guess, target, 0, c);
      assert AfterExact(guess, target)[0..] == AfterExact(guess, target);
      assert target[0..] == target;
    } else {
      ScanBalance(guess, target, k - 1, c);
      ScanBalanceStep(guess, target, k, c);
    }
  }

  /** For every letter, the guessed copies classified Correct or WrongSpot never outnumber its copies in the target. */
  lemma FeedbackNeverOvercounts(guess: seq<char>, target: seq<char>, c: char)
    requires |guess| == |target| && c != Consumed
    ensures multiset(Credited(guess, Feedback(guess, target)))[c] <= multiset(target)[c]
  {
    ScanBalance(guess, target, |guess|, c);
  }

  /** How many unconsumed copies of `c` the scratch copy holds after `k` letters. */
  ghost function Unconsumed(guess: seq<char>, target: seq<char>, k: nat, c: char): nat
    requires |guess| == |target| && k <= |guess|
  {
    multiset(ScanPrefix(guess, target, k).scratch)[c]
  }

  /** The second pass only ever consumes letters. */
  lemma {:induction false} ScanConsumes(guess: seq<char>, target: seq<char>, i: nat, k: nat, c: char)
    requires |guess| == |target| && i <= k <= |guess| && c != Consumed
    ensures Unconsumed(guess, target, k, c) <= Unconsumed(guess, target, i, c)
    decreases k - i
  {
    if i < k {
      ScanConsumes(guess, target, i, k - 1, c);
      ConsumesOnce(guess, target, k, c);
    }
  }

  /** Classifying one letter never adds a copy of any letter to the scratch copy. */
  lemma ConsumesOnce(guess: seq<char>, target: seq<char>, k: nat, c: char)
    requires |guess| == |target| && 0 < k <= |guess| && c != Consumed
    ensures Unconsumed(guess, target, k, c) <= Unconsumed(guess, target, k - 1, c)
  {
    ScanScratchStep(guess, target, k, c);
  }

  /** A letter reported Nowhere has had every one of its copies in the target credited elsewhere. */
  lemma {:induction false} NowhereMeansExhausted(guess: seq<char>, target: seq<char>, i: nat)
    requires |guess| == |target| && i < |guess| && guess[i] != Consumed
    requires Feedback(guess, target)[i] == Nowhere
    ensures multiset(Credited(guess, Feedback(guess, target)))[guess[i]] == multiset(target)[guess[i]]
  {
    var n := |guess|;
    var c := guess[i];
    NowhereAt(guess, target, i, n);
    ScanConsumes(guess, target, i, n, c);
    ScanBalance(guess, target, n, c);
  }

  /** When letter `i` was classified Nowhere, no unconsumed copy of it was left in the scratch copy. */
  lemma {:induction false} NowhereAt(guess: seq<char>, target: seq<char>, i: nat, k: nat)
    requires |guess| == |target| && i < k <= |guess| && guess[i] != Consumed
    requires ScanPrefix(guess, target, k).marks[i] == Nowhere
    ensures multiset(ScanPrefix(guess, target, i).scratch)[guess[i]] == 0
  {
    var prev := ScanPrefix(guess, target, k - 1);
    if i < k - 1 {
      assert ScanPrefix(guess, target, k).marks[i] == prev.marks[i];
      NowhereAt(guess, target, i, k - 1);
    } else {
      var j := LeftmostFree(prev.scratch, guess[i]);
      assert j == |prev.scratch|;
      assert guess[i] !in prev.scratch;
    }
  }

  /** A guess equal to the target is all Correct. */
  lemma FeedbackOfTarget(target: seq<char>)
    ensures Feedback(target, target) == seq(|target|, _ => Correct)
  {
    FeedbackClassifies(target, target);
  }

  /** The duplicate-letter case: the single 'a' of "allow" matches the first 'a' of "aorta" exactly,
      so neither 'l' is credited and the 'o' is credited to the target's 'o'. */
  lemma AllowAgainstAorta()
    ensures Feedback("allow", "aorta") == [Correct, Nowhere, Nowhere, WrongSpot, Nowhere]
  {
    var guess, target := "allow", "aorta";
    AortaFirstStep(guess, target);
    AortaMiddleSteps(guess, target);
    AortaFourthStep(guess, target);
    AortaLastStep(guess, target);
  }

  /** The first pass consumes the leading 'a', which is also the first letter classified. */
  lemma AortaFirstStep(guess: seq<char>, target: seq<char>)
    requires guess == "allow" && target == "aorta"
    ensures ScanPrefix(guess, target, 1) == Scan([Correct], [Consumed, 'o', 'r', 't', 'a'])
  {
    assert ScanPrefix(guess, target, 0).scratch == [Consumed, 'o', 'r', 't', 'a'];
  }

  /** Neither 'l' finds a free 'l' in the target. */
  lemma AortaMiddleSteps(guess: seq<char>, target: seq<char>)
    requires guess == "allow" && target == "aorta"
    requires ScanPrefix(guess, target, 1) == Scan([Correct], [Consumed, 'o', 'r', 't', 'a'])
    ensures ScanPrefix(guess, target, 3) == Scan([Correct, Nowhere, Nowhere], [Consumed, 'o', 'r', 't', 'a'])
  {
    var after := [Consumed, 'o', 'r', 't', 'a'];
    AbsentIsNotFree(after, 'l');
    assert guess[1] == 'l' && target[1] == 'o' && guess[2] == 'l' && target[2] == 'r';
    assert ScanPrefix(guess, target, 2) == Scan([Correct, Nowhere], after);
  }

  /** The 'o' takes the target's 'o'. */
  lemma AortaFourthStep(guess: seq<char>, target: seq<char>)
    requires guess == "allow" && target == "aorta"
    requires ScanPrefix(guess, target, 3) == Scan([Correct, Nowhere, Nowhere], [Consumed, 'o', 'r', 't', 'a'])
    ensures ScanPrefix(guess, target, 4)
         == Scan([Correct, Nowhere, Nowhere, WrongSpot], [Consumed, Consumed, 'r', 't', 'a'])
  {
    var after := [Consumed, 'o', 'r', 't', 'a'];
    FreeAt(after, 'o', 1);
    assert guess[3] == 'o' && target[3] == 't';
    assert after[1 := Consumed] == [Consumed, Consumed, 'r', 't', 'a'];
    assert [Correct, Nowhere, Nowhere] + [WrongSpot] == [Correct, Nowhere, Nowhere, WrongSpot];
  }

  /** The 'w' finds nothing. */
  lemma AortaLastStep(guess: seq<char>, target: seq<char>)
    requires guess == "allow" && target == "aorta"
    requires ScanPrefix(guess, target, 4)
          == Scan([Correct, Nowhere, Nowhere, WrongSpot], [Consumed, Consumed, 'r', 't', 'a'])
    ensures ScanPrefix(guess, target, 5).marks == [Correct, Nowhere, Nowhere, WrongSpot, Nowhere]
  {
    AbsentIsNotFree([Consumed, Consumed, 'r', 't', 'a'], 'w');
    assert guess[4] == 'w' && target[4] == 'a';
    assert [Correct, Nowhere, Nowhere, WrongSpot] + [Nowhere] == [Correct, Nowhere, Nowhere, WrongSpot, Nowhere];
  }

  /** A free position holding `c` with no free `c` before it is the leftmost free one. */
  lemma FreeAt(scratch: seq<char>, c: char, j: nat)
    requires j < |scratch| && scratch[j] != Consumed && scratch[j] == c
    requires forall k :: 0 <= k < j ==> !(scratch[k] != Consumed && scratch[k] == c)
    ensures LeftmostFree(scratch, c) == j
  {
  }

  /** A letter absent from the scratch copy has no free position. */
  lemma AbsentIsNotFree(scratch: seq<char>, c: char)
    requires c !in scratch
    ensures LeftmostFree(scratch, c) == |scratch|
  {
  }

  // ---------------------------------------------------------------------------
  // The routine itself

  /** The inner search of the second pass: the leftmost unconsumed position of `scratch` holding `letter`,
      or `scratch.Length` when there is none. */
  method FindFree(scratch: array<char>, letter: char) returns (j: nat)
    ensures j == LeftmostFree(scratch[..], letter)
  {
    j := 0;
    while j < scratch.Length
      invariant j <= scratch.Length
      invariant forall k :: 0 <= k < j ==> !(scratch[k] != Consumed && scratch[k] == letter)
    {
      if scratch[j] != Consumed && scratch[j] == letter {
        return;
      }
      j := j + 1;
    }
  }

  /** The reset loop and the first pass of wordle_try_match: a fresh scratch copy of the target with every
      exact hit consumed, and the results Correct at the exact hits and Unknown elsewhere. */
  method ExactPass(tryWord: array<char>, tryOff: nat, correctWord: array<char>,
                   results: array<MatchResult>, resOff: nat, len: nat) returns (cpy: array<char>)
    requires tryOff + len <= tryWord.Length && len <= correctWord.Length && resOff + len <= results.Length
    modifies results
    ensures fresh(cpy)
    ensures cpy[..] == AfterExact(tryWord[tryOff..tryOff + len], correctWord[..len])
    ensures forall k :: resOff <= k < resOff + len ==>
      results[k] == (if tryWord[tryOff + k - resOff] == correctWord[k - resOff] then Correct else Unknown)
    ensures results[..resOff] == old(results[..resOff])
    ensures results[resOff + len..] == old(results[resOff + len..])
  {
    cpy := ResetAndCopy(correctWord, results, resOff, len);

    // letters in the correct spot
    var i := 0;
    while i < len
      invariant 0 <= i <= len
      invariant forall m :: 0 <= m < i ==>
        cpy[m] == (if tryWord[tryOff + m] == correctWord[m] then Consumed else correctWord[m])
      invariant forall m :: i <= m < len ==> cpy[m] == correctWord[m]
      invariant forall k :: resOff <= k < resOff + i ==>
        results[k] == (if tryWord[tryOff + k - resOff] == correctWord[k - resOff] then Correct else Unknown)
      invariant forall k :: resOff + i <= k < resOff + len ==> results[k] == Unknown
      invariant results[..resOff] == old(results[..resOff])
      invariant results[resOff + len..] == old(results[resOff + len..])
    {
      if tryWord[tryOff + i] == cpy[i] {
        results[resOff + i] := Correct;
        cpy[i] := Consumed;
      }
      i := i + 1;
    }
    ghost var guess := tryWord[tryOff..tryOff + len];
    ghost var target := correctWord[..len];
    assert forall m :: 0 <= m < len ==> cpy[m] == AfterExact(guess, target)[m];
  }

  /** The first loop of wordle_try_match: every result of the range reset to Unknown and a fresh
      scratch copy of the target. */
  method ResetAndCopy(correctWord: array<char>, results: array<MatchResult>, resOff: nat, len: nat)
    returns (cpy: array<char>)
    requires len <= correctWord.Length && resOff + len <= results.Length
    modifies results
    ensures fresh(cpy) && cpy[..] == correctWord[..len]
    ensures forall k :: resOff <= k < resOff + len ==> results[k] == Unknown
    ensures results[..resOff] == old(results[..resOff])
    ensures results[resOff + len..] == old(results[resOff + len..])
  {
    cpy := new char[len];
    var i := 0;
    while i < len
      invariant 0 <= i <= len
      invariant forall m :: 0 <= m < i ==> cpy[m] == correctWord[m]
      invariant forall k :: resOff <= k < resOff + i ==> results[k] == Unknown
      invariant results[..resOff] == old(results[..resOff])
      invariant results[resOff + len..] == old(results[resOff + len..])
    {
      results[resOff + i] := Unknown;
      cpy[i] := correctWord[i];
      i := i + 1;
    }
  }

  /** The second pass of wordle_try_match: every letter that is not an exact hit is credited to the
      leftmost unconsumed equal letter of the scratch copy, or reported Nowhere. */
  method ElsewherePass(tryWord: array<char>, tryOff: nat, ghost target: seq<char>, cpy: array<char>,
                       results: array<MatchResult>, resOff: nat, len: nat)
    requires tryOff + len <= tryWord.Length && |target| == len == cpy.Length && resOff + len <= results.Length
    requires cpy != tryWord
    requires cpy[..] == AfterExact(tryWord[tryOff..tryOff + len], target)
    requires forall k :: resOff <= k < resOff + len ==>
      results[k] == (if tryWord[tryOff + k - resOff] == target[k - resOff] then Correct else Unknown)
    modifies cpy, results
    ensures results[resOff..resOff + len] == Feedback(tryWord[tryOff..tryOff + len], target)
    ensures results[..resOff] == old(results[..resOff])
    ensures results[resOff + len..] == old(results[resOff + len..])
  {
    ghost var guess := tryWord[tryOff..tryOff + len];
    ghost var r0 := results[..];
    var i := 0;
    while i < len
      invariant 0 <= i <= len
      invariant cpy[..] == ScanPrefix(guess, target, i).scratch
      invariant Classified(results[..], r0, guess, target, resOff, i)
    {
      ghost var before := results[..];
      assert results[resOff + i] == before[resOff + i];
      ClassifyAt(tryWord, tryOff, target, cpy, results, resOff, len, i);
      ClassifiedStep(before, results[..], r0, guess, target, resOff, i, results[resOff + i]);
      i := i + 1;
    }
  }

  /** The result cells of the second pass after `i` letters: the first `i` classified as the scan
      classifies them, the rest still as the first pass left them, and nothing outside touched. */
  ghost predicate Classified(r: seq<MatchResult>, r0: seq<MatchResult>, guess: seq<char>, target: seq<char>,
                             resOff: nat, i: nat)
  {
    |guess| == |target| && i <= |guess| && resOff + |guess| <= |r| == |r0|
    && r[resOff..resOff + i] == ScanPrefix(guess, target, i).marks
    && (forall k :: resOff + i <= k < resOff + |guess| ==>
          r[k] == (if guess[k - resOff] == target[k - resOff] then Correct else Unknown))
    && r[..resOff] == r0[..resOff]
    && r[resOff + |guess|..] == r0[resOff + |guess|..]
  }

  /** Classifying letter `i` extends the classified prefix by one cell. */
  lemma ClassifiedStep(r: seq<MatchResult>, r': seq<MatchResult>, r0: seq<MatchResult>, guess: seq<char>,
                       target: seq<char>, resOff: nat, i: nat, m: MatchResult)
    requires Classified(r, r0, guess, target, resOff, i) && i < |guess|
    requires r' == r[resOff + i := m]
    requires ScanPrefix(guess, target, i + 1).marks == ScanPrefix(guess, target, i).marks + [m]
    ensures Classified(r', r0, guess, target, resOff, i + 1)
  {
    assert r'[resOff..resOff + i + 1] == r[resOff..resOff + i] + [m];
    assert r'[..resOff] == r[..resOff];
    assert r'[resOff + |guess|..] == r[resOff + |guess|..];
  }

  /** One step of the second pass: classifies letter `i` and consumes the target letter it is
      credited to, if any. */
  method ClassifyAt(tryWord: array<char>, tryOff: nat, ghost target: seq<char>, cpy: array<char>,
                    results: array<MatchResult>, resOff: nat, len: nat, i: nat)
    requires tryOff + len <= tryWord.Length && |target| == len == cpy.Length && resOff + len <= results.Length
    requires cpy != tryWord && i < len
    requires cpy[..] == ScanPrefix(tryWord[tryOff..tryOff + len], target, i).scratch
    requires results[resOff + i] == (if tryWord[tryOff + i] == target[i] then Correct else Unknown)
    modifies cpy, results
    ensures cpy[..] == ScanPrefix(tryWord[tryOff..tryOff + len], target, i + 1).scratch
    ensures ScanPrefix(tryWord[tryOff..tryOff + len], target, i + 1).marks
         == ScanPrefix(tryWord[tryOff..tryOff + len], target, i).marks + [results[resOff + i]]
    ensures results[..] == old(results[..])[resOff + i := results[resOff + i]]
  {
    ghost var guess := tryWord[tryOff..tryOff + len];
    assert guess[i] == tryWord[tryOff + i];
    if results[resOff + i] != Correct {
      results[resOff + i] := Nowhere;
      var j := FindFree(cpy, tryWord[tryOff + i]);
      if j < len {
        results[resOff + i] := WrongSpot;
        cpy[j] := Consumed;
      }
    }
  }

  /** The final loop of wordle_try_match: whether every result in the range is Correct. */
  method AllCorrect(results: array<MatchResult>, resOff: nat, len: nat) returns (allCorrect: bool)
    requires resOff + len <= results.Length
    ensures allCorrect <==> AllHit(results[resOff..resOff + len])
  {
    var i := 0;
    while i < len
      invariant 0 <= i <= len
      invariant AllHit(results[resOff..resOff + i])
    {
      if results[resOff + i] != Correct {
        assert results[resOff..resOff + len][i] != Correct;
        return false;
      }
      assert results[resOff..resOff + i + 1] == results[resOff..resOff + i] + [results[resOff + i]];
      i := i + 1;
    }
    return true;
  }

  /** Every mark is Correct. */
  predicate AllHit(marks: seq<MatchResult>) {
    forall k :: 0 <= k < |marks| ==> marks[k] == Correct
  }

  /** wordle_try_match: classifies `tryWord[tryOff..tryOff+len]` against `correctWord[..len]` into
      `results[resOff..resOff+len]`, using a fresh scratch copy of the target, and returns whether
      every letter is Correct. */
  method TryMatch(tryWord: array<char>, tryOff: nat, correctWord: array<char>,
                  results: array<MatchResult>, resOff: nat, len: nat) returns (allCorrect: bool)
    requires tryOff + len <= tryWord.Length && len <= correctWord.Length && resOff + len <= results.Length
    modifies results
    ensures results[resOff..resOff + len] == Feedback(tryWord[tryOff..tryOff + len], correctWord[..len])
    ensures results[..resOff] == old(results[..resOff])
    ensures results[resOff + len..] == old(results[resOff + len..])
    ensures allCorrect <==> tryWord[tryOff..tryOff + len] == correctWord[..len]
  {
    ghost var guess := tryWord[tryOff..tryOff + len];
    ghost var target := correctWord[..len];
    var cpy := ExactPass(tryWord, tryOff, correctWord, results, resOff, len);
    ElsewherePass(tryWord, tryOff, target, cpy, results, resOff, len);
    allCorrect := AllCorrect(results, resOff, len);
    FeedbackAllCorrect(guess, target);
  }
}
