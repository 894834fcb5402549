/** What the key events and the timer promise a player, stated over the game state machine. */
module GameProps {
  import opened Match
  import opened Words
  import opened Game

  /** Backspace moves the cursor back by one exactly when the game is live and the row is not
      empty, and changes nothing else. */
  lemma BackspaceOnlyRetracts(s: State, scancode: int, list: seq<char>, count: nat, rand: nat)
    requires Shape(s) && WordList(list, count)
    ensures var r := Step(s, KeyDown(Backspace, scancode), list, count, rand);
      && r == s.(letterIndex := r.letterIndex)
      && (r.letterIndex == s.letterIndex - 1 <==> !s.endGame && s.letterIndex > 0)
      && (r.letterIndex == s.letterIndex <==> s.endGame || s.letterIndex == 0)
  {
  }

  /** A letter key followed by Backspace leaves the cursor where it was; the letter stays on the
      board with an Unknown result. */
  lemma BackspaceAfterLetter(s: State, scancode: int, other: int, list: seq<char>, count: nat, rand: nat)
    requires Shape(s) && WordList(list, count)
    requires IsLetterScancode(scancode) && !s.endGame && s.letterIndex < WordLength
    ensures var typed := Step(s, KeyDown(OtherKey, scancode), list, count, rand);
      var r := Step(typed, KeyDown(Backspace, other), list, count, rand);
      var cell := Cell(s.tryIndex, s.letterIndex);
      && r.letterIndex == s.letterIndex
      && r.letters == s.letters[cell := ScancodeLetter(scancode)]
      && r.results == s.results[cell := Unknown]
      && r == s.(letters := r.letters, results := r.results)
  {
    var typed := Step(s, KeyDown(OtherKey, scancode), list, count, rand);
    assert typed.letterIndex == s.letterIndex + 1 && !typed.endGame;
  }

  /** Once the game is over, only Enter (which restarts it) changes the state. */
  lemma FinishedGameIgnoresKeys(s: State, e: Event, list: seq<char>, count: nat, rand: nat)
    requires Shape(s) && WordList(list, count) && s.endGame
    requires !(e.KeyDown? && IsEnter(e.key))
    ensures Step(s, e, list, count, rand) == s
  {
  }

  /** Enter on a live game whose row is not full does nothing. */
  lemma EnterOnPartialRow(s: State, key: Key, scancode: int, list: seq<char>, count: nat, rand: nat)
    requires Shape(s) && WordList(list, count) && IsEnter(key)
    requires !s.endGame && s.letterIndex < WordLength
    ensures Step(s, KeyDown(key, scancode), list, count, rand) == s
  {
  }

  /** A letter key does nothing when its scancode is not a letter's or the row is already full. */
  lemma LetterKeyIgnored(s: State, sc: int, list: seq<char>, count: nat, rand: nat)
    requires Shape(s) && WordList(list, count)
    requires !IsLetterScancode(sc) || s.letterIndex == WordLength
    ensures Step(s, KeyDown(OtherKey, sc), list, count, rand) == s
  {
  }

  /** Enter on a full row holding a listed word: the try is used up, its results are its feedback,
      the game is won exactly when the word is the target and lost exactly when it misses at the
      last try; the letters, the target and the flash are left alone. */
  lemma AcceptedGuess(s: State, key: Key, scancode: int, list: seq<char>, count: nat, rand: nat)
    requires Inv(s, list, count) && IsEnter(key)
    requires !s.endGame && s.letterIndex == WordLength
    requires Listed(list, count, Row(s.letters, s.tryIndex))
    ensures var r := Step(s, KeyDown(key, scancode), list, count, rand);
      var guess := Row(s.letters, s.tryIndex);
      && r.tryIndex == s.tryIndex + 1 && r.letterIndex == 0
      && (r.wonGame <==> guess == s.correctWord)
      && (r.endGame <==> guess == s.correctWord || r.tryIndex == TryCount)
      && (r.endGame && !r.wonGame <==> guess != s.correctWord && r.tryIndex == TryCount)
      && Row(r.results, s.tryIndex) == Feedback(guess, s.correctWord)
      && (forall t :: 0 <= t < TryCount && t != s.tryIndex ==> Row(r.results, t) == Row(s.results, t))
      && r.letters == s.letters && r.correctWord == s.correctWord && r.flashTimer == s.flashTimer
      && r == s.(results := WithRow(s.results, s.tryIndex, Feedback(guess, s.correctWord)),
                 tryIndex := s.tryIndex + 1, letterIndex := 0,
                 endGame := guess == s.correctWord || s.tryIndex + 1 == TryCount,
                 wonGame := guess == s.correctWord)
  {
    assert !s.wonGame;
    assert Step(s, KeyDown(key, scancode), list, count, rand) == SubmitRow(s, list, count);
    AcceptedRow(s, list, count);
  }

  /** The submission of a listed word, as SubmitRow computes it. */
  lemma AcceptedRow(s: State, list: seq<char>, count: nat)
    requires Shape(s) && WordList(list, count) && !s.endGame && !s.wonGame && s.letterIndex == WordLength
    requires Listed(list, count, Row(s.letters, s.tryIndex))
    ensures var r := SubmitRow(s, list, count);
      var guess := Row(s.letters, s.tryIndex);
      && r.tryIndex == s.tryIndex + 1 && r.letterIndex == 0
      && (r.wonGame <==> guess == s.correctWord)
      && (r.endGame <==> guess == s.correctWord || r.tryIndex == TryCount)
      && (r.endGame && !r.wonGame <==> guess != s.correctWord && r.tryIndex == TryCount)
      && Row(r.results, s.tryIndex) == Feedback(guess, s.correctWord)
      && (forall t :: 0 <= t < TryCount && t != s.tryIndex ==> Row(r.results, t) == Row(s.results, t))
      && r.letters == s.letters && r.correctWord == s.correctWord && r.flashTimer == s.flashTimer
      && r == s.(results := WithRow(s.results, s.tryIndex, Feedback(guess, s.correctWord)),
                 tryIndex := s.tryIndex + 1, letterIndex := 0,
                 endGame := guess == s.correctWord || s.tryIndex + 1 == TryCount,
                 wonGame := guess == s.correctWord)
  {
    var guess := Row(s.letters, s.tryIndex);
    var fb := Feedback(guess, s.correctWord);
    FeedbackClassifies(guess, s.correctWord);
    RowOfWithRow(s.results, s.tryIndex, fb, s.tryIndex);
    OtherRowsKept(s.results, s.tryIndex, fb);
  }

  /** Enter on a full row holding a word not in the list: the flash starts and the try is not used
      up, yet the row's results are still overwritten with its feedback. */
  lemma RejectedGuess(s: State, key: Key, scancode: int, list: seq<char>, count: nat, rand: nat)
    requires Shape(s) && WordList(list, count) && IsEnter(key)
    requires !s.endGame && s.letterIndex == WordLength
    requires !Listed(list, count, Row(s.letters, s.tryIndex))
    ensures var r := Step(s, KeyDown(key, scancode), list, count, rand);
      var guess := Row(s.letters, s.tryIndex);
      && r.flashTimer == FlashDuration
      && Row(r.results, s.tryIndex) == Feedback(guess, s.correctWord)
      && (forall t :: 0 <= t < TryCount && t != s.tryIndex ==> Row(r.results, t) == Row(s.results, t))
      && r == s.(results := r.results, flashTimer := FlashDuration)
  {
    var guess := Row(s.letters, s.tryIndex);
    var fb := Feedback(guess, s.correctWord);
    FeedbackClassifies(guess, s.correctWord);
    forall t | 0 <= t < TryCount
      ensures Row(WithRow(s.results, s.tryIndex, fb), t) == if t == s.tryIndex then fb else Row(s.results, t)
    {
      RowOfWithRow(s.results, s.tryIndex, fb, t);
    }
  }

  /** Enter on a finished game starts a new one on a listed target, slot `rand % count`, with both
      boards left as they were. */
  lemma RestartKeepsBoards(s: State, key: Key, scancode: int, list: seq<char>, count: nat, rand: nat)
    requires Inv(s, list, count) && IsEnter(key) && s.endGame
    ensures var r := Step(s, KeyDown(key, scancode), list, count, rand);
      && r.letters == s.letters && r.results == s.results && r.flashTimer == s.flashTimer
      && r.correctWord == Slot(list, rand % count) && Listed(list, count, r.correctWord)
      && !r.endGame && !r.wonGame && r.tryIndex == 0 && r.letterIndex == 0
      && r == s.(correctWord := Slot(list, rand % count), endGame := false, wonGame := false,
                 tryIndex := 0, letterIndex := 0)
  {
    SlotListed(list, count, rand % count);
  }

  /** Key presses of the letter keys `codes`. */
  function LetterKeys(codes: seq<int>): (es: seq<Event>)
    ensures |es| == |codes|
    ensures forall i :: 0 <= i < |codes| ==> es[i] == KeyDown(OtherKey, codes[i])
  {
    seq(|codes|, i requires 0 <= i < |codes| => KeyDown(OtherKey, codes[i]))
  }

  /** No restart happens while typing, so the random numbers do not matter. */
  function NoRands(n: nat): (rands: seq<nat>)
    ensures |rands| == n
  {
    seq(n, _ => 0)
  }

  predicate AllLetters(codes: seq<int>) {
    forall i :: 0 <= i < |codes| ==> IsLetterScancode(codes[i])
  }

  /** Typing letters on a live game with room for them writes them one after the other from the
      cursor, each with an Unknown result, moves the cursor past them, and touches nothing else. */
  lemma TypeLetters(s: State, codes: seq<int>, list: seq<char>, count: nat)
    requires Shape(s) && WordList(list, count) && !s.endGame
    requires AllLetters(codes) && s.letterIndex + |codes| <= WordLength
    ensures TypedInto(s, Run(s, LetterKeys(codes), list, count, NoRands(|codes|)), codes)
  {
    TypedFields(s, codes, list, count);
    TypedCells(s, codes, list, count);
    TypedFrame(s, codes, list, count);
    var r := Run(s, LetterKeys(codes), list, count, NoRands(|codes|));
    var first := WordLength * s.tryIndex + s.letterIndex;
    assert Written(r.letters, r.results, codes, first);
  }

  /** `r` is `s` with the letters of `codes` written from the cursor on, each with an Unknown result,
      the cursor moved past them, and nothing else changed. */
  predicate TypedInto(s: State, r: State, codes: seq<int>)
    requires Shape(s) && AllLetters(codes) && s.letterIndex + |codes| <= WordLength && s.tryIndex < TryCount
  {
    var first := WordLength * s.tryIndex + s.letterIndex;
    && r == s.(letters := r.letters, results := r.results, letterIndex := s.letterIndex + |codes|)
    && |r.letters| == BoardSize && |r.results| == BoardSize
    && (forall i :: 0 <= i < |codes| ==>
          r.letters[first + i] == ScancodeLetter(codes[i]) && r.results[first + i] == Unknown)
    && (forall k :: 0 <= k < BoardSize && !(first <= k < first + |codes|) ==>
          r.letters[k] == s.letters[k] && r.results[k] == s.results[k])
  }

  /** Typing letters moves the cursor past them and changes no field but the boards. */
  lemma {:induction false} TypedFields(s: State, codes: seq<int>, list: seq<char>, count: nat)
    requires Shape(s) && WordList(list, count) && !s.endGame
    requires AllLetters(codes) && s.letterIndex + |codes| <= WordLength
    ensures var r := Run(s, LetterKeys(codes), list, count, NoRands(|codes|));
      r == s.(letters := r.letters, results := r.results, letterIndex := s.letterIndex + |codes|)
    decreases |codes|
  {
    if codes != [] {
      RunFirstLetter(s, codes, list, count);
      AllLettersRest(codes);
      TypedFields(PressLetter(s, codes[0]), codes[1..], list, count);
    }
  }

  /** Typing letters writes them from the cursor on, each with an Unknown result. */
  lemma {:induction false} TypedCells(s: State, codes: seq<int>, list: seq<char>, count: nat)
    requires Shape(s) && WordList(list, count) && !s.endGame
    requires AllLetters(codes) && s.letterIndex + |codes| <= WordLength
    ensures var r := Run(s, LetterKeys(codes), list, count, NoRands(|codes|));
      Written(r.letters, r.results, codes, WordLength * s.tryIndex + s.letterIndex)
    decreases |codes|
  {
    if codes != [] {
      var s1 := PressLetter(s, codes[0]);
      var rest := codes[1..];
      RunFirstLetter(s, codes, list, count);
      AllLettersRest(codes);
      TypedCells(s1, rest, list, count);
      TypedFrame(s1, rest, list, count);
      var r := Run(s1, LetterKeys(rest), list, count, NoRands(|rest|));
      assert Run(s, LetterKeys(codes), list, count, NoRands(|codes|)) == r;
      var first := WordLength * s.tryIndex + s.letterIndex;
      var next := WordLength * s1.tryIndex + s1.letterIndex;
      assert next == first + 1;
      assert s1.letters[first] == ScancodeLetter(codes[0]) && s1.results[first] == Unknown;
      assert !(next <= first < next + |rest|);
      assert r.letters[first] == s1.letters[first] && r.results[first] == s1.results[first];
      CellsShift(r.letters, r.results, codes, rest, first, next);
    }
  }

  /** The cells from `first` on hold the letters of `codes`, each with an Unknown result. */
  ghost predicate Written(letters: seq<char>, results: seq<MatchResult>, codes: seq<int>, first: nat) {
    && AllLetters(codes) && first + |codes| <= |letters| == |results|
    && forall i :: 0 <= i < |codes| ==>
         letters[first + i] == ScancodeLetter(codes[i]) && results[first + i] == Unknown
  }

  /** Cells that hold the first letter at `first` and the other letters after it hold them all. */
  lemma CellsShift(letters: seq<char>, results: seq<MatchResult>, codes: seq<int>, rest: seq<int>,
                   first: nat, next: nat)
    requires codes != [] && AllLetters(codes) && rest == codes[1..] && next == first + 1
    requires Written(letters, results, rest, next)
    requires letters[first] == ScancodeLetter(codes[0]) && results[first] == Unknown
    ensures Written(letters, results, codes, first)
  {
    forall i | 0 <= i < |codes|
      ensures letters[first + i] == ScancodeLetter(codes[i]) && results[first + i] == Unknown
    {
      if i > 0 {
        assert rest[i - 1] == codes[i];
        assert next + (i - 1) == first + i;
      }
    }
  }

  /** Typing letters touches no cell outside the ones it writes. */
  lemma {:induction false} TypedFrame(s: State, codes: seq<int>, list: seq<char>, count: nat)
    requires Shape(s) && WordList(list, count) && !s.endGame
    requires AllLetters(codes) && s.letterIndex + |codes| <= WordLength
    ensures var r := Run(s, LetterKeys(codes), list, count, NoRands(|codes|));
      var first := WordLength * s.tryIndex + s.letterIndex;
      forall k :: 0 <= k < BoardSize && !(first <= k < first + |codes|) ==>
        r.letters[k] == s.letters[k] && r.results[k] == s.results[k]
    decreases |codes|
  {
    if codes != [] {
      var s1 := PressLetter(s, codes[0]);
      RunFirstLetter(s, codes, list, count);
      AllLettersRest(codes);
      TypedFrame(s1, codes[1..], list, count);
      assert WordLength * s1.tryIndex + s1.letterIndex == WordLength * s.tryIndex + s.letterIndex + 1;
    }
  }

  lemma AllLettersRest(codes: seq<int>)
    requires AllLetters(codes) && codes != []
    ensures IsLetterScancode(codes[0]) && AllLetters(codes[1..])
  {
    forall i | 0 <= i < |codes| - 1 ensures IsLetterScancode(codes[1..][i]) {
      assert codes[1..][i] == codes[i + 1];
    }
  }

  /** Running the presses of `codes` is pressing the first letter, then running the rest. */
  lemma RunFirstLetter(s: State, codes: seq<int>, list: seq<char>, count: nat)
    requires Shape(s) && WordList(list, count) && codes != []
    ensures Run(s, LetterKeys(codes), list, count, NoRands(|codes|))
         == Run(PressLetter(s, codes[0]), LetterKeys(codes[1..]), list, count, NoRands(|codes[1..]|))
  {
    var es := LetterKeys(codes);
    assert Step(s, es[0], list, count, 0) == PressLetter(s, codes[0]);
    assert es[1..] == LetterKeys(codes[1..]);
    assert NoRands(|codes|)[1..] == NoRands(|codes[1..]|);
  }

  /** Typing five letters into the empty row of a live game fills that row with them, all Unknown,
      and leaves the row full, ready for Enter. */
  lemma TypeWord(s: State, codes: seq<int>, list: seq<char>, count: nat)
    requires Shape(s) && WordList(list, count) && !s.endGame && s.letterIndex == 0
    requires AllLetters(codes) && |codes| == WordLength
    ensures var r := Run(s, LetterKeys(codes), list, count, NoRands(|codes|));
      && Row(r.letters, s.tryIndex) == seq(WordLength, i requires 0 <= i < WordLength => ScancodeLetter(codes[i]))
      && Row(r.results, s.tryIndex) == seq(WordLength, _ => Unknown)
      && r.letterIndex == WordLength && r.tryIndex == s.tryIndex && !r.endGame
  {
    TypeLetters(s, codes, list, count);
    var r := Run(s, LetterKeys(codes), list, count, NoRands(|codes|));
    var row := Row(r.results, s.tryIndex);
    forall i | 0 <= i < WordLength
      ensures row[i] == Unknown
    {
      var first := WordLength * s.tryIndex + s.letterIndex;
      assert IsLetterScancode(codes[i]);
      assert r.results[first + i] == Unknown;
      assert row[i] == r.results[first + i];
    }
    assert row == seq(WordLength, _ => Unknown);
  }

  /** A won game ends on an all-Correct row, and no earlier row of it is all Correct. */
  lemma WonGame(s: State, list: seq<char>, count: nat)
    requires Inv(s, list, count) && s.wonGame
    ensures Row(s.results, s.tryIndex - 1) == seq(WordLength, _ => Correct)
    ensures forall t :: 0 <= t < s.tryIndex - 1 ==> Row(s.results, t) != seq(WordLength, _ => Correct)
  {
    assert Submitted(s, list, count, s.tryIndex - 1);
    FeedbackOfTarget(s.correctWord);
    forall t | 0 <= t < s.tryIndex - 1
      ensures Row(s.results, t) != seq(WordLength, _ => Correct)
    {
      assert Submitted(s, list, count, t);
      FeedbackAllCorrect(Row(s.letters, t), s.correctWord);
      FeedbackClassifies(Row(s.letters, t), s.correctWord);
      assert Row(s.letters, t) != s.correctWord;
    }
  }

  /** A lost game has used all six tries, each on a listed word that missed the target and whose
      results are therefore not all Correct. */
  lemma LostGame(s: State, list: seq<char>, count: nat)
    requires Inv(s, list, count) && s.endGame && !s.wonGame
    ensures s.tryIndex == TryCount
    ensures forall t :: 0 <= t < TryCount ==>
      && Listed(list, count, Row(s.letters, t))
      && Row(s.letters, t) != s.correctWord
      && Row(s.results, t) != seq(WordLength, _ => Correct)
  {
    forall t | 0 <= t < TryCount
      ensures Listed(list, count, Row(s.letters, t)) && Row(s.letters, t) != s.correctWord
      ensures Row(s.results, t) != seq(WordLength, _ => Correct)
    {
      assert Submitted(s, list, count, t);
      FeedbackAllCorrect(Row(s.letters, t), s.correctWord);
    }
  }

  /** Without wrap-around the flash timer loses three times the elapsed ticks and stops at zero, so
      a flash, which lasts at most 1000, is gone 334 ticks later. */
  lemma FlashDecay(s: State, list: seq<char>, count: nat, now: U64)
    requires Inv(s, list, count)
    requires s.prevTicks <= now && 3 * (now - s.prevTicks) < Two64
    ensures var elapsed := 3 * (now - s.prevTicks);
      Tick(s, now).flashTimer == if s.flashTimer >= elapsed then s.flashTimer - elapsed else 0
    ensures now - s.prevTicks >= 334 ==> Tick(s, now).flashTimer == 0
  {
  }
}
