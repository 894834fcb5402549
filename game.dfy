/** The game state machine: what a key press does to the board, the cursors and the game status,
    and how the invalid-word flash decays from frame to frame. */
module Game {
  import opened Match
  import opened Words

  /** WORDLE_TRY_COUNT: the number of guesses a game allows. */
  const TryCount: nat := 6

  /** The number of cells of each board: TryCount rows of WordLength letters. */
  const BoardSize: nat := 30

  /** How long the screen flashes after a rejected word, in milliseconds. */
  const FlashDuration: nat := 1000

  const Two64: int := 0x1_0000_0000_0000_0000

  /** Uint64. */
  type U64 = x: int | 0 <= x < Two64

  /** The key codes SDL_AppEvent tells apart; every other key is OtherKey. */
  datatype Key = Escape | Backspace | KeypadEnter | Return | Return2 | OtherKey

  /** The events SDL_AppEvent receives. A key press carries its key code and its scancode (the
      physical key, which is what selects a letter). */
  datatype Event = Quit | KeyDown(key: Key, scancode: int) | OtherEvent

  /** What SDL_AppEvent returns: carry on, or end the application. */
  datatype AppResult = AppContinue | AppSuccess

  /** The game part of game_data_t: status flags, cursors, both boards (row-major, 6 rows of 5),
      the target word, the flash timer and the tick count of the previous frame. */
  datatype State = State(endGame: bool, wonGame: bool, tryIndex: int, letterIndex: int,
                         letters: seq<char>, results: seq<MatchResult>, correctWord: seq<char>,
                         flashTimer: U64, prevTicks: U64)

  /** Row `t` of a board. */
  function Row<T>(board: seq<T>, t: nat): seq<T>
    requires WordLength * t + WordLength <= |board|
  {
    board[WordLength * t .. WordLength * t + WordLength]
  }

  /** The sizes and cursor ranges that keep every board access in bounds. */
  predicate Shape(s: State) {
    && |s.letters| == BoardSize && |s.results| == BoardSize && |s.correctWord| == WordLength
    && 0 <= s.letterIndex <= WordLength && 0 <= s.tryIndex <= TryCount
    && (!s.endGame ==> s.tryIndex < TryCount)
  }

  /** A word list of `count` words laid out in `list`, as the game needs it: not empty. */
  predicate WordList(list: seq<char>, count: nat) {
    count > 0 && WordLength * count <= |list|
  }

  /** The board cell of letter `letterIndex` in try `tryIndex`. */
  function Cell(tryIndex: int, letterIndex: int): (cell: nat)
    requires 0 <= tryIndex < TryCount && 0 <= letterIndex < WordLength
    ensures cell < BoardSize
    ensures WordLength * tryIndex <= cell < WordLength * tryIndex + WordLength
    ensures cell - WordLength * tryIndex == letterIndex
  {
    tryIndex * WordLength + letterIndex
  }

  /** The scancodes of the letter keys, A (4) to Z (29). */
  predicate IsLetterScancode(scancode: int) {
    4 <= scancode <= 29
  }

  /** The letter typed by a letter key: scancode + 93, from 'a' for 4 to 'z' for 29. */
  function ScancodeLetter(scancode: int): (c: char)
    requires IsLetterScancode(scancode)
    ensures 'a' <= c <= 'z'
    ensures c as int - 93 == scancode
  {
    (scancode + 93) as char
  }

  // ---------------------------------------------------------------------------
  // Transitions

  /** Backspace: retracts the letter cursor within the current row of a live game. */
  function PressBackspace(s: State): (r: State)
    ensures r == s.(letterIndex := r.letterIndex)
    ensures r.letterIndex < s.letterIndex <==> !s.endGame && s.letterIndex > 0
    ensures r.letterIndex == s.letterIndex || r.letterIndex == s.letterIndex - 1
  {
    if !s.endGame && s.letterIndex > 0 then s.(letterIndex := s.letterIndex - 1) else s
  }

  /** A letter key: on a live game with room in the row, writes the letter at the cursor, resets that
      cell's result to Unknown and advances the cursor; any other scancode does nothing. */
  function PressLetter(s: State, scancode: int): (r: State)
    requires Shape(s)
    ensures Shape(r)
    ensures r == s.(letters := r.letters, results := r.results, letterIndex := r.letterIndex)
    ensures r.letterIndex == s.letterIndex + 1 <==> IsLetterScancode(scancode) && !s.endGame && s.letterIndex < WordLength
    ensures r.letterIndex == s.letterIndex ==> r == s
    ensures r.letterIndex == s.letterIndex + 1 ==>
      r.letters[WordLength * s.tryIndex + s.letterIndex] == ScancodeLetter(scancode) &&
      r.results[WordLength * s.tryIndex + s.letterIndex] == Unknown
    ensures forall i :: 0 <= i < BoardSize && i != WordLength * s.tryIndex + s.letterIndex ==>
      r.letters[i] == s.letters[i] && r.results[i] == s.results[i]
  {
    if IsLetterScancode(scancode) && !s.endGame && s.letterIndex < WordLength then
      var cell := Cell(s.tryIndex, s.letterIndex);
      s.(letters := s.letters[cell := ScancodeLetter(scancode)],
         results := s.results[cell := Unknown],
         letterIndex := s.letterIndex + 1)
    else s
  }

  /** `board` with row `t` replaced by `row`. */
  function WithRow<T>(board: seq<T>, t: nat, row: seq<T>): seq<T>
    requires WordLength * t + WordLength <= |board| && |row| == WordLength
  {
    board[..WordLength * t] + row + board[WordLength * t + WordLength..]
  }

  /** Enter. On a finished game: a new target, slot `rand % count` of the word list, and a fresh
      game, with both boards left as they are. On a full row of a live game: `SubmitRow`. On a row
      that is not full: nothing. */
  function PressEnter(s: State, list: seq<char>, count: nat, rand: nat): (r: State)
    requires Shape(s) && WordList(list, count)
    ensures Shape(r) && r.letters == s.letters
    ensures s.endGame ==> && Listed(list, count, r.correctWord) && !r.endGame && !r.wonGame
                          && r.tryIndex == 0 && r.letterIndex == 0 && r.results == s.results
    ensures !s.endGame ==> r.correctWord == s.correctWord
    ensures !s.endGame && s.letterIndex < WordLength ==> r == s
  {
    if s.endGame then
      s.(correctWord := Slot(list, rand % count), endGame := false, wonGame := false,
         letterIndex := 0, tryIndex := 0)
    else if s.letterIndex == WordLength then SubmitRow(s, list, count)
    else s
  }

  /** Enter on the full row of a live game: the row is matched against the target (its results are
      overwritten whether or not the word is accepted); a word in the list uses up the try and wins
      or, at the last try, loses the game; a word not in the list starts the flash. */
  function SubmitRow(s: State, list: seq<char>, count: nat): (r: State)
    requires Shape(s) && WordList(list, count) && !s.endGame
    ensures Shape(r) && r.letters == s.letters && r.correctWord == s.correctWord
    ensures Row(r.results, s.tryIndex) == Feedback(Row(s.letters, s.tryIndex), s.correctWord)
    ensures r.tryIndex == s.tryIndex + 1 <==> Listed(list, count, Row(s.letters, s.tryIndex))
    ensures forall t :: 0 <= t < TryCount && t != s.tryIndex ==> Row(r.results, t) == Row(s.results, t)
    ensures r.prevTicks == s.prevTicks
  {
    var guess := Row(s.letters, s.tryIndex);
    OtherRowsKept(s.results, s.tryIndex, Feedback(guess, s.correctWord));
    Decided(s.(results := WithRow(s.results, s.tryIndex, Feedback(guess, s.correctWord))),
            guess == s.correctWord, Listed(list, count, guess))
  }

  /** What follows the scoring of a row, given whether it hit the target and whether its word is
      listed: an accepted word uses up the try and wins or, at the last try, loses the game; a
      rejected one starts the flash. */
  function Decided(s: State, correct: bool, listed: bool): (r: State)
    requires Shape(s) && !s.endGame
    ensures Shape(r) && r.letters == s.letters && r.results == s.results && r.correctWord == s.correctWord
    ensures listed ==> && r.tryIndex == s.tryIndex + 1 && r.letterIndex == 0
                       && (r.wonGame <==> correct || s.wonGame)
                       && (r.endGame <==> correct || r.tryIndex == TryCount)
                       && r.flashTimer == s.flashTimer
    ensures !listed ==> r == s.(flashTimer := FlashDuration)
  {
    if listed then
      var t := s.tryIndex + 1;
      var decided :=
        if correct then s.(endGame := true, wonGame := true)
        else if t >= TryCount then s.(endGame := true)
        else s;
      decided.(tryIndex := t, letterIndex := 0)
    else
      s.(flashTimer := FlashDuration)
  }

  predicate IsEnter(key: Key) {
    key == KeypadEnter || key == Return || key == Return2
  }

  /** The state change SDL_AppEvent makes for event `e`; `rand` is what rand() returns if the event
      restarts the game. */
  function Step(s: State, e: Event, list: seq<char>, count: nat, rand: nat): (r: State)
    requires Shape(s) && WordList(list, count)
    ensures Shape(r)
  {
    match e
    case Quit => s
    case OtherEvent => s
    case KeyDown(key, scancode) =>
      if key == Escape then s
      else if key == Backspace then PressBackspace(s)
      else if IsEnter(key) then PressEnter(s, list, count, rand)
      else PressLetter(s, scancode)
  }

  /** What SDL_AppEvent returns: quitting and Escape end the application. */
  function Outcome(e: Event): (r: AppResult)
    ensures r == AppSuccess <==> e == Quit || (e.KeyDown? && e.key == Escape)
    ensures r == AppSuccess ==>
      forall s, list, count, rand :: Shape(s) && WordList(list, count) ==> Step(s, e, list, count, rand) == s
  {
    if e == Quit || (e.KeyDown? && e.key == Escape) then AppSuccess else AppContinue
  }

  /** The timer update of SDL_AppIterate at tick count `now`: the elapsed ticks times three come off
      the flash timer, which stops at zero; the arithmetic is Uint64's, modulo 2^64. */
  function Tick(s: State, now: U64): (r: State)
    ensures r.flashTimer <= s.flashTimer
    ensures r == s.(flashTimer := r.flashTimer, prevTicks := now)
  {
    var deltaTicks := (now - s.prevTicks) % Two64;
    var deltaTime := (deltaTicks * 3) % Two64;
    s.(prevTicks := now, flashTimer := if s.flashTimer >= deltaTime then s.flashTimer - deltaTime else 0)
  }

  // ---------------------------------------------------------------------------
  // The invariant

  /** Try `t` has been submitted: its word is in the list, its results are its feedback, and it
      missed the target unless it is the winning try. */
  ghost predicate Submitted(s: State, list: seq<char>, count: nat, t: nat)
    requires Shape(s) && WordList(list, count) && t < s.tryIndex
  {
    && Listed(list, count, Row(s.letters, t))
    && Row(s.results, t) == Feedback(Row(s.letters, t), s.correctWord)
    && (Row(s.letters, t) == s.correctWord ==> s.wonGame && t == s.tryIndex - 1)
  }

  /** What every reachable state satisfies: the shape, a won game is over and its last try is the
      target, a game that is over but not won has used every try, the flash lasts at most a second,
      the target is a listed word, and every earlier try of the current game is a listed word with
      its feedback that, unless it won the game, missed the target. */
  ghost predicate Inv(s: State, list: seq<char>, count: nat) {
    && Shape(s) && WordList(list, count)
    && (s.wonGame ==> s.endGame)
    && (s.endGame && !s.wonGame ==> s.tryIndex == TryCount)
    && (s.wonGame ==> 1 <= s.tryIndex && Row(s.letters, s.tryIndex - 1) == s.correctWord)
    && s.flashTimer <= FlashDuration
    && Listed(list, count, s.correctWord)
    && (forall t :: 0 <= t < s.tryIndex ==> Submitted(s, list, count, t))
  }

  lemma RowOfWithRow<T>(board: seq<T>, t: nat, row: seq<T>, u: nat)
    requires WordLength * t + WordLength <= |board| && |row| == WordLength
    requires WordLength * u + WordLength <= |board|
    ensures Row(WithRow(board, t, row), u) == if u == t then row else Row(board, u)
  {
    var b := WithRow(board, t, row);
    assert |b| == |board|;
    if u < t {
      assert Row(b, u) == Row(board, u);
    } else if u > t {
      assert forall q :: WordLength * u <= q < WordLength * u + WordLength ==> b[q] == board[q];
    }
  }

  /** Replacing row `t` keeps every other row of a board. */
  lemma OtherRowsKept<T>(board: seq<T>, t: nat, row: seq<T>)
    requires |board| == BoardSize && t < TryCount && |row| == WordLength
    ensures forall u :: 0 <= u < TryCount && u != t ==> Row(WithRow(board, t, row), u) == Row(board, u)
  {
    forall u | 0 <= u < TryCount && u != t
      ensures Row(WithRow(board, t, row), u) == Row(board, u)
    {
      RowOfWithRow(board, t, row, u);
    }
  }

  lemma RowOfUpdate<T>(board: seq<T>, cell: nat, x: T, u: nat)
    requires cell < |board| && WordLength * u + WordLength <= |board|
    requires cell < WordLength * u || WordLength * u + WordLength <= cell
    ensures Row(board[cell := x], u) == Row(board, u)
  {
  }

  /** A board whose row `t` is `row` and whose other cells are those of `board` is `WithRow`. */
  lemma ScoredRow<T>(board: seq<T>, scored: seq<T>, t: nat, row: seq<T>)
    requires WordLength * t + WordLength <= |board| == |scored| && |row| == WordLength
    requires scored[WordLength * t .. WordLength * t + WordLength] == row
    requires scored[..WordLength * t] == board[..WordLength * t]
    requires scored[WordLength * t + WordLength..] == board[WordLength * t + WordLength..]
    ensures scored == WithRow(board, t, row)
  {
    assert scored == scored[..WordLength * t] + scored[WordLength * t .. WordLength * t + WordLength]
      + scored[WordLength * t + WordLength..];
  }

  lemma SlotListed(list: seq<char>, count: nat, k: nat)
    requires WordList(list, count) && k < count
    ensures Listed(list, count, Slot(list, k))
  {
  }

  /** Every transition keeps the invariant. */
  lemma StepKeepsInv(s: State, e: Event, list: seq<char>, count: nat, rand: nat)
    requires Inv(s, list, count)
    ensures Inv(Step(s, e, list, count, rand), list, count)
  {
    if e.KeyDown? && e.key != Escape && e.key != Backspace {
      if IsEnter(e.key) {
        EnterKeepsInv(s, list, count, rand);
      } else {
        LetterKeepsInv(s, list, count, e.scancode);
      }
    } else {
      var r := Step(s, e, list, count, rand);
      assert r == s || r == PressBackspace(s);
      forall t | 0 <= t < r.tryIndex
        ensures Submitted(r, list, count, t)
      {
        assert Submitted(s, list, count, t);
      }
    }
  }

  lemma LetterKeepsInv(s: State, list: seq<char>, count: nat, scancode: int)
    requires Inv(s, list, count)
    ensures Inv(PressLetter(s, scancode), list, count)
  {
    if IsLetterScancode(scancode) && !s.endGame && s.letterIndex < WordLength {
      var r := PressLetter(s, scancode);
      var cell := Cell(s.tryIndex, s.letterIndex);
      forall t | 0 <= t < r.tryIndex
        ensures Submitted(r, list, count, t)
      {
        assert Submitted(s, list, count, t);
        RowOfUpdate(s.letters, cell, ScancodeLetter(scancode), t);
        RowOfUpdate(s.results, cell, Unknown, t);
      }
    }
  }

  lemma EnterKeepsInv(s: State, list: seq<char>, count: nat, rand: nat)
    requires Inv(s, list, count)
    ensures Inv(PressEnter(s, list, count, rand), list, count)
  {
    if s.endGame {
      SlotListed(list, count, rand % count);
    } else if s.letterIndex == WordLength {
      SubmitKeepsInv(s, list, count);
    }
  }

  /** Submitting a full row keeps the invariant: the scored row joins the submitted tries only when
      its word is listed. */
  lemma SubmitKeepsInv(s: State, list: seq<char>, count: nat)
    requires Inv(s, list, count) && !s.endGame && s.letterIndex == WordLength
    ensures Inv(SubmitRow(s, list, count), list, count)
  {
    var r := SubmitRow(s, list, count);
    var guess := Row(s.letters, s.tryIndex);
    var fb := Feedback(guess, s.correctWord);
    assert r.letters == s.letters && r.correctWord == s.correctWord;
    assert r.results == WithRow(s.results, s.tryIndex, fb);
    forall t | 0 <= t < r.tryIndex
      ensures Submitted(r, list, count, t)
    {
      RowOfWithRow(s.results, s.tryIndex, fb, t);
      if t < s.tryIndex {
        assert Submitted(s, list, count, t);
      } else {
        assert t == s.tryIndex && Listed(list, count, guess);
      }
    }
  }

  /** The timer update keeps the invariant. */
  lemma TickKeepsInv(s: State, list: seq<char>, count: nat, now: U64)
    requires Inv(s, list, count)
    ensures Inv(Tick(s, now), list, count)
  {
    var r := Tick(s, now);
    forall t | 0 <= t < r.tryIndex
      ensures Submitted(r, list, count, t)
    {
      assert Submitted(s, list, count, t);
    }
  }

  /** The state after the events `es`, in order; `rands[i]` is what rand() returns if event `i`
      restarts the game. */
  function Run(s: State, es: seq<Event>, list: seq<char>, count: nat, rands: seq<nat>): (r: State)
    requires Shape(s) && WordList(list, count) && |rands| == |es|
    ensures Shape(r)
    decreases |es|
  {
    if es == [] then s
    else Run(Step(s, es[0], list, count, rands[0]), es[1..], list, count, rands[1..])
  }

  /** Every sequence of events keeps the invariant. */
  lemma {:induction false} RunKeepsInv(s: State, es: seq<Event>, list: seq<char>, count: nat, rands: seq<nat>)
    requires Inv(s, list, count) && |rands| == |es|
    ensures Inv(Run(s, es, list, count, rands), list, count)
    decreases |es|
  {
    if es != [] {
      StepKeepsInv(s, es[0], list, count, rands[0]);
      RunKeepsInv(Step(s, es[0], list, count, rands[0]), es[1..], list, count, rands[1..]);
    }
  }

  // ---------------------------------------------------------------------------
  // The game data, updated in place

  /** game_data_t without its window, renderer and texture. */
  class GameData {
    var endGame: bool
    var wonGame: bool
    var tryIndex: int
    var letterIndex: int
    const wordCount: nat
    const allWords: array<char>
    const correctWord: array<char>
    const fullLetterBoard: array<char>
    const fullResultBoard: array<MatchResult>
    var flashTimer: U64
    var prevTicks: U64

    /** The game data as a value. */
    ghost function Snapshot(): State
      reads this, correctWord, fullLetterBoard, fullResultBoard
    {
      State(endGame, wonGame, tryIndex, letterIndex, fullLetterBoard[..], fullResultBoard[..],
            correctWord[..], flashTimer, prevTicks)
    }

    /** The sizes and the separation of the arrays, which every method relies on. */
    ghost predicate Fits()
      reads this, allWords, correctWord, fullLetterBoard, fullResultBoard
    {
      && correctWord != allWords && fullLetterBoard != allWords && fullLetterBoard != correctWord
      && Shape(Snapshot()) && WordList(allWords[..], wordCount)
    }

    ghost predicate Valid()
      reads this, allWords, correctWord, fullLetterBoard, fullResultBoard
    {
      Fits() && Inv(Snapshot(), allWords[..], wordCount)
    }

    /** The game part of SDL_AppInit: reads the word list from `text`, clears the result board,
        selects the first target with `rand` and starts the clock at `ticks`. The letter board is
        left uninitialised. */
    constructor (text: seq<char>, rand: nat, ticks: U64)
      requires WordCount(text) > 0
      ensures Valid()
      ensures wordCount == WordCount(text)
      ensures forall k :: 0 <= k < wordCount ==> Holds(allWords[..], k, Lines(text)[k])
      ensures fullResultBoard[..] == seq(BoardSize, _ => Unknown)
      ensures correctWord[..] == Slot(allWords[..], rand % wordCount)
      ensures !endGame && !wonGame && tryIndex == 0 && letterIndex == 0
      ensures flashTimer == 0 && prevTicks == ticks
    {
      var letters := new char[BoardSize];
      var results := new MatchResult[BoardSize];
      for i := 0 to BoardSize
        invariant forall k :: 0 <= k < i ==> results[k] == Unknown
      {
        results[i] := Unknown;
      }
      var target := new char[WordLength];
      var words, count := ReadWords(text);
      SelectWord(words, count, target, rand);
      fullLetterBoard, fullResultBoard, correctWord := letters, results, target;
      allWords, wordCount := words, count;
      letterIndex, tryIndex := 0, 0;
      endGame, wonGame := false, false;
      flashTimer := 0;
      prevTicks := ticks;
      new;
      assert target[..] == target[..WordLength];
      assert fullResultBoard[..] == seq(BoardSize, _ => Unknown);
    }

    /** SDL_AppEvent: applies event `e` to the game; `rand` is what rand() returns if the event
        restarts the game. */
    method HandleEvent(e: Event, rand: nat) returns (result: AppResult)
      requires Valid()
      modifies this, correctWord, fullLetterBoard, fullResultBoard
      ensures Valid()
      ensures Snapshot() == Step(old(Snapshot()), e, allWords[..], wordCount, rand)
      ensures result == Outcome(e)
    {
      ghost var before := Snapshot();
      StepKeepsInv(before, e, allWords[..], wordCount, rand);
      result := AppContinue;
      match e
      case Quit =>
        result := AppSuccess;
      case OtherEvent =>
      case KeyDown(key, scancode) =>
        if key == Escape {
          result := AppSuccess;
        } else if key == Backspace {
          if !endGame && letterIndex > 0 {
            letterIndex := letterIndex - 1;
          }
        } else if IsEnter(key) {
          Enter(rand);
        } else {
          TypeLetter(scancode);
        }
    }

    /** The letter-key branch of SDL_AppEvent. */
    method TypeLetter(scancode: int)
      requires Fits()
      modifies this, fullLetterBoard, fullResultBoard
      ensures Fits()
      ensures Snapshot() == PressLetter(old(Snapshot()), scancode)
    {
      if IsLetterScancode(scancode) && !endGame && letterIndex < WordLength {
        var boardIndex := Cell(tryIndex, letterIndex);
        fullLetterBoard[boardIndex] := ScancodeLetter(scancode);
        fullResultBoard[boardIndex] := Unknown;
        letterIndex := letterIndex + 1;
      }
    }

    /** The Enter branch of SDL_AppEvent. */
    method Enter(rand: nat)
      requires Fits()
      modifies this, correctWord, fullResultBoard
      ensures Fits()
      ensures Snapshot() == PressEnter(old(Snapshot()), allWords[..], wordCount, rand)
    {
      if endGame {
        Restart(rand);
      } else if letterIndex == WordLength {
        Submit();
      }
    }

    /** Enter on a finished game: a new target and a fresh game on the same boards. */
    method Restart(rand: nat)
      requires Fits() && endGame
      modifies this, correctWord
      ensures Fits()
      ensures Snapshot() == PressEnter(old(Snapshot()), allWords[..], wordCount, rand)
    {
      SelectWord(allWords, wordCount, correctWord, rand);
      assert correctWord[..] == correctWord[..WordLength];
      endGame, wonGame := false, false;
      letterIndex, tryIndex := 0, 0;
    }

    /** Enter on a full row of a live game: match it, then accept or reject the word. */
    method Submit()
      requires Fits() && !endGame && letterIndex == WordLength
      modifies this, fullResultBoard
      ensures Fits()
      ensures Snapshot() == SubmitRow(old(Snapshot()), allWords[..], wordCount)
    {
      var correct := Score();
      var boardOffset := tryIndex * WordLength;
      var valid := ValidateWord(allWords, wordCount, fullLetterBoard, boardOffset);
      assert fullLetterBoard[boardOffset..boardOffset + WordLength] == Row(fullLetterBoard[..], tryIndex);
      Decide(correct, valid);
    }

    /** The accept-or-reject step of Enter, after the row has been scored. */
    method Decide(correct: bool, valid: bool)
      requires Fits() && !endGame
      modifies this
      ensures Fits()
      ensures Snapshot() == Decided(old(Snapshot()), correct, valid)
    {
      if valid {
        tryIndex := tryIndex + 1;
        if correct {
          endGame, wonGame := true, true;
        } else if tryIndex >= TryCount {
          endGame := true; // the sixth try missed
        }
        letterIndex := 0;
      } else {
        flashTimer := FlashDuration;
      }
    }

    /** The wordle_try_match call of Enter: classifies the current row against the target into
        the same row of the result board. */
    method Score() returns (correct: bool)
      requires Fits() && !endGame
      modifies fullResultBoard
      ensures Fits()
      ensures Snapshot() == old(Snapshot()).(results := WithRow(old(fullResultBoard[..]), tryIndex,
        Feedback(Row(fullLetterBoard[..], tryIndex), correctWord[..])))
      ensures correct <==> Row(fullLetterBoard[..], tryIndex) == correctWord[..]
    {
      ghost var before := Snapshot();
      ghost var guess := Row(before.letters, tryIndex);
      var boardOffset := tryIndex * WordLength;
      assert fullLetterBoard[boardOffset..boardOffset + WordLength] == guess;
      assert correctWord[..WordLength] == before.correctWord;
      correct := TryMatch(fullLetterBoard, boardOffset, correctWord, fullResultBoard, boardOffset, WordLength);
      ghost var fb := Feedback(guess, before.correctWord);
      FeedbackClassifies(guess, before.correctWord);
      assert fullResultBoard[boardOffset..boardOffset + WordLength] == fb;
      ScoredRow(before.results, fullResultBoard[..], tryIndex, fb);
    }

    /** The timer update of SDL_AppIterate at tick count `newTicks`. */
    method Iterate(newTicks: U64)
      requires Valid()
      modifies this
      ensures Valid()
      ensures Snapshot() == Tick(old(Snapshot()), newTicks)
    {
      ghost var before := Snapshot();
      TickKeepsInv(before, allWords[..], wordCount, newTicks);
      var deltaTicks := (newTicks - prevTicks) % Two64;
      prevTicks := newTicks;
      var deltaTime := (deltaTicks * 3) % Two64;
      flashTimer := if flashTimer >= deltaTime then flashTimer - deltaTime else 0;
      assert Snapshot() == Tick(before, newTicks);
    }
  }
}
