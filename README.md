# Whydle game logic in Dafny

Whydle is a Wordle clone written in C on SDL3, in `src/main.c`. A player has six tries to guess a
five-letter target word. After each accepted try, every letter is classified as correct,
in the wrong spot or nowhere. This project models the game logic without the SDL shell and proves
what that logic promises. It has four modules:

- `Match` (`match.dfy`): the two-pass feedback routine `wordle_try_match`.
  - `Feedback` is the reference definition, written as a left-to-right scan over the guess.
  - The method `TryMatch` works on arrays with offsets, as the C code works on addresses inside the boards. It is proved to fill its row with exactly `Feedback`, and to return true iff the guess is the target.
  - The lemmas prove the properties of the classification: no letter is left unknown; a letter is correct iff it matches in place; a letter is never credited more often than the target holds it; nowhere means the target's copies are all used up; wrong spot means an unmatched copy exists elsewhere.
- `Words` (`words.dfy`): the word list.
  - The file is a character sequence. `Lines` splits it at `'\n'`, and `WordCount` is the number of lines, minus a short last line.
  - `ReadWords` is the two-pass reader. Its first loop counts the lines and its second copies at most five letters of each line into a five-letter slot.
  - `ValidateWord` is the linear membership test.
  - `SelectWord` copies slot `rand % count` into the target.
- `Game` (`game.dfy`): the game state machine, on two levels.
  - As values: `State`, with the transition functions `Step`, `PressEnter` and `Tick`, and the invariant `Inv` that every transition keeps.
  - In place: the class `GameData`, with the fields of `game_data_t` and the two boards as arrays. Its methods are proved to change the state exactly as `Step` and `Tick` say.
- `GameProps` (`props.dfy`): what each key does for a player, typing a word, and what a won or a lost game looks like.

Inputs the program gets from its environment are parameters of the model:
- the contents of the word-list file;
- the value `rand()` returns when a target is chosen;
- the tick count `SDL_GetTicks()` returns at each frame.

Three behaviours of the code a reader might not expect:
- The guess "allow" against the target "aorta" gives correct, nowhere, nowhere, wrong spot, nowhere. The 'o' is credited to the target's 'o' (`Match.AllowAgainstAorta`).
- A word that is not in the list still has its result row overwritten by the match. The classifications do not stay unset (`GameProps.RejectedGuess`).
- A restart clears neither board. It only picks a new target and resets the flags and cursors. A result cell goes back to unknown when a letter is typed into it (`GameProps.RestartKeepsBoards`).

## Model

| member | source | states |
|---|---|---|
| Match.LeftmostFree | src/main.c:89-98 | the index found is the leftmost unconsumed target letter equal to the guessed letter, or the length when there is none |
| Match.AfterExact | src/main.c:62-78 | the scratch copy after the exact-hit pass has the target's length; every cell keeps the target's letter or sits under an exact hit, and every exact hit is consumed |
| Match.FindFree | src/main.c:89-98 | the inner search loop returns exactly `LeftmostFree` of the scratch copy |
| Match.ResetAndCopy | src/main.c:62-68 | the scratch copy is a fresh array equal to the target, every result cell of the row is Unknown, and no cell outside the row changes |
| Match.ExactPass | src/main.c:62-78 | after the reset-and-copy loop and the exact-hit pass, the scratch copy is the target with every in-place hit consumed, each result cell is Correct where the letters agree and Unknown elsewhere, and no cell outside the row changes |
| Match.ElsewherePass | src/main.c:80-99 | the second pass turns the row into exactly `Feedback` of the guess and the target, and no cell outside the row changes |
| Match.ClassifyAt | src/main.c:82-98 | classifying letter i extends the scan by exactly the mark written into cell i, leaves the scratch copy as the scan leaves it, and changes no other result cell |
| Match.ClassifiedStep | src/main.c:80-99 | one classified cell extends the classified prefix of the row by one and keeps the pending cells and the cells outside the row |
| Match.AllCorrect | src/main.c:103-110 | returns true iff every result cell of the row is Correct |
| Match.TryMatch | src/main.c:60-111 | the result row becomes `Feedback(guess, target)`, the rest of the result array and both words are unchanged, and the return value is true iff the guess equals the target |
| Match.ScanPrefix | src/main.c:80-99 | after k letters the scan holds one mark per scanned letter and a scratch copy as long as the target |
| Match.Feedback | src/main.c:60-99 | the classifications written for a guess, one per guessed letter; what they mean is stated by `FeedbackClassifies`, `FeedbackNeverOvercounts`, `WrongSpotIsElsewhere` and `NowhereMeansExhausted` |
| Match.ScanClassifies | src/main.c:71-99 | every scanned position is classified (never Unknown) and is Correct iff its letters agree |
| Match.FeedbackClassifies | src/main.c:71-99 | the feedback has one entry per letter, none Unknown, and an entry is Correct iff the guess and the target agree there |
| Match.FeedbackAllCorrect | src/main.c:103-110 | every entry is Correct iff the guess equals the target |
| Match.ScanFaithful | src/main.c:76-77 | every unconsumed letter of the scratch copy is the target's letter, at a position the guess does not match |
| Match.WrongSpotIsElsewhere | src/main.c:91-97 | a WrongSpot letter occurs in the target at a position whose own letter the guess misses |
| Match.WrongSpotAt | src/main.c:91-97 | the same for each prefix of the scan |
| Match.AfterExactBalance | src/main.c:71-78 | for every letter, the unconsumed count of a suffix plus the in-place hits in that suffix equals the target's count in it |
| Match.CreditedSnoc | src/main.c:80-99 | appending a classification credits the guessed letter exactly when it is a hit |
| Match.ConsumeOne | src/main.c:76-77 | overwriting an unconsumed letter with the sentinel lowers that letter's count by one and leaves the others |
| Match.ScanBalanceStep | src/main.c:80-99 | one step of the scan keeps the sum of unconsumed, credited and pending in-place letters |
| Match.ScanMarkStep | src/main.c:82-97 | classifying one letter credits it exactly when it is marked Correct or WrongSpot |
| Match.ScanScratchStep | src/main.c:91-97 | classifying one letter consumes one copy of it from the scratch copy exactly when it is marked WrongSpot |
| Match.ScanBalance | src/main.c:71-99 | for every letter, the unconsumed, credited and pending in-place copies add up to the target's count |
| Match.FeedbackNeverOvercounts | src/main.c:73-98 | no letter is credited (Correct or WrongSpot) more often than the target contains it |
| Match.ScanConsumes | src/main.c:89-98 | the scan never adds letters back to the scratch copy |
| Match.ConsumesOnce | src/main.c:89-98 | classifying one letter never adds a copy of any letter to the scratch copy |
| Match.NowhereMeansExhausted | src/main.c:87-98 | a Nowhere letter has every copy in the target credited to some position |
| Match.NowhereAt | src/main.c:89-98 | a letter is marked Nowhere only when no unconsumed copy of it is left |
| Match.FeedbackOfTarget | src/main.c:71-78 | guessing the target gives an all-Correct row |
| Match.AllowAgainstAorta | src/main.c:60-111 | "allow" against "aorta" gives Correct, Nowhere, Nowhere, WrongSpot, Nowhere |
| Match.AortaFirstStep | src/main.c:71-78 | the exact pass consumes the leading 'a' of "aorta" and the first letter is Correct |
| Match.AortaMiddleSteps | src/main.c:87-98 | neither 'l' of "allow" finds a free 'l', so both are Nowhere and nothing is consumed |
| Match.AortaFourthStep | src/main.c:89-97 | the 'o' of "allow" is credited to the target's 'o', which is consumed |
| Match.AortaLastStep | src/main.c:87-98 | the 'w' finds nothing and is Nowhere |
| Words.Lines | src/main.c:270-281 | every file, the empty one included, splits into at least one line |
| Words.LinesSnoc | src/main.c:270-281 | reading one more character extends the lines as the reader does: a newline opens a new line and any other character joins the last one |
| Words.LinesCount | src/main.c:266-281 | the number of lines is the number of newlines plus one |
| Words.LinesHaveNoNewLine | src/main.c:270-281 | no line contains a newline |
| Words.JoinLines | src/main.c:270-281 | joining the lines with newlines gives the file back |
| Words.LinesOfJoinLine | src/main.c:270-281 | a newline and a line appended to a file add exactly that line |
| Words.LinesOfLine | src/main.c:270-281 | a text without newlines is one line |
| Words.LinesJoin | src/main.c:270-281 | splitting newline-joined lines gives those lines back |
| Words.LinesPrefix | src/main.c:297-309 | a prefix of the file has no more lines than the file, and its complete lines are the file's |
| Words.WordCount | src/main.c:266-288 | the number of words is the number of lines, less one exactly when the last line is shorter than a word |
| Words.WordFileLines | src/main.c:266-288 | a file of five-letter lines, with or without a trailing newline, counts one word per line and its lines are those words |
| Words.WordFileSlots | src/main.c:266-309 | on a file of five-letter lines, with or without a trailing newline, the word count is the number of lines, and slots that hold their lines are exactly those words |
| Words.CountWords | src/main.c:266-288 | the counting pass returns `WordCount`: the lines, minus a last line shorter than five letters |
| Words.CopyWords | src/main.c:292-310 | the copying pass allocates five letters per word and slot k holds the first min(5, length) letters of line k |
| Words.CopyAt | src/main.c:297-309 | one character of the copying loop extends the copy invariant from the file read so far to one more character |
| Words.CopyChar | src/main.c:299-308 | one character of the copying pass keeps the copy invariant for the lines read so far |
| Words.CopiedAll | src/main.c:297-310 | when the copying loop stops, every slot holds its line's first letters |
| Words.CopiedNewLine | src/main.c:300-304 | a newline moves the copy to the next slot and keeps the earlier slots |
| Words.CopiedLetter | src/main.c:305-308 | a letter within the first five is stored at the cursor of the current slot |
| Words.CopiedPastSlot | src/main.c:305 | a letter beyond the fifth is dropped |
| Words.HoldsFrame | src/main.c:307 | a write to a later slot keeps a filled slot |
| Words.SlotGrows | src/main.c:307 | writing a line's next letter extends its slot prefix by that letter |
| Words.ReadWords | src/main.c:257-314 | returns `WordCount` of the file and an array in which every slot holds its line's first letters |
| Words.ValidateWord | src/main.c:316-327 | true iff some slot below the word count equals the five letters of the word |
| Words.SelectWord | src/main.c:329-339 | the buffer's first five letters become slot `rand % count`, which is a listed word, and the rest of the buffer is unchanged |
| Game.Cell | src/main.c:410 | the cell of a try and a letter lies inside that try's row of the 30-cell board |
| Game.ScancodeLetter | src/main.c:411 | the scancodes 4 to 29 type the letters 'a' to 'z' |
| Game.PressBackspace | src/main.c:358-364 | Backspace changes only the letter cursor, and moves it back by one exactly when the game is live and the row is not empty |
| Game.PressLetter | src/main.c:405-415 | a letter key advances the cursor exactly when the scancode is a letter's, the game is live and the row has room; it then writes that letter with an Unknown result at the cursor's cell, and touches no other cell and no other field; otherwise nothing changes |
| Game.PressEnter | src/main.c:365-404 | Enter on a finished game starts a live game on a listed target at try 0 and letter 0, keeping both boards; on a live game it keeps the target and the letters, and on a row that is not full it changes nothing |
| Game.SubmitRow | src/main.c:374-403 | submitting a full row writes its feedback into that row of the result board, keeps every other row, the letters, the target and the tick count, and uses up the try exactly when the word is listed |
| Game.Decided | src/main.c:382-402 | a listed word advances the try, resets the letter cursor, wins exactly on a hit and ends the game on a hit or at the sixth try; an unlisted word only sets the flash to 1000; the boards and the target never change |
| Game.Outcome | src/main.c:348-357 | the application ends exactly on Quit and on Escape, and those events leave the game state unchanged |
| Game.Step | src/main.c:341-418 | every event keeps the board sizes, both cursors in range and a live game below six tries |
| Game.Tick | src/main.c:424-429 | the timer update never raises the flash timer and changes nothing but the timer and the previous tick count |
| Game.RowOfWithRow | src/main.c:376-383 | replacing one row of a board changes that row and no other |
| Game.OtherRowsKept | src/main.c:376-383 | replacing one row of a board keeps every other row |
| Game.RowOfUpdate | src/main.c:408-412 | writing a cell outside a row leaves the row unchanged |
| Game.ScoredRow | src/main.c:376-383 | a board that agrees with the old one outside a row, and whose row is the feedback, is that row replaced |
| Game.SlotListed | src/main.c:329-339 | every slot of the list is a listed word |
| Game.StepKeepsInv | src/main.c:341-418 | every event keeps the invariant: won implies over; over but not won means six tries used; a won game's last try is the target; the flash is at most 1000; the target is listed; every earlier try is a listed word with its feedback that missed the target unless it won |
| Game.LetterKeepsInv | src/main.c:405-415 | a letter key keeps the invariant |
| Game.EnterKeepsInv | src/main.c:365-404 | Enter keeps the invariant |
| Game.SubmitKeepsInv | src/main.c:374-403 | submitting a full row keeps the invariant; the row joins the submitted tries only when its word is listed |
| Game.TickKeepsInv | src/main.c:424-429 | the timer update keeps the invariant |
| Game.Run | src/main.c:341-418 | any sequence of events keeps the board sizes and cursor ranges |
| Game.RunKeepsInv | src/main.c:341-418 | any sequence of events keeps the invariant |
| Game.GameData.constructor | src/main.c:524-543 | the initial state: word list read from the file, result board all Unknown, target is slot `rand % count`, game live at try 0 and letter 0, flash 0, ticks from the clock, and the invariant holds |
| Game.GameData.HandleEvent | src/main.c:341-418 | the game data changes exactly as `Step`, the invariant is kept, and Quit and Escape end the application while every other event continues it |
| Game.GameData.TypeLetter | src/main.c:405-415 | the letter-key branch changes the game data exactly as `PressLetter` |
| Game.GameData.Enter | src/main.c:365-404 | the Enter branch changes the game data exactly as `PressEnter` |
| Game.GameData.Restart | src/main.c:367-373 | a restart changes the game data exactly as `PressEnter` on a finished game |
| Game.GameData.Submit | src/main.c:374-403 | a submission changes the game data exactly as `SubmitRow` |
| Game.GameData.Decide | src/main.c:382-402 | the accept-or-reject step changes the game data exactly as `Decided` for the match result and the list lookup |
| Game.GameData.Score | src/main.c:376-381 | the current row of the result board becomes its feedback, nothing else changes, and the result is true iff the row is the target |
| Game.GameData.Iterate | src/main.c:424-429 | the timer update changes the game data exactly as `Tick` and keeps the invariant |
| GameProps.BackspaceOnlyRetracts | src/main.c:358-364 | Backspace moves the cursor back by one iff the game is live and the row is not empty, and changes nothing else |
| GameProps.BackspaceAfterLetter | src/main.c:358-364 | a letter and then Backspace restore the cursor and leave the letter with an Unknown result on the board |
| GameProps.FinishedGameIgnoresKeys | src/main.c:358-415 | on a finished game every event but Enter leaves the state unchanged |
| GameProps.EnterOnPartialRow | src/main.c:374-375 | Enter on a live row that is not full changes nothing |
| GameProps.LetterKeyIgnored | src/main.c:405-407 | a key press whose scancode is not a letter's, or that comes when the row is full, leaves the state unchanged |
| GameProps.AcceptedGuess | src/main.c:374-398 | the whole new state after a listed guess: its row of results is its feedback and the other rows are kept; the try is used up and the cursor reset; the game is won iff the guess is the target, and it ends on a hit or at the sixth try; every other field is unchanged |
| GameProps.AcceptedRow | src/main.c:382-398 | the same whole new state for the submission of a listed word, stated on `SubmitRow` |
| GameProps.RejectedGuess | src/main.c:374-402 | an unlisted guess starts the 1000 ms flash and does not use up the try, yet its result row becomes its feedback; every other row and field is unchanged |
| GameProps.RestartKeepsBoards | src/main.c:367-373 | the whole new state after a restart: the target becomes slot `rand % count`, a listed word; the flags and cursors are reset; both boards, the flash and the tick count are kept |
| GameProps.TypeLetters | src/main.c:405-415 | typing letters on a live game writes them from the cursor on with Unknown results, advances the cursor by their number and touches no other cell or field |
| GameProps.TypedFields | src/main.c:405-415 | typing letters advances the cursor by their number and changes no field but the boards |
| GameProps.TypedCells | src/main.c:405-415 | typing letters writes them one after the other from the cursor, each with an Unknown result |
| GameProps.TypedFrame | src/main.c:405-415 | typing letters touches no cell outside the ones it writes |
| GameProps.RunFirstLetter | src/main.c:341-418 | running the key presses of several letters is pressing the first, then running the rest |
| GameProps.TypeWord | src/main.c:405-415 | typing five letters into an empty row fills it with those letters, all Unknown, and leaves it ready for Enter |
| GameProps.WonGame | src/main.c:385-390 | a won game ends on an all-Correct row and no earlier row is all Correct |
| GameProps.LostGame | src/main.c:391-397 | a lost game has used all six tries, each a listed word that missed the target and whose results are not all Correct |
| GameProps.FlashDecay | src/main.c:424-429 | without wrap-around the flash loses three times the elapsed ticks and stops at zero, so a flash is gone 334 ticks later |

## Left out

- Rendering is not modelled: `wordle_render_bg`, `wordle_draw_word`, `wordle_render_board` and the drawing half of `SDL_AppIterate` (src/main.c:113-255, 431-467) are SDL draw calls on float rectangles.
- The SDL lifecycle is not modelled: `SDL_AppInit` apart from the game state, and `SDL_AppQuit`. Window, renderer and texture creation, BMP loading and the failures they report are foreign calls.
- File I/O is a parameter: the file's contents are a character sequence. A file that cannot be opened, where the reader returns NULL, is not modelled.
- The clock and the random numbers are parameters: `SDL_GetTicks()` and `rand()`. Seeding with `srand(time(nullptr))` has no counterpart.
- A null `appstate` in `SDL_AppEvent` is not modelled, because the game data always exists here.
- Words.ReadWords: the five letters of a slot whose line is shorter than five characters hold uninitialised `malloc` bytes beyond the line in the C code. The contract states only the letters the line supplies, so the rest of such a slot is unspecified.
- Words.CountWords: `line_count` is a C `int`, and a file with more than 2^31 newlines would overflow it. The model counts with unbounded integers.
- Game.GameData.constructor: requires a non-empty word list. With an empty list the C code computes `rand() % 0`, which is undefined behaviour.
- Game.GameData.constructor: the letter board comes from `malloc` and starts uninitialised, so the constructor states nothing about it.
- The window size arithmetic is a constant of the rendering and is not modelled.
- The sentinel: a guess letter equal to `'\0'` would interact with the sentinel that marks consumed target letters. `Match.Feedback` follows the C code for every character. The letter-count lemmas are stated for letters other than `'\0'`, and typed letters are always 'a' to 'z'.
