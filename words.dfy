/** The word repository: the word list parsed from a text file into fixed five-letter slots,
    membership of a guess, and the choice of a target word. */
module Words {

  /** WORDLE_LETTER_COUNT: the length of every word and of every slot. */
  const WordLength: nat := 5

  const NewLine: char := '\n'

  function Min(a: int, b: int): int {
    if a <= b then a else b
  }

  function Last<T>(s: seq<T>): T
    requires |s| > 0
  {
    s[|s| - 1]
  }

  // ---------------------------------------------------------------------------
  // Lines of a text

  /** The lines of `text`: the pieces between newline characters, the last one possibly empty. */
  function Lines(text: seq<char>): (lines: seq<seq<char>>)
    ensures |lines| >= 1
    decreases |text|
  {
    if text == [] then [[]] else NextLines(Lines(text[..|text| - 1]), Last(text))
  }

  /** The lines after one more character: a newline starts a new line, anything else extends the last. */
  function NextLines(lines: seq<seq<char>>, c: char): (next: seq<seq<char>>)
    requires |lines| >= 1
    ensures |next| >= 1
  {
    if c == NewLine then lines + [[]] else lines[..|lines| - 1] + [Last(lines) + [c]]
  }

  /** The inverse of Lines: the lines put back together with a newline between each two. */
  function Join(lines: seq<seq<char>>): seq<char>
    requires |lines| >= 1
    decreases |lines|
  {
    if |lines| == 1 then lines[0]
    else Join(lines[..|lines| - 1]) + [NewLine] + Last(lines)
  }

  /** Lines(text) after one more character. */
  lemma LinesSnoc(text: seq<char>, c: char)
    ensures Lines(text + [c]) == NextLines(Lines(text), c)
  {
    assert (text + [c])[..|text|] == text;
  }

  /** There is one line more than there are newline characters. */
  lemma {:induction false} LinesCount(text: seq<char>)
    ensures |Lines(text)| == multiset(text)[NewLine] + 1
    decreases |text|
  {
    if text != [] {
      var init := text[..|text| - 1];
      LinesCount(init);
      assert text == init + [Last(text)];
      LinesSnoc(init, Last(text));
    }
  }

  /** No line contains a newline character. */
  lemma {:induction false} LinesHaveNoNewLine(text: seq<char>)
    ensures forall k :: 0 <= k < |Lines(text)| ==> NewLine !in Lines(text)[k]
    decreases |text|
  {
    if text != [] {
      var init := text[..|text| - 1];
      LinesHaveNoNewLine(init);
      assert text == init + [Last(text)];
      LinesSnoc(init, Last(text));
    }
  }

  /** Joining the lines of a text gives the text back. */
  lemma {:induction false} JoinLines(text: seq<char>)
    ensures Join(Lines(text)) == text
    decreases |text|
  {
    if text != [] {
      var init := text[..|text| - 1];
      var c := Last(text);
      JoinLines(init);
      assert text == init + [c];
      LinesSnoc(init, c);
      var ls := Lines(init);
      if c != NewLine {
        var ls' := ls[..|ls| - 1] + [Last(ls) + [c]];
        if |ls| == 1 {
          assert Join(ls') == Last(ls) + [c];
        } else {
          assert ls'[..|ls'| - 1] == ls[..|ls| - 1];
          assert Join(ls) == Join(ls[..|ls| - 1]) + [NewLine] + Last(ls);
        }
      } else {
        assert (ls + [[]])[..|ls|] == ls;
      }
    }
  }

  /** Lines of a text that does not end in a newline: appending one more line to it. */
  lemma {:induction false} LinesOfJoinLine(text: seq<char>, line: seq<char>)
    requires NewLine !in line
    ensures Lines(text + [NewLine] + line) == Lines(text) + [line]
    decreases |line|
  {
    if line == [] {
      assert text + [NewLine] + line == text + [NewLine];
      LinesSnoc(text, NewLine);
    } else {
      var init := line[..|line| - 1];
      LinesOfJoinLine(text, init);
      assert text + [NewLine] + line == (text + [NewLine] + init) + [Last(line)];
      LinesSnoc(text + [NewLine] + init, Last(line));
      var ls := Lines(text) + [init];
      assert ls[..|ls| - 1] == Lines(text);
      assert init + [Last(line)] == line;
    }
  }

  /** Lines of a single line without newline characters. */
  lemma {:induction false} LinesOfLine(line: seq<char>)
    requires NewLine !in line
    ensures Lines(line) == [line]
    decreases |line|
  {
    if line != [] {
      var init := line[..|line| - 1];
      LinesOfLine(init);
      assert line == init + [Last(line)];
      LinesSnoc(init, Last(line));
    }
  }

  /** Splitting joined lines gives the lines back, when none of them contains a newline character. */
  lemma {:induction false} LinesJoin(lines: seq<seq<char>>)
    requires |lines| >= 1
    requires forall k :: 0 <= k < |lines| ==> NewLine !in lines[k]
    ensures Lines(Join(lines)) == lines
    decreases |lines|
  {
    if |lines| == 1 {
      LinesOfLine(lines[0]);
    } else {
      var init := lines[..|lines| - 1];
      LinesJoin(init);
      LinesOfJoinLine(Join(init), Last(lines));
      assert init + [Last(lines)] == lines;
    }
  }

  /** The lines of a prefix of a text that are followed by a newline are lines of the whole text. */
  lemma {:induction false} LinesPrefix(text: seq<char>, i: nat)
    requires i <= |text|
    ensures |Lines(text[..i])| <= |Lines(text)|
    ensures forall k :: 0 <= k < |Lines(text[..i])| - 1 ==> Lines(text)[k] == Lines(text[..i])[k]
    decreases |text| - i
  {
    if i < |text| {
      LinesPrefix(text, i + 1);
      assert text[..i + 1] == text[..i] + [text[i]];
      LinesSnoc(text[..i], text[i]);
    } else {
      assert text[..i] == text;
    }
  }

  // ---------------------------------------------------------------------------
  // The word list as wordle_read_words stores it

  /** The number of words wordle_read_words keeps: one per line, except that a last line shorter than
      a word is dropped (so a file that ends in a newline does not count an empty last word). */
  function WordCount(text: seq<char>): (n: nat)
    ensures |Lines(text)| - 1 <= n <= |Lines(text)|
    ensures n == |Lines(text)| <==> |Last(Lines(text))| >= WordLength
  {
    var lines := Lines(text);
    if |Last(lines)| < WordLength then |lines| - 1 else |lines|
  }

  /** Slot `k` of the flat word array. */
  function Slot(list: seq<char>, k: nat): seq<char>
    requires WordLength * k + WordLength <= |list|
  {
    list[WordLength * k .. WordLength * k + WordLength]
  }

  /** Slot `k` holds the first letters of `line`, as many as fit in a slot; the rest of a slot that the
      line is too short to fill is left as it was. */
  predicate Holds(list: seq<char>, k: nat, line: seq<char>)
    requires WordLength * k + WordLength <= |list|
  {
    var m := Min(WordLength, |line|);
    list[WordLength * k .. WordLength * k + m] == line[..m]
  }

  /** A file of five-letter words, each on its own line, yields exactly those words, whether or not
      the last one is followed by a newline. */
  lemma {:induction false} WordFileLines(ws: seq<seq<char>>)
    requires |ws| >= 1
    requires forall k :: 0 <= k < |ws| ==> |ws[k]| == WordLength && NewLine !in ws[k]
    ensures WordCount(Join(ws)) == |ws| && WordCount(Join(ws + [[]])) == |ws|
    ensures forall k :: 0 <= k < |ws| ==> Lines(Join(ws))[k] == ws[k] && Lines(Join(ws + [[]]))[k] == ws[k]
  {
    LinesJoin(ws);
    LinesJoin(ws + [[]]);
  }

  /** For a line of a full word, holding it means the slot is that word. */
  lemma HoldsWord(list: seq<char>, k: nat, w: seq<char>)
    requires WordLength * k + WordLength <= |list| && |w| == WordLength
    ensures Holds(list, k, w) <==> Slot(list, k) == w
  {
  }

  /** On a file of five-letter lines, with or without a trailing newline, what ReadWords promises
      (one word per line, each slot holding its line) means that slot `k` is exactly the `k`-th word. */
  lemma WordFileSlots(ws: seq<seq<char>>, text: seq<char>, list: seq<char>)
    requires |ws| >= 1
    requires forall k :: 0 <= k < |ws| ==> |ws[k]| == WordLength && NewLine !in ws[k]
    requires text == Join(ws) || text == Join(ws + [[]])
    requires WordLength * |ws| <= |list|
    ensures WordCount(text) == |ws|
    ensures (forall k :: 0 <= k < |ws| ==> Holds(list, k, Lines(text)[k]))
        <==> (forall k :: 0 <= k < |ws| ==> Slot(list, k) == ws[k])
  {
    WordFileLines(ws);
    var lines := Lines(text);
    assert forall k :: 0 <= k < |ws| ==> lines[k] == ws[k];
    forall k | 0 <= k < |ws|
      ensures Holds(list, k, lines[k]) <==> Slot(list, k) == ws[k]
    {
      HoldsWord(list, k, ws[k]);
    }
  }

  /** The first pass of wordle_read_words: the number of lines, less one when the last line is shorter
      than a word. */
  method CountWords(text: seq<char>) returns (lineCount: nat)
    ensures lineCount == WordCount(text)
  {
    var count := 1;
    var countedValid := 0;
    var i := 0;
    while i < |text|
      invariant 0 <= i <= |text|
      invariant count == |Lines(text[..i])| && countedValid == |Last(Lines(text[..i]))|
    {
      LinesSnoc(text[..i], text[i]);
      assert text[..i + 1] == text[..i] + [text[i]];
      if text[i] == NewLine {
        count := count + 1;
        countedValid := 0;
      } else {
        countedValid := countedValid + 1;
      }
      i := i + 1;
    }
    assert text[..i] == text;
    // drop a last line shorter than a word
    if countedValid < WordLength {
      count := count - 1;
    }
    lineCount := count;
  }

  /** The second pass of wordle_read_words: at most five characters of each of the first `lineCount`
      lines go into their slot of a fresh array; reading stops at the end of the text or once
      `lineCount` newlines have been read. */
  method CopyWords(text: seq<char>, lineCount: nat) returns (words: array<char>)
    requires lineCount <= |Lines(text)|
    ensures fresh(words) && words.Length == WordLength * lineCount
    ensures forall k :: 0 <= k < lineCount ==> Holds(words[..], k, Lines(text)[k])
  {
    words := new char[WordLength * lineCount];
    var wordIndex: nat := 0;
    var letterIndex: nat := 0;
    var i := 0;
    assert text[..0] == [];
    while i < |text| && wordIndex < lineCount
      invariant 0 <= i <= |text|
      invariant words.Length == WordLength * lineCount
      invariant Copied(words[..], Lines(text[..i]), lineCount, wordIndex, letterIndex)
    {
      wordIndex, letterIndex := CopyAt(words, text, i, lineCount, wordIndex, letterIndex);
      i := i + 1;
    }
    CopiedAll(text, i, words[..], Lines(text[..i]), lineCount, wordIndex, letterIndex);
  }

  /** One iteration of the second pass of wordle_read_words: character `i` of the text. */
  method CopyAt(words: array<char>, text: seq<char>, i: nat, lineCount: nat, wordIndex: nat, letterIndex: nat)
    returns (nextWord: nat, nextLetter: nat)
    requires i < |text| && words.Length == WordLength * lineCount && wordIndex < lineCount
    requires Copied(words[..], Lines(text[..i]), lineCount, wordIndex, letterIndex)
    modifies words
    ensures Copied(words[..], Lines(text[..i + 1]), lineCount, nextWord, nextLetter)
  {
    LinesSnoc(text[..i], text[i]);
    assert text[..i + 1] == text[..i] + [text[i]];
    nextWord, nextLetter := CopyChar(words, text[i], lineCount, wordIndex, letterIndex, Lines(text[..i]));
  }

  /** The body of the second pass of wordle_read_words for one character `c`: a newline moves to the
      next slot, any other character is written into the current slot unless five are there already. */
  method CopyChar(words: array<char>, c: char, lineCount: nat, wordIndex: nat, letterIndex: nat,
                  ghost lines: seq<seq<char>>) returns (nextWord: nat, nextLetter: nat)
    requires words.Length == WordLength * lineCount && wordIndex < lineCount
    requires Copied(words[..], lines, lineCount, wordIndex, letterIndex)
    modifies words
    ensures Copied(words[..], NextLines(lines, c), lineCount, nextWord, nextLetter)
  {
    if c == NewLine {
      CopiedNewLine(words[..], lines, lineCount, wordIndex, letterIndex);
      nextWord, nextLetter := wordIndex + 1, 0;
    } else if letterIndex < WordLength {
      ghost var before := words[..];
      words[WordLength * wordIndex + letterIndex] := c;
      CopiedLetter(before, words[..], lines, lineCount, wordIndex, letterIndex, c);
      nextWord, nextLetter := wordIndex, letterIndex + 1;
    } else {
      CopiedPastSlot(words[..], lines, lineCount, wordIndex, letterIndex, c);
      nextWord, nextLetter := wordIndex, letterIndex;
    }
  }

  /** When the second pass stops, at the end of the text or after `lineCount` lines, every one of
      the first `lineCount` lines of the whole text is in its slot. */
  lemma CopiedAll(text: seq<char>, i: nat, ws: seq<char>, lines: seq<seq<char>>, lineCount: nat,
                  wordIndex: nat, letterIndex: nat)
    requires i <= |text| && lines == Lines(text[..i]) && lineCount <= |Lines(text)|
    requires Copied(ws, lines, lineCount, wordIndex, letterIndex)
    requires i == |text| || wordIndex == lineCount
    ensures forall k :: 0 <= k < lineCount ==> Holds(ws, k, Lines(text)[k])
  {
    LinesPrefix(text, i);
    if i == |text| {
      assert text[..i] == text;
    }
  }

  /** The state of the second pass of wordle_read_words after reading the text whose lines are `lines`:
      the cursor is at the end of the last line, and every line so far is in its slot, the current
      one as far as it has been read. */
  ghost predicate Copied(ws: seq<char>, lines: seq<seq<char>>, lineCount: nat, wordIndex: nat, letterIndex: nat)
  {
    && |ws| == WordLength * lineCount
    && |lines| >= 1
    && wordIndex == |lines| - 1 && wordIndex <= lineCount
    && letterIndex == Min(WordLength, |Last(lines)|)
    && (forall k :: 0 <= k < wordIndex ==> Holds(ws, k, lines[k]))
    && (wordIndex < lineCount ==>
          ws[WordLength * wordIndex .. WordLength * wordIndex + letterIndex] == Last(lines)[..letterIndex])
  }

  lemma CopiedNewLine(ws: seq<char>, lines: seq<seq<char>>, lineCount: nat, wordIndex: nat, letterIndex: nat)
    requires Copied(ws, lines, lineCount, wordIndex, letterIndex) && wordIndex < lineCount
    ensures Copied(ws, lines + [[]], lineCount, wordIndex + 1, 0)
  {
    var lines' := lines + [[]];
    assert forall k :: 0 <= k < wordIndex ==> lines'[k] == lines[k];
    assert Holds(ws, wordIndex, lines'[wordIndex]);
  }

  lemma CopiedLetter(before: seq<char>, after: seq<char>, lines: seq<seq<char>>, lineCount: nat,
                     wordIndex: nat, letterIndex: nat, c: char)
    requires Copied(before, lines, lineCount, wordIndex, letterIndex)
    requires wordIndex < lineCount && letterIndex < WordLength
    requires after == before[WordLength * wordIndex + letterIndex := c]
    ensures Copied(after, lines[..|lines| - 1] + [Last(lines) + [c]], lineCount, wordIndex, letterIndex + 1)
  {
    var lines' := lines[..|lines| - 1] + [Last(lines) + [c]];
    forall k | 0 <= k < wordIndex
      ensures Holds(after, k, lines'[k])
    {
      assert lines'[k] == lines[k];
      HoldsFrame(before, after, k, lines[k], WordLength * wordIndex + letterIndex);
    }
    SlotGrows(before, after, wordIndex, letterIndex, Last(lines), c);
  }

  lemma CopiedPastSlot(ws: seq<char>, lines: seq<seq<char>>, lineCount: nat, wordIndex: nat, letterIndex: nat, c: char)
    requires Copied(ws, lines, lineCount, wordIndex, letterIndex) && letterIndex == WordLength
    ensures Copied(ws, lines[..|lines| - 1] + [Last(lines) + [c]], lineCount, wordIndex, letterIndex)
  {
    var lines' := lines[..|lines| - 1] + [Last(lines) + [c]];
    assert forall k :: 0 <= k < wordIndex ==> lines'[k] == lines[k];
    assert Last(lines')[..letterIndex] == Last(lines)[..letterIndex];
  }

  /** Writing a cell at or after the end of slot `k` leaves what slot `k` holds as it was. */
  lemma HoldsFrame(before: seq<char>, after: seq<char>, k: nat, line: seq<char>, p: nat)
    requires WordLength * k + WordLength <= p < |before| == |after|
    requires forall q :: 0 <= q < |before| && q != p ==> after[q] == before[q]
    requires Holds(before, k, line)
    ensures Holds(after, k, line)
  {
    var m := Min(WordLength, |line|);
    assert after[WordLength * k .. WordLength * k + m] == before[WordLength * k .. WordLength * k + m];
  }

  /** Writing the next letter of the current line into its slot extends the copied prefix by one. */
  lemma SlotGrows(before: seq<char>, after: seq<char>, w: nat, l: nat, line: seq<char>, c: char)
    requires l < WordLength && WordLength * w + WordLength <= |before| == |after| && l == |line|
    requires after == before[WordLength * w + l := c]
    requires before[WordLength * w .. WordLength * w + l] == line[..l]
    ensures after[WordLength * w .. WordLength * w + l + 1] == (line + [c])[..l + 1]
  {
    var a := WordLength * w;
    assert after[a .. a + l] == before[a .. a + l];
    assert after[a .. a + l + 1] == after[a .. a + l] + [c];
    assert (line + [c])[..l + 1] == line[..l] + [c];
  }

  /** wordle_read_words over the contents of the file: counts the words, then copies at most five
      characters of each line into its slot of a fresh array. */
  method ReadWords(text: seq<char>) returns (words: array<char>, wordCount: nat)
    ensures wordCount == WordCount(text)
    ensures fresh(words) && words.Length == WordLength * wordCount
    ensures forall k :: 0 <= k < wordCount ==> Holds(words[..], k, Lines(text)[k])
  {
    wordCount := CountWords(text);
    words := CopyWords(text, wordCount);
  }

  /** The word list holds `w`. */
  predicate Listed(list: seq<char>, count: nat, w: seq<char>)
    requires WordLength * count <= |list|
  {
    exists k :: 0 <= k < count && Slot(list, k) == w
  }

  /** wordle_validate_word: whether the five letters of `word` starting at `off` are one of the
      `wordCount` words of `wordArr`. */
  method ValidateWord(wordArr: array<char>, wordCount: nat, word: array<char>, off: nat) returns (found: bool)
    requires WordLength * wordCount <= wordArr.Length && off + WordLength <= word.Length
    ensures found <==> exists k :: 0 <= k < wordCount && Slot(wordArr[..], k) == word[off..off + WordLength]
  {
    var i := 0;
    while i < wordCount
      invariant 0 <= i <= wordCount
      invariant forall k :: 0 <= k < i ==> Slot(wordArr[..], k) != word[off..off + WordLength]
    {
      if wordArr[WordLength * i .. WordLength * i + WordLength] == word[off..off + WordLength] {
        assert Slot(wordArr[..], i) == word[off..off + WordLength];
        return true;
      }
      i := i + 1;
    }
    return false;
  }

  /** wordle_select_word: copies slot `rand % wordCount` into the first five cells of `buffer`;
      `rand` stands for the value of the C library's rand(). */
  method SelectWord(wordArr: array<char>, wordCount: nat, buffer: array<char>, rand: nat)
    requires wordCount > 0 && WordLength * wordCount <= wordArr.Length
    requires WordLength <= buffer.Length && buffer != wordArr
    modifies buffer
    ensures buffer[..WordLength] == Slot(wordArr[..], rand % wordCount)
    ensures buffer[WordLength..] == old(buffer[WordLength..])
    ensures Listed(wordArr[..], wordCount, buffer[..WordLength])
  {
    var selected := rand % wordCount;
    var start := selected * WordLength;
    for i := 0 to WordLength
      invariant buffer[..i] == wordArr[start..start + i]
      invariant buffer[WordLength..] == old(buffer[WordLength..])
    {
      buffer[i] := wordArr[start + i];
    }
  }
}
