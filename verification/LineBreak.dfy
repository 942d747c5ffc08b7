/** autoLineBreak of canvashelpers.js: a greedy line breaker over an arbitrary text measure. */
module LineBreak {

  type Measure = string -> real

  /** text.split(' '): one word more than there are spaces. */
  function Split(text: string): (words: seq<string>)
    ensures |words| > 0
    ensures forall i :: 0 <= i < |words| ==> ' ' !in words[i]
  {
    if text == [] then [""]
    else
      var tail := Split(text[1..]);
      if text[0] == ' ' then [""] + tail else [[text[0]] + tail[0]] + tail[1..]
  }

  function Concat(parts: seq<string>): string {
    if parts == [] then [] else Concat(parts[..|parts| - 1]) + parts[|parts| - 1]
  }

  /** The words with a space after each of them. */
  function Spaced(words: seq<string>): string {
    if words == [] then [] else words[0] + " " + Spaced(words[1..])
  }

  lemma {:induction false} SpacedSplit(text: string)
    ensures Spaced(Split(text)) == text + " "
    decreases |text|
  {
    hide Spaced;
    if text == [] {
      SpacedCons("", []);
      SpacedNil();
      assert [""] + [] == [""];
    } else {
      var tail := Split(text[1..]);
      SpacedSplit(text[1..]);
      assert text == [text[0]] + text[1..];
      if text[0] == ' ' {
        SpacedCons("", tail);
      } else {
        SpacedCons([text[0]] + tail[0], tail[1..]);
        SpacedCons(tail[0], tail[1..]);
        assert tail == [tail[0]] + tail[1..];
        assert [text[0]] + tail[0] + " " + Spaced(tail[1..]) == [text[0]] + (tail[0] + " " + Spaced(tail[1..]));
      }
    }
  }

  lemma SpacedCons(first: string, rest: seq<string>)
    ensures Spaced([first] + rest) == first + " " + Spaced(rest)
  {
    assert ([first] + rest)[1..] == rest;
  }

  lemma SpacedNil()
    ensures Spaced([]) == ""
  {
  }

  lemma {:induction false} SpacedSnoc(words: seq<string>, word: string)
    ensures Spaced(words + [word]) == Spaced(words) + word + " "
    decreases |words|
  {
    if words == [] {
      assert words + [word] == [word];
      assert Spaced([word][1..]) == [];
    } else {
      assert (words + [word])[1..] == words[1..] + [word];
      SpacedSnoc(words[1..], word);
    }
  }

  // ---- The algorithm as a fold ------------------------------------------------------------------

  datatype State = State(lines: seq<string>, current: string)

  function Push(s: State): State {
    State(s.lines + [s.current], "")
  }

  /** The letters of a word that is too wide for a line, from index j on. */
  function Letters(s: State, used: real, word: string, j: nat, max: real, measure: Measure): State
    requires j <= |word|
    decreases |word| - j
  {
    if j == |word| then s
    else
      var w := measure([word[j]]);
      var fits := used + w <= max;
      var s1 := if fits then s else Push(s);
      Letters(s1.(current := s1.current + [word[j]]), (if fits then used else 0.0) + w, word, j + 1, max, measure)
  }

  function AddWord(s: State, word: string, max: real, measure: Measure): State {
    if measure(word) > max then
      var s1 := if s.current != "" then Push(s) else s;
      var s2 := Letters(s1.(current := ""), 0.0, word, 0, max, measure);
      s2.(current := s2.current + " ")
    else
      var s1 := if measure(s.current + word) > max then Push(s) else s;
      s1.(current := s1.current + word + " ")
  }

  function AddWords(words: seq<string>, max: real, measure: Measure): State {
    if words == [] then State([], "")
    else AddWord(AddWords(words[..|words| - 1], max, measure), words[|words| - 1], max, measure)
  }

  function Strip(line: string): string {
    if line != "" && line[|line| - 1] == ' ' then line[..|line| - 1] else line
  }

  function Lines(text: string, max: real, measure: Measure): seq<string> {
    var s := AddWords(Split(text), max, measure);
    if s.current != "" then s.lines + [Strip(s.current)] else s.lines
  }

  // ---- No character is lost ---------------------------------------------------------------------

  ghost function Content(s: State): string {
    Concat(s.lines) + s.current
  }

  lemma PushContent(s: State)
    ensures Content(Push(s)) == Content(s)
  {
    assert Push(s).lines[..|s.lines|] == s.lines;
  }

  lemma {:induction false} LettersContent(s: State, used: real, word: string, j: nat, max: real, measure: Measure)
    requires j <= |word|
    ensures Content(Letters(s, used, word, j, max, measure)) == Content(s) + word[j..]
    decreases |word| - j
  {
    if j < |word| {
      var w := measure([word[j]]);
      var fits := used + w <= max;
      var s1 := if fits then s else Push(s);
      PushContent(s);
      LettersContent(s1.(current := s1.current + [word[j]]), (if fits then used else 0.0) + w, word, j + 1, max, measure);
      assert word[j..] == [word[j]] + word[j + 1..];
    }
  }

  lemma WordContent(s: State, word: string, max: real, measure: Measure)
    ensures Content(AddWord(s, word, max, measure)) == Content(s) + word + " "
    ensures var line := AddWord(s, word, max, measure).current; line != "" && line[|line| - 1] == ' '
  {
    PushContent(s);
    if measure(word) > max {
      var s1 := if s.current != "" then Push(s) else s;
      LettersContent(s1.(current := ""), 0.0, word, 0, max, measure);
    }
  }

  lemma {:induction false} WordsContent(words: seq<string>, max: real, measure: Measure)
    ensures Content(AddWords(words, max, measure)) == Spaced(words)
    decreases |words|
  {
    if words != [] {
      var n := |words| - 1;
      WordsContent(words[..n], max, measure);
      WordContent(AddWords(words[..n], max, measure), words[n], max, measure);
      assert words == words[..n] + [words[n]];
      SpacedSnoc(words[..n], words[n]);
    }
  }

  lemma ConcatSnoc(parts: seq<string>, part: string)
    ensures Concat(parts + [part]) == Concat(parts) + part
  {
    assert (parts + [part])[..|parts|] == parts;
  }

  lemma StripsSpace(before: string, line: string, text: string)
    requires before + line == text + " " && line != ""
    ensures before + Strip(line) == text
  {
    assert line[|line| - 1] == (before + line)[|before + line| - 1] == ' ';
    assert (before + line)[..|text|] == text;
  }

  /** For every text and measure, the lines concatenated are the text. */
  lemma LinesConcatenate(text: string, max: real, measure: Measure)
    ensures Concat(Lines(text, max, measure)) == text
  {
    var words := Split(text);
    var n := |words| - 1;
    var s := AddWords(words, max, measure);
    hide AddWord, Spaced, Split, Concat;
    WordsContent(words, max, measure);
    SpacedSplit(text);
    WordContent(AddWords(words[..n], max, measure), words[n], max, measure);
    ConcatSnoc(s.lines, Strip(s.current));
    StripsSpace(Concat(s.lines), s.current, text);
  }

  // ---- Lines fit --------------------------------------------------------------------------------

  /** Widths add up. */
  ghost predicate Additive(measure: Measure) {
    forall s, t :: measure(s + t) == measure(s) + measure(t)
  }

  /** No character of the text is wider than a line. */
  ghost predicate CharsFit(text: string, max: real, measure: Measure) {
    forall c :: c in text ==> measure([c]) <= max
  }

  ghost predicate Fits(line: string, max: real, measure: Measure) {
    measure(line) <= max || (line != "" && line[|line| - 1] == ' ' && measure(line[..|line| - 1]) <= max)
  }

  /** The lines fit, and the current one is empty or fits without the space at its end. */
  ghost predicate AllFit(s: State, max: real, measure: Measure) {
    && (forall k :: 0 <= k < |s.lines| ==> Fits(s.lines[k], max, measure))
    && (s.current == "" || (s.current[|s.current| - 1] == ' ' && measure(s.current[..|s.current| - 1]) <= max))
  }

  lemma EmptyWidth(measure: Measure)
    requires Additive(measure)
    ensures measure("") == 0.0
  {
    assert "" + "" == "";
    assert measure("" + "") == measure("") + measure("");
  }

  lemma {:induction false} LettersFit(s: State, used: real, word: string, j: nat, max: real, measure: Measure)
    requires Additive(measure) && CharsFit(word, max, measure) && j <= |word|
    requires used == measure(s.current) <= max
    requires forall k :: 0 <= k < |s.lines| ==> Fits(s.lines[k], max, measure)
    ensures var r := Letters(s, used, word, j, max, measure);
            measure(r.current) <= max && forall k :: 0 <= k < |r.lines| ==> Fits(r.lines[k], max, measure)
    decreases |word| - j
  {
    if j < |word| {
      var w := measure([word[j]]);
      var fits := used + w <= max;
      var s1 := if fits then s else Push(s);
      EmptyWidth(measure);
      assert measure(s1.current + [word[j]]) == measure(s1.current) + w;
      LettersFit(s1.(current := s1.current + [word[j]]), (if fits then used else 0.0) + w, word, j + 1, max, measure);
    }
  }

  lemma PushFits(s: State, max: real, measure: Measure)
    requires AllFit(s, max, measure) && (s.current != "" || measure("") <= max)
    ensures forall k :: 0 <= k < |Push(s).lines| ==> Fits(Push(s).lines[k], max, measure)
  {
  }

  /** A current line that ends in a space fits without it. */
  lemma SpaceAfter(s: State, max: real, measure: Measure)
    requires measure(s.current) <= max && forall k :: 0 <= k < |s.lines| ==> Fits(s.lines[k], max, measure)
    ensures AllFit(s.(current := s.current + " "), max, measure)
  {
    hide Fits;
    assert (s.current + " ")[..|s.current|] == s.current;
  }

  lemma WordFits(s: State, word: string, max: real, measure: Measure)
    requires Additive(measure) && max >= 0.0 && CharsFit(word, max, measure) && AllFit(s, max, measure)
    ensures AllFit(AddWord(s, word, max, measure), max, measure)
  {
    hide Fits, Additive, CharsFit, Letters;
    EmptyWidth(measure);
    PushFits(s, max, measure);
    if measure(word) > max {
      var s1 := (if s.current != "" then Push(s) else s).(current := "");
      LettersFit(s1, 0.0, word, 0, max, measure);
      SpaceAfter(Letters(s1, 0.0, word, 0, max, measure), max, measure);
    } else {
      var s1 := if measure(s.current + word) > max then Push(s) else s;
      assert "" + word == word;
      SpaceAfter(s1.(current := s1.current + word), max, measure);
    }
  }

  lemma {:induction false} WordsFit(words: seq<string>, max: real, measure: Measure)
    requires Additive(measure) && max >= 0.0 && forall i :: 0 <= i < |words| ==> CharsFit(words[i], max, measure)
    ensures AllFit(AddWords(words, max, measure), max, measure)
    decreases |words|
  {
    hide Additive, CharsFit, AddWord;
    if words != [] {
      var n := |words| - 1;
      WordsFit(words[..n], max, measure);
      WordFits(AddWords(words[..n], max, measure), words[n], max, measure);
    }
  }

  lemma {:induction false} SplitChars(text: string, i: nat)
    requires i < |Split(text)|
    ensures forall c :: c in Split(text)[i] ==> c in text
  {
    if text != [] && (i > 0 || text[0] != ' ') {
      SplitChars(text[1..], if text[0] == ' ' then i - 1 else i);
    }
  }

  /** With additive widths and characters that fit, every line, but for one trailing space, fits. */
  lemma LinesFit(text: string, max: real, measure: Measure)
    requires Additive(measure) && max >= 0.0 && CharsFit(text, max, measure)
    ensures forall k :: 0 <= k < |Lines(text, max, measure)| ==> Fits(Lines(text, max, measure)[k], max, measure)
  {
    hide Additive, Split, AddWords;
    forall i | 0 <= i < |Split(text)|
      ensures CharsFit(Split(text)[i], max, measure)
    {
      SplitChars(text, i);
    }
    WordsFit(Split(text), max, measure);
  }

  // ---- Lines are as long as they can be -----------------------------------------------------------

  /** What comes before the first space. */
  function FirstWord(line: string): string {
    if line == [] || line[0] == ' ' then [] else [line[0]] + FirstWord(line[1..])
  }

  lemma {:induction false} FirstWordOf(word: string, rest: string)
    requires ' ' !in word
    ensures FirstWord(word + " " + rest) == FirstWord(word) == word
    decreases |word|
  {
    if word != [] {
      assert (word + " " + rest)[1..] == word[1..] + " " + rest;
      FirstWordOf(word[1..], rest);
    } else {
      assert word + " " + rest == " " + rest;
    }
  }

  lemma {:induction false} FirstWordStays(line: string, more: string)
    requires ' ' in line
    ensures FirstWord(line + more) == FirstWord(line)
    decreases |line|
  {
    if line[0] != ' ' {
      assert (line + more)[1..] == line[1..] + more;
      FirstWordStays(line[1..], more);
    }
  }

  /** The next line's first word would not have fitted. */
  ghost predicate Full(lines: seq<string>, max: real, measure: Measure) {
    forall k :: 0 <= k < |lines| - 1 ==> measure(lines[k] + FirstWord(lines[k + 1])) > max
  }

  lemma {:induction false} WordsFull(words: seq<string>, max: real, measure: Measure)
    requires forall i :: 0 <= i < |words| ==> ' ' !in words[i] && measure(words[i]) <= max
    ensures var s := AddWords(words, max, measure);
            && Full(s.lines + [s.current], max, measure)
            && (words == [] ==> s == State([], "")) && (words != [] ==> ' ' in s.current)
    decreases |words|
  {
    if words != [] {
      var n := |words| - 1;
      WordsFull(words[..n], max, measure);
      WordFull(AddWords(words[..n], max, measure), words[n], max, measure);
    }
  }

  lemma WordFull(s: State, word: string, max: real, measure: Measure)
    requires ' ' !in word && measure(word) <= max
    requires Full(s.lines + [s.current], max, measure) && (' ' in s.current || s == State([], ""))
    ensures var r := AddWord(s, word, max, measure);
            Full(r.lines + [r.current], max, measure) && ' ' in r.current
  {
    var r := AddWord(s, word, max, measure);
    var before, after := s.lines + [s.current], r.lines + [r.current];
    FirstWordOf(word, "");
    assert word + " " + "" == word + " ";
    assert "" + word + " " == word + " " && "" + word == word;
    if measure(s.current + word) > max {
      assert after == before + [word + " "];
    } else if s.current != "" {
      FirstWordStays(s.current, word + " ");
      assert r.current == s.current + (word + " ");
      forall k | 0 <= k < |after| - 1
        ensures measure(after[k] + FirstWord(after[k + 1])) > max
      {
        assert measure(before[k] + FirstWord(before[k + 1])) > max;
      }
    }
  }

  /** If no word is wider than a line, no line could have taken the first word of the next one. */
  lemma LinesFull(text: string, max: real, measure: Measure)
    requires forall i :: 0 <= i < |Split(text)| ==> measure(Split(text)[i]) <= max
    ensures Full(Lines(text, max, measure), max, measure)
  {
    var words := Split(text);
    var s := AddWords(words, max, measure);
    WordsFull(words, max, measure);
    WordContent(AddWords(words[..|words| - 1], max, measure), words[|words| - 1], max, measure);
    StripKeepsFirst(s.current);
    var lines := Lines(text, max, measure);
    forall k | 0 <= k < |lines| - 1
      ensures measure(lines[k] + FirstWord(lines[k + 1])) > max
    {
      assert (s.lines + [s.current])[k] == lines[k];
      assert FirstWord((s.lines + [s.current])[k + 1]) == FirstWord(lines[k + 1]);
    }
  }

  lemma StripKeepsFirst(line: string)
    ensures FirstWord(Strip(line)) == FirstWord(line)
  {
    var t := Strip(line);
    if t != line {
      assert line == t + " ";
      if ' ' in t {
        FirstWordStays(t, " ");
      } else {
        FirstWordOf(t, "");
        assert t + " " + "" == line;
      }
    }
  }

  // ---- Why each line ends -----------------------------------------------------------------------

  ghost predicate EndsInSpace(line: string) {
    line != "" && line[|line| - 1] == ' '
  }

  /** The next word did not fit. */
  ghost predicate WordTooWide(line: string, next: string, max: real, measure: Measure) {
    EndsInSpace(line) && measure(line + FirstWord(next)) > max
  }

  /** The line is a piece of a word wider than a line, and its next letter did not fit. */
  ghost predicate LetterTooWide(line: string, next: string, words: seq<string>, max: real, measure: Measure) {
    exists w, i, j {:trigger PieceEnds(line, next, w, i, j, max, measure)} ::
      w in words && PieceEnds(line, next, w, i, j, max, measure)
  }

  ghost predicate PieceEnds(line: string, next: string, w: string, i: int, j: int, max: real, measure: Measure) {
    && measure(w) > max && 0 <= i <= j < |w|
    && line == w[i..j] && measure(w[i..j + 1]) > max && next != "" && next[0] == w[j]
  }

  /** A word wider than a line starts on the next line; that one is empty only if not even its first
      letter fits. */
  ghost predicate BeforeWide(line: string, next: string, words: seq<string>, max: real, measure: Measure) {
    EndsInSpace(line) && exists w :: w in words && WideStarts(next, w, max, measure)
  }

  ghost predicate WideStarts(next: string, w: string, max: real, measure: Measure) {
    measure(w) > max && (w == "" || if next == "" then measure([w[0]]) > max else next[0] == w[0])
  }

  ghost predicate ByWide(line: string, next: string, words: seq<string>, max: real, measure: Measure) {
    LetterTooWide(line, next, words, max, measure) || BeforeWide(line, next, words, max, measure)
  }

  ghost predicate Ended(line: string, next: string, words: seq<string>, max: real, measure: Measure) {
    WordTooWide(line, next, max, measure) || ByWide(line, next, words, max, measure)
  }

  ghost predicate AllEnded(lines: seq<string>, words: seq<string>, max: real, measure: Measure) {
    forall k :: 0 <= k < |lines| - 1 ==> Ended(lines[k], lines[k + 1], words, max, measure)
  }

  lemma AllEndedSnoc(lines: seq<string>, next: string, words: seq<string>, max: real, measure: Measure)
    requires AllEnded(lines, words, max, measure)
    requires lines != [] ==> Ended(lines[|lines| - 1], next, words, max, measure)
    ensures AllEnded(lines + [next], words, max, measure)
  {
    hide Ended;
    var all := lines + [next];
    forall k | 0 <= k < |all| - 1
      ensures Ended(all[k], all[k + 1], words, max, measure)
    {
      if k < |lines| - 1 { assert all[k] == lines[k] && all[k + 1] == lines[k + 1]; }
    }
  }

  lemma AllEndedFront(lines: seq<string>, next: string, words: seq<string>, max: real, measure: Measure)
    requires AllEnded(lines + [next], words, max, measure)
    ensures AllEnded(lines, words, max, measure)
    ensures lines != [] ==> Ended(lines[|lines| - 1], next, words, max, measure)
  {
    hide Ended;
    var all := lines + [next];
    forall k | 0 <= k < |lines| - 1
      ensures Ended(lines[k], lines[k + 1], words, max, measure)
    {
      assert all[k] == lines[k] && all[k + 1] == lines[k + 1];
    }
    if lines != [] { assert all[|lines| - 1] == lines[|lines| - 1] && all[|lines|] == next; }
  }

  lemma ByWideGrows(line: string, next: string, more: string, words: seq<string>, max: real, measure: Measure)
    requires ByWide(line, next, words, max, measure) && next != ""
    ensures ByWide(line, next + more, words, max, measure)
  {
    assert (next + more)[0] == next[0];
    if LetterTooWide(line, next, words, max, measure) {
      var w, i, j :| w in words && PieceEnds(line, next, w, i, j, max, measure);
      assert PieceEnds(line, next + more, w, i, j, max, measure);
    } else {
      var w :| w in words && WideStarts(next, w, max, measure);
      assert WideStarts(next + more, w, max, measure);
    }
  }

  lemma EndedGrows(line: string, next: string, more: string, words: seq<string>, max: real, measure: Measure)
    requires Ended(line, next, words, max, measure) && ' ' in next
    ensures Ended(line, next + more, words, max, measure)
  {
    hide ByWide;
    if ByWide(line, next, words, max, measure) {
      ByWideGrows(line, next, more, words, max, measure);
    } else {
      FirstWordStays(next, more);
    }
  }

  /** Every line before the current one has ended, the last of them because of a wide word. */
  ghost predicate Breaking(s: State, words: seq<string>, max: real, measure: Measure) {
    && AllEnded(s.lines, words, max, measure)
    && (s.lines != [] ==> ByWide(s.lines[|s.lines| - 1], s.current, words, max, measure))
  }

  /** Within a wide word: the current line is its piece from i to j. */
  lemma {:induction false} LettersEnd(s: State, used: real, word: string, i: nat, j: nat, words: seq<string>, max: real, measure: Measure)
    requires Additive(measure) && word in words && measure(word) > max
    requires i < j <= |word| && s.current == word[i..j] && used == measure(s.current)
    requires Breaking(s, words, max, measure)
    ensures var r := Letters(s, used, word, j, max, measure); Breaking(r, words, max, measure) && r.current != ""
    decreases |word| - j
  {
    hide *;
    LettersStep(s, used, word, j, max, measure);
    PieceNotEmpty(word, i, j);
    if j < |word| {
      var letter := [word[j]];
      var w := measure(letter);
      NextLetter(word, i, j, measure);
      if used + w <= max {
        BreakingGrows(s, letter, words, max, measure);
        LettersEnd(s.(current := s.current + letter), used + w, word, i, j + 1, words, max, measure);
      } else {
        PieceStops(word, i, j, words, max, measure);
        PushEnds(s, letter, words, max, measure);
        assert "" + letter == letter;
        LettersEnd(State(s.lines + [s.current], letter), 0.0 + w, word, j, j + 1, words, max, measure);
      }
    }
  }

  lemma LettersStep(s: State, used: real, word: string, j: nat, max: real, measure: Measure)
    requires j <= |word|
    ensures Letters(s, used, word, j, max, measure) ==
            if j == |word| then s
            else
              var letter := [word[j]];
              var w := measure(letter);
              if used + w <= max then Letters(s.(current := s.current + letter), used + w, word, j + 1, max, measure)
              else Letters(State(s.lines + [s.current], "" + letter), 0.0 + w, word, j + 1, max, measure)
  {
  }

  lemma PieceNotEmpty(word: string, i: nat, j: nat)
    requires i < j <= |word|
    ensures word[i..j] != ""
  {
  }

  lemma NextLetter(word: string, i: nat, j: nat, measure: Measure)
    requires Additive(measure) && i < j < |word|
    ensures word[i..j + 1] == word[i..j] + [word[j]] && word[j..j + 1] == [word[j]]
    ensures measure(word[i..j + 1]) == measure(word[i..j]) + measure([word[j]])
  {
    hide Additive;
    assert word[i..j + 1] == word[i..j] + [word[j]];
    SumOf(measure, word[i..j], [word[j]]);
  }

  lemma PieceStops(word: string, i: nat, j: nat, words: seq<string>, max: real, measure: Measure)
    requires word in words && measure(word) > max && i < j < |word| && measure(word[i..j + 1]) > max
    ensures ByWide(word[i..j], [word[j]], words, max, measure)
  {
    PieceIs(word[i..j], [word[j]], word, i, j, words, max, measure);
  }

  lemma BreakingGrows(s: State, more: string, words: seq<string>, max: real, measure: Measure)
    requires Breaking(s, words, max, measure) && s.current != ""
    ensures Breaking(s.(current := s.current + more), words, max, measure)
  {
    hide ByWide, AllEnded;
    if s.lines != [] { ByWideGrows(s.lines[|s.lines| - 1], s.current, more, words, max, measure); }
  }

  lemma SumOf(measure: Measure, s: string, t: string)
    requires Additive(measure)
    ensures measure(s + t) == measure(s) + measure(t)
  {
  }

  lemma PieceIs(line: string, next: string, word: string, i: nat, j: nat, words: seq<string>, max: real, measure: Measure)
    requires word in words && PieceEnds(line, next, word, i, j, max, measure)
    ensures ByWide(line, next, words, max, measure)
  {
  }

  lemma PushEnds(s: State, next: string, words: seq<string>, max: real, measure: Measure)
    requires Breaking(s, words, max, measure) && ByWide(s.current, next, words, max, measure)
    ensures Breaking(State(s.lines + [s.current], next), words, max, measure)
  {
    hide ByWide;
    AllEndedSnoc(s.lines, s.current, words, max, measure);
  }

  /** A wide word from its first letter on, on a line of its own. */
  lemma WideEnds(lines: seq<string>, word: string, words: seq<string>, max: real, measure: Measure)
    requires Additive(measure) && word in words && measure(word) > max
    requires AllEnded(lines, words, max, measure) && (lines != [] ==> EndsInSpace(lines[|lines| - 1]))
    ensures var r := Letters(State(lines, ""), 0.0, word, 0, max, measure);
            && Breaking(r.(current := r.current + " "), words, max, measure)
            && (word != "" ==> r.current != "")
  {
    hide ByWide, Ended, Additive, AllEnded, EndsInSpace;
    EmptyWidth(measure);
    if word == "" {
      if lines != [] { StartsWide(lines[|lines| - 1], " ", word, words, max, measure); }
      assert "" + " " == " ";
    } else {
      var s, w, first := State(lines, ""), measure([word[0]]), [word[0]];
      assert word[0..1] == first && word[0..0] == "" && "" + first == first;
      if 0.0 + w <= max {
        if lines != [] { StartsWide(lines[|lines| - 1], first, word, words, max, measure); }
        LettersEnd(s.(current := first), 0.0 + w, word, 0, 1, words, max, measure);
      } else {
        if lines != [] { StartsWide(lines[|lines| - 1], "", word, words, max, measure); }
        PieceIs("", first, word, 0, 0, words, max, measure);
        PushEnds(s, first, words, max, measure);
        LettersEnd(Push(s).(current := first), 0.0 + w, word, 0, 1, words, max, measure);
      }
      var r := Letters(s, 0.0, word, 0, max, measure);
      if r.lines != [] { ByWideGrows(r.lines[|r.lines| - 1], r.current, " ", words, max, measure); }
    }
  }

  lemma StartsWide(line: string, next: string, word: string, words: seq<string>, max: real, measure: Measure)
    requires EndsInSpace(line) && word in words && WideStarts(next, word, max, measure)
    ensures ByWide(line, next, words, max, measure)
  {
  }

  lemma WordEnds(s: State, word: string, words: seq<string>, max: real, measure: Measure)
    requires Additive(measure) && word in words && ' ' !in word
    requires AllEnded(s.lines + [s.current], words, max, measure) && (s == State([], "") || EndsInSpace(s.current))
    ensures var r := AddWord(s, word, max, measure);
            AllEnded(r.lines + [r.current], words, max, measure) && EndsInSpace(r.current)
  {
    hide Ended, Additive, AllEnded, Letters, ByWide;
    AllEndedFront(s.lines, s.current, words, max, measure);
    var r := AddWord(s, word, max, measure);
    if measure(word) > max {
      var lines := if s.current != "" then s.lines + [s.current] else s.lines;
      WideEnds(lines, word, words, max, measure);
      BreakingEnds(r, words, max, measure);
    } else if measure(s.current + word) > max {
      assert "" + word == word && "" + word + " " == word + " ";
      assert word + " " + "" == word + " ";
      FirstWordOf(word, "");
      WordIsTooWide(s.current, word, words, max, measure);
      AllEndedSnoc(s.lines + [s.current], word + " ", words, max, measure);
    } else {
      assert s.current + word + " " == s.current + (word + " ");
      if s.lines != [] { EndedGrows(s.lines[|s.lines| - 1], s.current, word + " ", words, max, measure); }
      AllEndedSnoc(s.lines, r.current, words, max, measure);
    }
  }

  lemma WordIsTooWide(line: string, word: string, words: seq<string>, max: real, measure: Measure)
    requires EndsInSpace(line) && measure(line + word) > max && FirstWord(word + " ") == word
    ensures Ended(line, word + " ", words, max, measure)
  {
    hide ByWide;
  }

  lemma BreakingEnds(s: State, words: seq<string>, max: real, measure: Measure)
    requires Breaking(s, words, max, measure)
    ensures AllEnded(s.lines + [s.current], words, max, measure)
  {
    hide ByWide;
    AllEndedSnoc(s.lines, s.current, words, max, measure);
  }

  lemma {:induction false} WordsEnd(words: seq<string>, n: nat, max: real, measure: Measure)
    requires Additive(measure) && n <= |words| && forall i :: 0 <= i < |words| ==> ' ' !in words[i]
    ensures var s := AddWords(words[..n], max, measure);
            && AllEnded(s.lines + [s.current], words, max, measure)
            && (if n == 0 then s == State([], "") else EndsInSpace(s.current))
    decreases n
  {
    hide Ended, Additive, EndsInSpace, AddWord;
    if n > 0 {
      WordsEnd(words, n - 1, max, measure);
      assert words[..n][..n - 1] == words[..n - 1];
      WordEnds(AddWords(words[..n - 1], max, measure), words[n - 1], words, max, measure);
    }
  }

  /** Taking the space off the last line changes nothing for the line before it. */
  lemma StripEnds(line: string, next: string, words: seq<string>, max: real, measure: Measure)
    requires Ended(line, next, words, max, measure) && EndsInSpace(next)
    requires forall i :: 0 <= i < |words| ==> ' ' !in words[i]
    ensures Ended(line, Strip(next), words, max, measure)
  {
    StripKeepsFirst(next);
    if LetterTooWide(line, next, words, max, measure) {
      var w, i, j :| w in words && PieceEnds(line, next, w, i, j, max, measure);
      assert w[j] in w;
      assert PieceEnds(line, Strip(next), w, i, j, max, measure);
    } else if BeforeWide(line, next, words, max, measure) {
      var w :| w in words && WideStarts(next, w, max, measure);
      assert w != "" ==> w[0] in w;
      assert WideStarts(Strip(next), w, max, measure);
    }
  }

  /** For every text and additive widths: each line ends because the next word did not fit, because
      the next letter of a word wider than a line did not fit, or because such a word comes next. */
  lemma LinesEnd(text: string, max: real, measure: Measure)
    requires Additive(measure)
    ensures AllEnded(Lines(text, max, measure), Split(text), max, measure)
  {
    hide Ended, Additive, EndsInSpace, AllEnded, AddWords;
    var words := Split(text);
    WordsEnd(words, |words|, max, measure);
    assert words[..|words|] == words;
    var s := AddWords(words, max, measure);
    AllEndedFront(s.lines, s.current, words, max, measure);
    if s.lines != [] { StripEnds(s.lines[|s.lines| - 1], s.current, words, max, measure); }
    AllEndedSnoc(s.lines, Strip(s.current), words, max, measure);
    EndsNotEmpty(s.current);
  }

  lemma EndsNotEmpty(line: string)
    ensures EndsInSpace(line) ==> line != ""
  {
  }

  // ---- The loops --------------------------------------------------------------------------------

  method AutoLineBreak(measure: Measure, text: string, maxWidth: real) returns (lines: seq<string>)
    ensures lines == Lines(text, maxWidth, measure)
  {
    var words := Split(text);
    lines := [];
    var currentLine := "";
    for i := 0 to |words|
      invariant State(lines, currentLine) == AddWords(words[..i], maxWidth, measure)
    {
      var word := words[i];
      ghost var before := State(lines, currentLine);
      var wordWidth := measure(word);
      var width := measure(currentLine + word);
      if wordWidth > maxWidth {
        if |currentLine| > 0 {
          lines := lines + [currentLine];
        }
        currentLine := "";
        lines, currentLine := BreakWord(measure, word, maxWidth, lines);
        currentLine := currentLine + " ";
      } else {
        if width > maxWidth {
          lines := lines + [currentLine];
          currentLine := "";
        }
        currentLine := currentLine + word + " ";
      }
      assert words[..i + 1][..i] == words[..i];
      assert State(lines, currentLine) == AddWord(before, word, maxWidth, measure);
    }
    assert words[..|words|] == words;
    if |currentLine| > 0 {
      if currentLine[|currentLine| - 1] == ' ' {
        currentLine := currentLine[..|currentLine| - 1];
      }
      lines := lines + [currentLine];
    }
  }

  /** The inner loop: a word wider than a line, letter by letter. */
  method BreakWord(measure: Measure, word: string, maxWidth: real, start: seq<string>)
    returns (lines: seq<string>, currentLine: string)
    ensures State(lines, currentLine) == Letters(State(start, ""), 0.0, word, 0, maxWidth, measure)
  {
    lines, currentLine := start, "";
    var lettersWidth := 0.0;
    for j := 0 to |word|
      invariant Letters(State(lines, currentLine), lettersWidth, word, j, maxWidth, measure)
             == Letters(State(start, ""), 0.0, word, 0, maxWidth, measure)
    {
      var letterWidth := measure([word[j]]);
      if lettersWidth + letterWidth > maxWidth {
        lines := lines + [currentLine];
        lettersWidth := 0.0;
        currentLine := "";
      }
      currentLine := currentLine + [word[j]];
      lettersWidth := lettersWidth + letterWidth;
    }
  }
}
