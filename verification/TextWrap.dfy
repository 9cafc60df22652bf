/** Greedy caption wrapping: no split of the words into lines that fit uses fewer lines. */
module TextWrap {
  type Line = seq<string>

  /** " ".join(words) */
  function Join(words: Line): (text: string)
    ensures |text| == Width(words)
  {
    if words == [] then ""
    else if |words| == 1 then words[0]
    else Join(words[..|words| - 1]) + " " + words[|words| - 1]
  }

  function Width(words: Line): nat {
    if words == [] then 0
    else if |words| == 1 then |words[0]|
    else Width(words[..|words| - 1]) + 1 + |words[|words| - 1]|
  }

  function Flatten(lines: seq<Line>): Line {
    if lines == [] then [] else lines[0] + Flatten(lines[1..])
  }

  ghost predicate Fits(line: Line, limit: int) {
    |line| == 1 || (|line| > 1 && |Join(line)| <= limit)
  }

  /** `lines` splits `words`, in order, into lines that fit; a line may exceed the limit only as a single word. */
  ghost predicate ValidSplit(lines: seq<Line>, words: Line, limit: int) {
    && Flatten(lines) == words
    && forall i :: 0 <= i < |lines| ==> Fits(lines[i], limit)
  }

  // ---------------------------------------------------------------- the greedy split

  /** How many words the first line takes once it has `n` of them. */
  function Take(words: Line, n: nat, limit: int): (k: nat)
    requires 1 <= n <= |words|
    ensures n <= k <= |words|
    ensures k < |words| ==> |Join(words[..k + 1])| > limit
    ensures k == n || |Join(words[..k])| <= limit
    decreases |words| - n
  {
    if n < |words| && |Join(words[..n + 1])| <= limit then Take(words, n + 1, limit) else n
  }

  function Greedy(words: Line, limit: int): seq<Line> {
    if words == [] then [] else
    var k := Take(words, 1, limit);
    [words[..k]] + Greedy(words[k..], limit)
  }

  // ---------------------------------------------------------------- widths

  lemma {:induction false} WidthPrefix(words: Line, n: nat)
    requires n <= |words|
    ensures Width(words[..n]) <= Width(words)
  {
    if n < |words| {
      WidthPrefix(words[..|words| - 1], n);
      assert words[..|words| - 1][..n] == words[..n];
    } else {
      assert words[..n] == words;
    }
  }

  lemma {:induction false} WidthSuffix(words: Line, n: nat)
    requires n <= |words|
    ensures Width(words[n..]) <= Width(words)
  {
    if n < |words| && |words| > 1 {
      var init := words[..|words| - 1];
      if n < |init| {
        WidthSuffix(init, n);
        assert words[n..][..|words[n..]| - 1] == init[n..];
      }
    }
  }

  // ---------------------------------------------------------------- validity

  lemma {:induction false} GreedyIsValid(words: Line, limit: int)
    ensures ValidSplit(Greedy(words, limit), words, limit)
  {
    if words != [] {
      var k := Take(words, 1, limit);
      GreedyIsValid(words[k..], limit);
      assert words == words[..k] + words[k..];
    }
  }

  // ---------------------------------------------------------------- optimality

  /** Any prefix that fits is no longer than the greedy first line. */
  lemma FirstLineIsLongest(words: Line, n: nat, limit: int)
    requires 1 <= n <= |words| && Fits(words[..n], limit)
    ensures n <= Take(words, 1, limit)
  {
    var k := Take(words, 1, limit);
    if k < n {
      assert words[..n][..k + 1] == words[..k + 1];
      WidthPrefix(words[..n], k + 1);
    }
  }

  /** Starting later, the first line reaches at least as far. */
  lemma FirstLineReaches(words: Line, n: nat, limit: int)
    requires words != [] && n < Take(words, 1, limit)
    ensures Take(words, 1, limit) - n <= Take(words[n..], 1, limit)
  {
    hide Take, Join;
    var k := Take(words, 1, limit);
    if k - n > 1 {
      WidthSuffix(words[..k], n);
      assert words[n..][..k - n] == words[..k][n..];
      FirstLineIsLongest(words[n..], k - n, limit);
    }
  }

  /** Dropping words from the front never needs more lines. */
  lemma {:induction false} GreedyMonotone(words: Line, n: nat, limit: int)
    requires n <= |words|
    ensures |Greedy(words[n..], limit)| <= |Greedy(words, limit)|
    decreases |words|
  {
    hide Take, Width, Join;
    if n == |words| {
      assert words[n..] == [];
    } else {
      var k := Take(words, 1, limit);
      if k <= n {
        GreedyMonotone(words[k..], n - k, limit);
        assert words[k..][n - k..] == words[n..];
      } else {
        var q := Take(words[n..], 1, limit);
        FirstLineReaches(words, n, limit);
        GreedyMonotone(words[k..], n + q - k, limit);
        assert words[k..][n + q - k..] == words[n..][q..];
      }
    }
  }

  /** No split into fitting lines has fewer lines than the greedy one. */
  lemma {:induction false} GreedyIsOptimal(words: Line, lines: seq<Line>, limit: int)
    requires ValidSplit(lines, words, limit)
    ensures |Greedy(words, limit)| <= |lines|
    decreases |lines|
  {
    hide Take, Width, Join;
    if lines != [] {
      var n := |lines[0]|;
      var k := Take(words, 1, limit);
      assert words[..n] == lines[0] && words[n..] == Flatten(lines[1..]);
      FirstLineIsLongest(words, n, limit);
      GreedyMonotone(words[n..], k - n, limit);
      assert words[n..][k - n..] == words[k..];
      GreedyIsOptimal(words[n..], lines[1..], limit);
    }
  }

  // ---------------------------------------------------------------- the loop

  function JoinAll(lines: seq<Line>): seq<string> {
    seq(|lines|, i requires 0 <= i < |lines| => Join(lines[i]))
  }

  const MAX_LINES := 3

  /** A line that has been filled up to `n` words by the greedy rule goes on from there. */
  ghost predicate Filled(words: Line, n: nat, limit: int) {
    n <= |words| && (n > 0 ==> Take(words, 1, limit) == Take(words, n, limit))
  }

  lemma LineIsFull(current: Line, pending: Line, limit: int)
    requires current != [] && current < pending && Filled(pending, |current|, limit)
    requires |Join(current + [pending[|current|]])| > limit
    ensures Greedy(pending, limit) == [current] + Greedy(pending[|current|..], limit)
  {
    hide Join, Width;
    assert pending[..|current| + 1] == current + [pending[|current|]];
    assert Take(pending, 1, limit) == |current| && pending[..|current|] == current;
  }

  lemma LineGoesOn(current: Line, pending: Line, limit: int)
    requires current < pending && Filled(pending, |current|, limit)
    requires current == [] || |Join(current + [pending[|current|]])| <= limit
    ensures Filled(pending, |current| + 1, limit)
  {
    hide Join, Width, Greedy;
    var n := |current|;
    assert pending[..n + 1] == current + [pending[n]];
    if n > 0 { assert Take(pending, n, limit) == Take(pending, n + 1, limit); }
  }

  lemma LastLine(current: Line, limit: int)
    requires Filled(current, |current|, limit)
    ensures Greedy(current, limit) == if current == [] then [] else [current]
  {
    if current != [] {
      assert current[|current|..] == [] && current[..|current|] == current;
    }
  }

  /** `wrap_text` on the words of a text: the first three lines of the greedy split. */
  method WrapText(words: Line, limit: int) returns (text: seq<string>)
    ensures var all := JoinAll(Greedy(words, limit));
            text == if |all| <= 3 then all else all[..3]
  {
    hide Filled, Greedy, Width, Join, JoinAll;
    var lines: seq<string> := [];
    var current: Line := [];
    ghost var done: seq<Line> := [];
    var i := 0;
    assert [] + words[0..] == words;
    LineStart(words, limit);
    JoinAllSnoc([], []);
    while i < |words|
      invariant 0 <= i <= |words|
      invariant lines == JoinAll(done)
      invariant Filled(current + words[i..], |current|, limit)
      invariant Greedy(words, limit) == done + Greedy(current + words[i..], limit)
    {
      var word := words[i];
      var candidate := Join(current + [word]);
      ghost var pending := current + words[i..];
      assert pending[|current|..] == words[i..] && pending[|current|] == word;
      if |candidate| > limit && current != [] {
        FinishLine(words, done, current, words[i..], limit);
        JoinAllSnoc(done, current);
        lines := lines + [Join(current)];
        done := done + [current];
        current := [word];
        assert words[i..] == current + words[i + 1..];
      } else {
        LineGoesOn(current, pending, limit);
        assert pending == current + [word] + words[i + 1..];
        current := current + [word];
      }
      i := i + 1;
    }
    assert current + words[i..] == current;
    LastLine(current, limit);
    if current != [] {
      JoinAllSnoc(done, current);
      lines := lines + [Join(current)];
      done := done + [current];
    } else {
      assert done + [] == done;
    }
    text := if |lines| <= MAX_LINES then lines else lines[..MAX_LINES];
  }

  /** The line so far is full; the next one begins with the first of the remaining words. */
  lemma FinishLine(words: Line, done: seq<Line>, current: Line, rest: Line, limit: int)
    requires current != [] && rest != [] && Filled(current + rest, |current|, limit)
    requires Greedy(words, limit) == done + Greedy(current + rest, limit)
    requires |Join(current + [rest[0]])| > limit
    ensures Greedy(words, limit) == done + [current] + Greedy(rest, limit)
    ensures Filled(rest, 1, limit)
  {
    hide Filled, Greedy, Width, Join;
    LineIsFull(current, current + rest, limit);
    assert (current + rest)[|current|..] == rest;
    LineBegins(rest, limit);
  }

  lemma JoinAllSnoc(lines: seq<Line>, line: Line)
    ensures JoinAll(lines + [line]) == JoinAll(lines) + [Join(line)] && JoinAll([]) == []
  {
    hide Join, Width;
  }

  lemma LineBegins(words: Line, limit: int)
    requires words != []
    ensures Filled(words, 1, limit)
  {
    LineStart(words, limit);
    LineGoesOn([], words, limit);
  }

  lemma LineStart(words: Line, limit: int)
    ensures Filled(words, 0, limit)
  {
  }

  /** Words are cut off exactly when no split into fitting lines gets by with three. */
  lemma CutExactlyWhenNeeded(words: Line, limit: int)
    ensures |Greedy(words, limit)| <= 3 <==> exists lines :: ValidSplit(lines, words, limit) && |lines| <= 3
  {
    GreedyIsValid(words, limit);
    if lines :| ValidSplit(lines, words, limit) && |lines| <= 3 {
      GreedyIsOptimal(words, lines, limit);
    }
  }

  // ---------------------------------------------------------------- what the lines say

  /** The words of a text, separated by spaces (Python's `split`, with no other white space). */
  function Words(text: string): (words: Line)
    ensures text != "" && text[|text| - 1] != ' ' ==> words != []
  {
    if text == "" then []
    else
      var n := |text| - 1;
      var before := Words(text[..n]);
      if text[n] == ' ' then before
      else if n == 0 || text[n - 1] == ' ' then before + [[text[n]]]
      else before[..|before| - 1] + [before[|before| - 1] + [text[n]]]
  }

  ghost predicate IsWord(word: string) { word != "" && ' ' !in word }

  ghost predicate AllWords(words: Line) { forall i :: 0 <= i < |words| ==> IsWord(words[i]) }

  /** A word behind a space, or at the beginning, is one more word. */
  lemma {:induction false} OneMoreWord(text: string, word: string)
    requires IsWord(word) && (text == "" || text[|text| - 1] == ' ')
    ensures Words(text + word) == Words(text) + [word]
  {
    hide Words;
    var n := |word| - 1;
    assert word[n] in word && word[..n] + [word[n]] == word;
    if n == 0 {
      NextLetter(text, word[0]);
      assert text + [word[0]] == text + word && [word[0]] == word;
    } else {
      assert word[n - 1] in word && IsWord(word[..n]);
      OneMoreWord(text, word[..n]);
      NextLetter(text + word[..n], word[n]);
      assert text + word[..n] + [word[n]] == text + word;
      assert (Words(text) + [word[..n]])[..|Words(text)|] == Words(text);
    }
  }

  lemma LastLetter(text: string)
    requires text != "" && text[|text| - 1] != ' '
    ensures var n := |text| - 1;
            var before := Words(text[..n]);
            if n == 0 || text[n - 1] == ' ' then Words(text) == before + [[text[n]]]
            else
              before != [] && Words(text) == before[..|before| - 1] + [before[|before| - 1] + [text[n]]]
  {
  }

  /** A letter begins a word, or goes on with the last one. */
  lemma NextLetter(text: string, letter: char)
    requires letter != ' '
    ensures Words(text + [letter])
         == if text == "" || text[|text| - 1] == ' ' then Words(text) + [[letter]]
            else
              var before := Words(text);
              before[..|before| - 1] + [before[|before| - 1] + [letter]]
  {
    var whole := text + [letter];
    assert whole[..|text|] == text && whole[|text|] == letter;
    assert text != "" ==> whole[|text| - 1] == text[|text| - 1];
    LastLetter(whole);
    hide Words;
  }

  /** Splitting a joined line gives back its words. */
  lemma {:induction false} SplitJoin(words: Line)
    requires AllWords(words)
    ensures Words(Join(words)) == words
  {
    if words != [] {
      var n := |words| - 1;
      var init, text := words[..n], Join(words[..n]) + (if n == 0 then "" else " ");
      SplitJoin(init);
      assert n > 0 ==> text[..|text| - 1] == Join(init);
      OneMoreWord(text, words[n]);
      assert text + words[n] == Join(words);
      assert init + [words[n]] == words;
    }
  }

  ghost function WordsOfAll(texts: seq<string>): Line {
    if texts == [] then [] else Words(texts[0]) + WordsOfAll(texts[1..])
  }

  /** The wrapped lines spell the words in order, a space between two on one line. */
  lemma {:induction false} LinesSpellWords(lines: seq<Line>)
    requires AllWords(Flatten(lines))
    ensures WordsOfAll(JoinAll(lines)) == Flatten(lines)
  {
    hide Join, Words, IsWord;
    if lines == [] {
      assert JoinAll(lines) == [];
    } else {
      var rest := Flatten(lines[1..]);
      assert forall i :: 0 <= i < |lines[0]| ==> lines[0][i] == Flatten(lines)[i];
      assert forall i :: 0 <= i < |rest| ==> rest[i] == Flatten(lines)[|lines[0]| + i];
      SplitJoin(lines[0]);
      LinesSpellWords(lines[1..]);
      assert JoinAll(lines)[1..] == JoinAll(lines[1..]);
    }
  }
}
