/** `wrapText`, identical in all three renderer files: greedy packing of space-separated
    words into lines against a character budget derived from the font size. */
module Wrap {
  import opened Text

  /** Estimated width of one character: `fontSize * 0.52`. */
  function AvgCharWidth(fontSize: nat): real {
    fontSize as real * 0.52
  }

  /** `Math.floor(maxWidth / avgCharWidth)`: the most characters whose estimated width fits. */
  function CharsPerLine(fontSize: nat, maxWidth: int): (n: int)
    requires fontSize > 0
    ensures (n as real) * AvgCharWidth(fontSize) <= (maxWidth as real)
    ensures (maxWidth as real) < ((n + 1) as real) * AvgCharWidth(fontSize)
  {
    var w := AvgCharWidth(fontSize);
    var x := (maxWidth as real) / w;
    var k := x.Floor;
    assert w > 0.0 && x * w == maxWidth as real;
    assert (k as real) <= x < (k as real) + 1.0;
    assert (k as real) * w <= x * w;
    var m := (k + 1) as real;
    assert m == (k as real) + 1.0;
    assert x < m;
    assert x * w < m * w;
    assert (maxWidth as real) < m * w;
    assert (maxWidth as real) < ((k + 1) as real) * AvgCharWidth(fontSize);
    k
  }

  /** With the 1000-unit target width, the three title sizes allow 40, 34 and 30 characters. */
  lemma TitleBudgets()
    ensures CharsPerLine(48, 1000) == 40
    ensures CharsPerLine(56, 1000) == 34
    ensures CharsPerLine(64, 1000) == 30
  {
    var n48, n56, n64 := CharsPerLine(48, 1000), CharsPerLine(56, 1000), CharsPerLine(64, 1000);
    assert (n48 as real) * 24.96 <= 1000.0 < ((n48 + 1) as real) * 24.96;
    assert (n56 as real) * 29.12 <= 1000.0 < ((n56 + 1) as real) * 29.12;
    assert (n64 as real) * 33.28 <= 1000.0 < ((n64 + 1) as real) * 33.28;
  }

  /** The loop state: lines already emitted and the line being filled. */
  datatype Packing = Packing(lines: seq<string>, current: string)

  /** One iteration of the loop over `words`. */
  function Step(p: Packing, word: string, budget: int): Packing {
    var test := if p.current != "" then p.current + " " + word else word;
    if |test| > budget && p.current != "" then Packing(p.lines + [p.current], word)
    else Packing(p.lines, test)
  }

  /** The loop state after the words seen so far. */
  function Pack(words: seq<string>, budget: int): Packing
    decreases |words|
  {
    if words == [] then Packing([], "")
    else Step(Pack(words[..|words| - 1], budget), words[|words| - 1], budget)
  }

  /** `if (current) lines.push(current)` after the loop. */
  function Finish(p: Packing): seq<string> {
    if p.current != "" then p.lines + [p.current] else p.lines
  }

  /** The text before the first space of a line. */
  function FirstToken(s: string): string {
    Split(s, ' ')[0]
  }

  /** Splitting on spaces yields no empty token: no leading, trailing or doubled space, and not empty. */
  predicate NoEmptyTokens(text: string) {
    NoneEmpty(Split(text, ' '))
  }

  predicate NoneEmpty(parts: seq<string>) {
    forall p <- parts :: p != ""
  }

  /** No two adjacent spaces. */
  predicate SingleSpaced(s: string)
    decreases |s|
  {
    |s| < 2 || (!(s[0] == ' ' && s[1] == ' ') && SingleSpaced(s[1..]))
  }

  /** Non-empty, with no leading, trailing or doubled space. */
  predicate WellSpaced(s: string) {
    s != "" && s[0] != ' ' && s[|s| - 1] != ' ' && SingleSpaced(s)
  }

  /** Splitting on spaces yields no empty token exactly when the text is well spaced. */
  lemma {:induction false} NoEmptyTokensIff(s: string)
    ensures NoEmptyTokens(s) <==> WellSpaced(s)
    decreases |s|
  {
    if s == [] {
      assert Split(s, ' ') == [[]] && [] in Split(s, ' ');
    } else if s[0] == ' ' {
      assert Split(s, ' ')[0] == [] && Split(s, ' ')[0] in Split(s, ' ');
    } else if |s| == 1 {
      TokensAfterHead(s);
      assert Split(s[1..], ' ') == [[]];
    } else if s[1] == ' ' {
      NoEmptyTokensIff(s[2..]);
      NoEmptyTokensIffSpace(s);
    } else {
      NoEmptyTokensIff(s[1..]);
      NoEmptyTokensIffLetter(s);
    }
  }

  /** Past a non-space head, only the tokens after the first one of the tail can be empty. */
  lemma TokensAfterHead(s: string)
    requires s != [] && s[0] != ' '
    ensures NoEmptyTokens(s) <==> NoneEmpty(Split(s[1..], ' ')[1..])
  {
    var parts, rest := Split(s, ' '), Split(s[1..], ' ');
    assert parts == [[s[0]] + rest[0]] + rest[1..];
    if forall p <- rest[1..] :: p != "" {
      forall p <- parts ensures p != "" {
        assert p == parts[0] || p in rest[1..];
      }
    } else {
      var p :| p in rest[1..] && p == "";
      assert p in parts;
    }
  }

  /** Inductive step for a non-space head followed by a space. */
  lemma NoEmptyTokensIffSpace(s: string)
    requires |s| >= 2 && s[0] != ' ' && s[1] == ' '
    requires NoEmptyTokens(s[2..]) <==> WellSpaced(s[2..])
    ensures NoEmptyTokens(s) <==> WellSpaced(s)
  {
    TokensAfterHead(s);
    var t, u := s[1..], s[2..];
    assert t[1..] == u;
    assert Split(t, ' ') == [[]] + Split(u, ' ');
    assert Split(t, ' ')[1..] == Split(u, ' ');
    if u != [] {
      assert s[|s| - 1] == u[|u| - 1];
      assert SingleSpaced(s) <==> SingleSpaced(t);
    }
  }

  /** Inductive step for two non-space characters at the head. */
  lemma NoEmptyTokensIffLetter(s: string)
    requires |s| >= 2 && s[0] != ' ' && s[1] != ' '
    requires NoEmptyTokens(s[1..]) <==> WellSpaced(s[1..])
    ensures NoEmptyTokens(s) <==> WellSpaced(s)
  {
    TokensAfterHead(s);
    var t := s[1..];
    TokensAfterHead(t);
    var rest, more := Split(t, ' '), Split(t[1..], ' ');
    assert rest == [[t[0]] + more[0]] + more[1..];
    assert rest[1..] == more[1..];
    assert s[|s| - 1] == t[|t| - 1];
    assert SingleSpaced(s) <==> SingleSpaced(t);
  }

  /** A line is acceptable when it fits the budget or is one unsplit token. */
  predicate FitsOrToken(line: string, budget: int) {
    |line| <= budget || ' ' !in line
  }

  /** Adjacent lines are packed greedily: the next line's first token would not have fitted. */
  predicate GreedyPair(line: string, next: string, budget: int) {
    |line| + 1 + |FirstToken(next)| > budget
  }

  predicate Greedy(lines: seq<string>, budget: int) {
    forall i :: 0 <= i < |lines| - 1 ==> GreedyPair(lines[i], lines[i + 1], budget)
  }

  /** `wrapText(text, fontSize, maxWidth)`. */
  function WrapText(text: string, fontSize: nat, maxWidth: int): (lines: seq<string>)
    requires fontSize > 0
    ensures text == "" ==> lines == []
    ensures forall l <- lines :: l != "" && FitsOrToken(l, CharsPerLine(fontSize, maxWidth))
  {
    var budget := CharsPerLine(fontSize, maxWidth);
    var words := Split(text, ' ');
    PackBounded(words, budget);
    assert text == "" ==> words == [[]] && Pack(words, budget) == Packing([], "");
    Finish(Pack(words, budget))
  }

  /** Every emitted line is non-empty, and a line over budget is a single token. */
  lemma {:induction false} PackBounded(words: seq<string>, budget: int)
    requires forall w <- words :: ' ' !in w
    ensures forall l <- Pack(words, budget).lines :: l != "" && FitsOrToken(l, budget)
    ensures FitsOrToken(Pack(words, budget).current, budget)
    decreases |words|
  {
    if words != [] {
      var init := words[..|words| - 1];
      assert forall w <- init :: w in words;
      PackBounded(init, budget);
      assert words[|words| - 1] in words;
    }
  }

  /** The first token is unaffected by what follows a later space. */
  lemma {:induction false} FirstTokenExtend(a: string, rest: string)
    requires |rest| > 0 && rest[0] == ' '
    ensures Split(a + rest, ' ')[0] == Split(a, ' ')[0]
    decreases |a|
  {
    if a == [] {
      assert a + rest == rest;
    } else {
      FirstTokenExtend(a[1..], rest);
      assert (a + rest)[1..] == a[1..] + rest;
    }
  }

  /** A word without spaces is its own first token. */
  lemma FirstTokenOfWord(w: string)
    requires ' ' !in w
    ensures FirstToken(w) == w
  {
    SplitNoSeparator(w, ' ');
  }

  /** The packing seen as a whole: emitted lines followed by the current line. */
  function AllLines(p: Packing): seq<string> {
    p.lines + [p.current]
  }

  /** What the loop keeps for words without empty tokens: the current line is never empty,
      nothing is lost, and every break so far was forced. */
  predicate PackedExactly(p: Packing, words: seq<string>, budget: int) {
    && p.current != ""
    && Join(AllLines(p), ' ') == Join(words, ' ')
    && Greedy(AllLines(p), budget)
  }

  /** A step that breaks the line keeps the packing exact. */
  lemma StepBreakKeeps(p: Packing, init: seq<string>, w: string, budget: int)
    requires |init| >= 1 && w != "" && ' ' !in w
    requires PackedExactly(p, init, budget)
    requires |p.current + " " + w| > budget
    ensures PackedExactly(Step(p, w, budget), init + [w], budget)
  {
    var all := AllLines(p);
    var all' := all + [w];
    assert AllLines(Step(p, w, budget)) == all';
    JoinSnoc(init, w, ' ');
    JoinSnoc(all, w, ' ');
    FirstTokenOfWord(w);
    assert GreedyPair(all[|all| - 1], w, budget);
    forall i | 0 <= i < |all'| - 1
      ensures GreedyPair(all'[i], all'[i + 1], budget)
    {
      if i < |all| - 1 {
        assert all'[i] == all[i] && all'[i + 1] == all[i + 1];
      }
    }
  }

  /** A step that extends the current line keeps the packing exact. */
  lemma StepExtendKeeps(p: Packing, init: seq<string>, w: string, budget: int)
    requires |init| >= 1 && w != "" && ' ' !in w
    requires PackedExactly(p, init, budget)
    requires |p.current + " " + w| <= budget
    ensures PackedExactly(Step(p, w, budget), init + [w], budget)
  {
    var all := AllLines(p);
    var test := p.current + " " + w;
    var all' := p.lines + [test];
    assert AllLines(Step(p, w, budget)) == all';
    JoinSnoc(init, w, ' ');
    if p.lines == [] {
      assert Join(all', ' ') == test;
      assert Join(all, ' ') == p.current;
    } else {
      JoinSnoc(p.lines, test, ' ');
      JoinSnoc(p.lines, p.current, ' ');
    }
    FirstTokenExtend(p.current, " " + w);
    assert p.current + (" " + w) == test;
    forall i | 0 <= i < |all'| - 1
      ensures GreedyPair(all'[i], all'[i + 1], budget)
    {
      assert all'[i] == all[i];
      if i < |all'| - 2 {
        assert all'[i + 1] == all[i + 1];
      } else {
        assert all'[i + 1] == test && all[i + 1] == p.current;
        assert FirstToken(test) == FirstToken(p.current);
        assert GreedyPair(all[i], all[i + 1], budget);
      }
    }
  }

  /** Without empty tokens, the emitted lines plus the current line are greedy and lose nothing. */
  lemma {:induction false} PackGreedyLossless(words: seq<string>, budget: int)
    requires |words| >= 1
    requires forall w <- words :: w != "" && ' ' !in w
    ensures PackedExactly(Pack(words, budget), words, budget)
    decreases |words|
  {
    var init, w := words[..|words| - 1], words[|words| - 1];
    assert words == init + [w];
    assert w in words;
    if init == [] {
      assert Pack(init, budget) == Packing([], "");
    } else {
      assert forall x <- init :: x in words;
      PackGreedyLossless(init, budget);
      var p := Pack(init, budget);
      if |p.current + " " + w| > budget {
        StepBreakKeeps(p, init, w, budget);
      } else {
        StepExtendKeeps(p, init, w, budget);
      }
    }
  }

  /** For text without empty tokens, joining the lines with single spaces gives the text back,
      and each line break happens only when the next word would have overflowed the budget. */
  lemma WrapTextGreedyLossless(text: string, fontSize: nat, maxWidth: int)
    requires fontSize > 0
    requires NoEmptyTokens(text)
    ensures Join(WrapText(text, fontSize, maxWidth), ' ') == text
    ensures Greedy(WrapText(text, fontSize, maxWidth), CharsPerLine(fontSize, maxWidth))
  {
    var words := Split(text, ' ');
    PackGreedyLossless(words, CharsPerLine(fontSize, maxWidth));
    JoinSplit(text, ' ');
  }

  /** `wrapText` as the source writes it: a loop over the words with a mutable current line. */
  method WrapTextLoop(text: string, fontSize: nat, maxWidth: int) returns (lines: seq<string>)
    requires fontSize > 0
    ensures lines == WrapText(text, fontSize, maxWidth)
  {
    var budget := CharsPerLine(fontSize, maxWidth);
    var words := Split(text, ' ');
    lines := [];
    var current := "";
    var i := 0;
    while i < |words|
      invariant 0 <= i <= |words|
      invariant Pack(words[..i], budget) == Packing(lines, current)
    {
      var word := words[i];
      var test := if current != "" then current + " " + word else word;
      if |test| > budget && current != "" {
        lines := lines + [current];
        current := word;
      } else {
        current := test;
      }
      assert words[..i + 1][..i] == words[..i];
      i := i + 1;
    }
    if current != "" {
      lines := lines + [current];
    }
    assert words[..|words|] == words;
  }
}
