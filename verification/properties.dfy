/** What the sentence machine promises, stated apart from its definition:
    the closed form of the split branch, how the fold composes, which lines
    leave no trace, how the two modes evolve, what a code block emits, how
    prose lines join into a sentence, which emitted sentences may lack a
    final `'.'`, and that the text still pending at the end of an article
    is lost. */
module SentenceProperties {
  import opened Text
  import opened SentenceMachine

  // ---------------------------------------------------------------------
  // The split branch in closed form

  /** The non-empty strings of `parts`, in order. */
  function NonEmpty(parts: seq<string>): seq<string>
  {
    if parts == [] then []
    else (if parts[0] == "" then [] else [parts[0]]) + NonEmpty(parts[1..])
  }

  /** What handling a line split into `parts` should do, without the loop:
      let `body` be the non-empty pieces before the last one. If there are
      none, nothing is emitted and the last piece (if non-empty) is added to
      the pending sentence. Otherwise one sentence per piece of `body` is
      emitted, each ending in `'.'`, the first one also carrying the text
      that was pending; afterwards only the last piece (if non-empty) is
      pending. The modes never change. */
  ghost predicate SplitOutcome(st: State, parts: seq<string>, r: State)
    requires |parts| >= 1
  {
    var body := NonEmpty(parts[..|parts| - 1]);
    var last := parts[|parts| - 1];
    var tail := if last == "" then "" else last + " ";
    && r.inCodeBlock == st.inCodeBlock
    && r.inPreamble == st.inPreamble
    && if body == [] then
         r.sentences == st.sentences && r.sentence == st.sentence + tail
       else
         && |r.sentences| == |st.sentences| + |body|
         && r.sentences[..|st.sentences|] == st.sentences
         && r.sentences[|st.sentences|] == st.sentence + body[0] + "."
         && (forall k :: 1 <= k < |body| ==> r.sentences[|st.sentences| + k] == body[k] + ".")
         && r.sentence == tail
  }

  /** The loop over the pieces of a split line does what `SplitOutcome` says. */
  lemma {:induction false} SplitPartsOutcome(st: State, parts: seq<string>)
    requires |parts| >= 1
    ensures SplitOutcome(st, parts, SplitParts(st, parts))
    decreases |parts|
  {
    var n := |parts|;
    if n > 1 {
      var rest := parts[1..];
      assert parts[..n - 1] == [parts[0]] + rest[..n - 2];
      assert NonEmpty(parts[..n - 1])
          == (if parts[0] == "" then [] else [parts[0]]) + NonEmpty(rest[..n - 2]);
      assert parts[n - 1] == rest[n - 2];
      if parts[0] == "" {
        SplitPartsOutcome(st, rest);
      } else {
        var st1 := st.(sentences := st.sentences + [st.sentence + parts[0] + "."], sentence := "");
        SplitPartsOutcome(st1, rest);
        var r := SplitParts(st1, rest);
        var body' := NonEmpty(rest[..n - 2]);
        var body := [parts[0]] + body';
        assert r.sentences[..|st1.sentences|] == st1.sentences;
        assert r.sentences[..|st.sentences|] == st.sentences by {
          assert r.sentences[..|st.sentences|] == st1.sentences[..|st.sentences|];
        }
        assert r.sentences[|st.sentences|] == st.sentence + body[0] + ".";
        forall k | 1 <= k < |body|
          ensures r.sentences[|st.sentences| + k] == body[k] + "."
        {
          assert body[k] == body'[k - 1];
          if k == 1 {
            assert r.sentences[|st1.sentences|] == "" + body'[0] + ".";
            assert "" + body'[0] == body'[0];
          } else {
            assert r.sentences[|st1.sentences| + (k - 1)] == body'[k - 1] + ".";
          }
        }
      }
    } else {
      assert parts[..0] == [];
    }
  }

  // ---------------------------------------------------------------------
  // The fold

  /** Running over two batches of lines is running over the first, then
      over the second from where the first stopped. */
  lemma {:induction false} RunAppend(st: State, a: seq<string>, b: seq<string>)
    ensures Run(st, a + b) == Run(Run(st, a), b)
    decreases |a|
  {
    if a == [] {
      assert a + b == b;
    } else {
      assert (a + b)[0] == a[0];
      assert (a + b)[1..] == a[1..] + b;
      RunAppend(Step(st, a[0]), a[1..], b);
    }
  }

  /** Output only grows: the sentences produced by some lines are a prefix
      of those produced by the same lines followed by more. */
  lemma OutputOnlyGrows(st: State, a: seq<string>, b: seq<string>)
    ensures Run(st, a).sentences <= Run(st, a + b).sentences
  {
    RunAppend(st, a, b);
  }

  /** Lines the machine discards at once, in any mode. */
  predicate Discarded(line: string)
  {
    line == "" || StartsWith(line, Headline)
  }

  /** An empty line or a headline, wherever it appears, changes nothing:
      neither the output nor the modes nor the pending sentence. */
  lemma DiscardedLineIsInvisible(st: State, a: seq<string>, line: string, b: seq<string>)
    requires Discarded(line)
    ensures Run(st, a + [line] + b) == Run(st, a + b)
  {
    assert a + [line] + b == a + ([line] + b);
    RunAppend(st, a, [line] + b);
    RunAppend(st, a, b);
    assert ([line] + b)[1..] == b;
  }

  /** How many of `lines` start with `marker`. */
  function CountStarting(lines: seq<string>, marker: string): nat
  {
    if lines == [] then 0
    else (if StartsWith(lines[0], marker) then 1 else 0) + CountStarting(lines[1..], marker)
  }

  /** The preamble mode flips on every line starting with `---`, whatever
      the other mode, and on nothing else. */
  lemma {:induction false} PreambleParity(st: State, lines: seq<string>)
    ensures Run(st, lines).inPreamble
        == (st.inPreamble != (CountStarting(lines, PreambleFence) % 2 == 1))
    decreases |lines|
  {
    if lines != [] {
      PreambleParity(Step(st, lines[0]), lines[1..]);
    }
  }

  /** A `---` line flips the preamble mode and does nothing else, even in
      the middle of a code block: no text is kept and nothing is emitted. */
  lemma PreambleMarkerOnlyFlips(st: State, line: string)
    requires StartsWith(line, PreambleFence)
    ensures Step(st, line) == st.(inPreamble := !st.inPreamble)
  {
    StartsWithHead(line, PreambleFence);
    if StartsWith(line, Headline) { StartsWithHead(line, Headline); }
  }

  /** While the preamble is open, lines that do not close it leave the whole
      state alone: fences do not open code blocks and nothing is emitted. */
  lemma {:induction false} PreambleIsInert(st: State, lines: seq<string>)
    requires st.inPreamble
    requires forall k :: 0 <= k < |lines| ==> !StartsWith(lines[k], PreambleFence)
    ensures Run(st, lines) == st
    decreases |lines|
  {
    if lines != [] {
      assert Step(st, lines[0]) == st;
      PreambleIsInert(st, lines[1..]);
    }
  }

  /** A front-matter block, from its opening `---` to its closing `---`,
      contributes nothing at all. */
  lemma PreambleBlockIsSkipped(st: State, open: string, body: seq<string>, close: string)
    requires !st.inPreamble
    requires StartsWith(open, PreambleFence) && StartsWith(close, PreambleFence)
    requires forall k :: 0 <= k < |body| ==> !StartsWith(body[k], PreambleFence)
    ensures Run(st, [open] + body + [close]) == st
  {
    var inside := st.(inPreamble := true);
    assert Step(st, open) == inside;
    RunAppend(st, [open], body + [close]);
    assert [open] + body + [close] == [open] + (body + [close]);
    RunAppend(inside, body, [close]);
    PreambleIsInert(inside, body);
    assert Step(inside, close) == st;
  }

  /** A line of code the machine keeps inside a code block: not empty, not
      a headline or a marker, and not ending in `'.'` (such a line would
      complete a sentence in the middle of the block). */
  predicate CodeLine(line: string)
  {
    && line != ""
    && !StartsWith(line, Headline)
    && !StartsWith(line, PreambleFence)
    && !StartsWith(line, CodeFence)
    && !EndsWith(line, '.')
  }

  /** Inside a code block, code lines pile up in the pending sentence, each
      followed by `'\n'`, and nothing is emitted. */
  lemma {:induction false} CodeLinesAccumulate(st: State, code: seq<string>)
    requires st.inCodeBlock && !st.inPreamble
    requires forall k :: 0 <= k < |code| ==> CodeLine(code[k])
    ensures Run(st, code) == st.(sentence := st.sentence + Unlines(code))
    decreases |code|
  {
    if code != [] {
      var st1 := Step(st, code[0]);
      assert CodeLine(code[0]);
      assert st1 == st.(sentence := st.sentence + code[0] + "\n");
      CodeLinesAccumulate(st1, code[1..]);
      assert st.sentence + code[0] + "\n" + Unlines(code[1..])
          == st.sentence + Unlines(code);
    }
  }

  /** A code block outside the preamble emits exactly one sentence when it
      closes: the text pending when it opened followed by its lines, each
      ended by `'\n'`. The opening fence emits nothing. */
  lemma CodeBlockIsOneSentence(st: State, open: string, code: seq<string>, close: string)
    requires !st.inPreamble && !st.inCodeBlock
    requires StartsWith(open, CodeFence) && StartsWith(close, CodeFence)
    requires forall k :: 0 <= k < |code| ==> CodeLine(code[k])
    ensures Run(st, [open] + code + [close])
        == st.(sentences := st.sentences + [st.sentence + Unlines(code)], sentence := "")
  {
    var inside := st.(inCodeBlock := true);
    StartsWithHead(open, CodeFence);
    assert Step(st, open) == inside;
    RunAppend(st, [open], code + [close]);
    assert [open] + code + [close] == [open] + (code + [close]);
    RunAppend(inside, code, [close]);
    CodeLinesAccumulate(inside, code);
    StartsWithHead(close, CodeFence);
  }

  /** Inside a code block, a line ending in `'.'` that is no headline or
      marker completes a sentence in the middle of the block: the text
      pending before it, the code lines since, each with its `'\n'`, and the
      line itself. The block stays open. */
  lemma CodeLineEndingInDotEmits(st: State, code: seq<string>, line: string)
    requires st.inCodeBlock && !st.inPreamble
    requires forall k :: 0 <= k < |code| ==> CodeLine(code[k])
    requires EndsWith(line, '.') && !Marked(line)
    ensures Run(st, code + [line])
        == st.(sentences := st.sentences + [st.sentence + Unlines(code) + line], sentence := "")
  {
    RunAppend(st, code, [line]);
    CodeLinesAccumulate(st, code);
    var st1 := st.(sentence := st.sentence + Unlines(code));
    assert Run(st1, [line]) == Step(st1, line);
  }

  // ---------------------------------------------------------------------
  // Prose

  /** A line starting with one of the three markers. */
  predicate Marked(line: string)
  {
    StartsWith(line, Headline) || StartsWith(line, PreambleFence) || StartsWith(line, CodeFence)
  }

  /** A line of prose that leaves its sentence open: not empty, no marker,
      no `". "` inside and no `'.'` at the end. */
  predicate ProseLine(line: string)
  {
    line != "" && !Marked(line) && !Contains(line, SentenceBreak) && !EndsWith(line, '.')
  }

  /** Lines written out one after another, each followed by a space. */
  function Spaced(lines: seq<string>): string
  {
    if lines == [] then "" else lines[0] + " " + Spaced(lines[1..])
  }

  /** Outside code blocks and the preamble, lines of an open sentence pile
      up in the pending sentence, each followed by a space, and nothing is
      emitted. */
  lemma {:induction false} ProseLinesAccumulate(st: State, prose: seq<string>)
    requires !st.inCodeBlock && !st.inPreamble
    requires forall k :: 0 <= k < |prose| ==> ProseLine(prose[k])
    ensures Run(st, prose) == st.(sentence := st.sentence + Spaced(prose))
    decreases |prose|
  {
    if prose != [] {
      var st1 := Step(st, prose[0]);
      assert ProseLine(prose[0]);
      assert st1 == st.(sentence := st.sentence + prose[0] + " ");
      ProseLinesAccumulate(st1, prose[1..]);
      assert st.sentence + prose[0] + " " + Spaced(prose[1..])
          == st.sentence + Spaced(prose);
    }
  }

  /** A sentence wrapped over several lines comes out as one sentence: the
      pending text, the open lines joined by spaces, and the line ending in
      `'.'`; afterwards nothing is pending. */
  lemma WrappedSentence(st: State, prose: seq<string>, line: string)
    requires !st.inCodeBlock && !st.inPreamble
    requires forall k :: 0 <= k < |prose| ==> ProseLine(prose[k])
    requires EndsWith(line, '.') && !Marked(line) && !Contains(line, SentenceBreak)
    ensures Run(st, prose + [line])
        == st.(sentences := st.sentences + [st.sentence + Spaced(prose) + line], sentence := "")
  {
    RunAppend(st, prose, [line]);
    ProseLinesAccumulate(st, prose);
    var st1 := st.(sentence := st.sentence + Spaced(prose));
    assert Run(st1, [line]) == Step(st1, line);
  }

  /** A line split on `". "` never reaches the rule for lines ending in
      `'.'`: its last piece, even one ending in `'.'`, stays pending with a
      space after it, and is emitted only together with the next line that
      ends a sentence. */
  lemma SplitTailJoinsNextSentence(st: State, line: string, next: string)
    requires !st.inCodeBlock && !st.inPreamble
    requires line != "" && !Marked(line) && Contains(line, SentenceBreak)
    requires Split(line, SentenceBreak)[|Split(line, SentenceBreak)| - 1] != ""
    requires EndsWith(next, '.') && !Marked(next) && !Contains(next, SentenceBreak)
    ensures
      var parts := Split(line, SentenceBreak);
      var last := parts[|parts| - 1];
      var body := NonEmpty(parts[..|parts| - 1]);
      var st1 := Step(st, line);
      && st1.sentence == (if body == [] then st.sentence else "") + last + " "
      && Run(st, [line, next])
         == st1.(sentences := st1.sentences + [st1.sentence + next], sentence := "")
  {
    SplitTailPending(st, line);
    var st1 := Step(st, line);
    SentenceEndStep(st1, next);
    assert [line, next][1..] == [next];
    assert Run(st1, [next]) == Step(st1, next);
  }

  /** After a split line, the modes are unchanged and the last piece is
      pending, after the old pending text if nothing was emitted. */
  lemma SplitTailPending(st: State, line: string)
    requires !st.inCodeBlock && !st.inPreamble
    requires line != "" && !Marked(line) && Contains(line, SentenceBreak)
    ensures
      var parts := Split(line, SentenceBreak);
      var last := parts[|parts| - 1];
      var body := NonEmpty(parts[..|parts| - 1]);
      var st1 := Step(st, line);
      && !st1.inCodeBlock && !st1.inPreamble
      && st1.sentence == (if body == [] then st.sentence else "") + (if last == "" then "" else last + " ")
  {
    SplitPartsOutcome(st, Split(line, SentenceBreak));
    SplitLineStep(st, line);
  }

  /** A prose line holding `". "` goes to the split branch. */
  lemma SplitLineStep(st: State, line: string)
    requires !st.inCodeBlock && !st.inPreamble
    requires line != "" && !Marked(line) && Contains(line, SentenceBreak)
    ensures Step(st, line) == SplitParts(st, Split(line, SentenceBreak))
  {
  }

  /** A prose line ending in `'.'` without `". "` completes the pending
      sentence. */
  lemma SentenceEndStep(st: State, line: string)
    requires !st.inCodeBlock && !st.inPreamble
    requires EndsWith(line, '.') && !Marked(line) && !Contains(line, SentenceBreak)
    ensures Step(st, line) == st.(sentences := st.sentences + [st.sentence + line], sentence := "")
  {
  }

  // ---------------------------------------------------------------------
  // The shape of what is emitted

  /** How many of `sentences` do not end in `'.'`. */
  function Unterminated(sentences: seq<string>): nat
  {
    if sentences == [] then 0
    else (if EndsWith(sentences[0], '.') then 0 else 1) + Unterminated(sentences[1..])
  }

  lemma {:induction false} UnterminatedAppend(a: seq<string>, b: seq<string>)
    ensures Unterminated(a + b) == Unterminated(a) + Unterminated(b)
    decreases |a|
  {
    if a == [] {
      assert a + b == b;
    } else {
      assert (a + b)[1..] == a[1..] + b;
      UnterminatedAppend(a[1..], b);
    }
  }

  lemma {:induction false} UnterminatedZero(sentences: seq<string>)
    ensures Unterminated(sentences) == 0
        <==> forall k :: 0 <= k < |sentences| ==> EndsWith(sentences[k], '.')
    decreases |sentences|
  {
    if sentences != [] {
      UnterminatedZero(sentences[1..]);
      if Unterminated(sentences) == 0 {
        forall k | 0 <= k < |sentences|
          ensures EndsWith(sentences[k], '.')
        {
          if k > 0 { assert sentences[k] == sentences[1..][k - 1]; }
        }
      }
    }
  }

  /** How many of `lines` close a code block when the machine, started in
      `st`, reaches them. */
  function ClosingFences(st: State, lines: seq<string>): nat
    decreases |lines|
  {
    if lines == [] then 0
    else (if ClosesCodeBlock(st, lines[0]) then 1 else 0) + ClosingFences(Step(st, lines[0]), lines[1..])
  }

  /** Closing fences are among the lines starting with a fence. */
  lemma {:induction false} ClosingFencesAreFences(st: State, lines: seq<string>)
    ensures ClosingFences(st, lines) <= CountStarting(lines, CodeFence)
    decreases |lines|
  {
    if lines != [] {
      ClosingFencesAreFences(Step(st, lines[0]), lines[1..]);
    }
  }

  /** Every emitted sentence ends in `'.'` except those flushed by a closing
      code fence: the number of emitted sentences without a final `'.'` is
      at most the number of fences that close a block. */
  lemma {:induction false} UnterminatedOnlyFromFences(st: State, lines: seq<string>)
    ensures Unterminated(Run(st, lines).sentences)
        <= Unterminated(st.sentences) + ClosingFences(st, lines)
    decreases |lines|
  {
    if lines != [] {
      var st1 := Step(st, lines[0]);
      var emitted := st1.sentences[|st.sentences|..];
      assert st1.sentences == st.sentences + emitted;
      UnterminatedAppend(st.sentences, emitted);
      if ClosesCodeBlock(st, lines[0]) {
        assert emitted == [st.sentence];
        assert Unterminated(emitted) <= 1;
      } else {
        UnterminatedZero(emitted);
        assert forall k :: 0 <= k < |emitted| ==> emitted[k] == st1.sentences[|st.sentences| + k];
      }
      UnterminatedOnlyFromFences(st1, lines[1..]);
    }
  }

  /** An article without code fences yields only sentences ending in `'.'`. */
  lemma FenceFreeArticleEndsEverySentence(content: string)
    requires CountStarting(Lines(content), CodeFence) == 0
    ensures forall k :: 0 <= k < |Parse(content)| ==> EndsWith(Parse(content)[k], '.')
  {
    UnterminatedOnlyFromFences(Start, Lines(content));
    ClosingFencesAreFences(Start, Lines(content));
    UnterminatedZero(Parse(content));
  }

  // ---------------------------------------------------------------------
  // Whole articles

  /** Parsing text made of well-formed lines runs the machine over exactly
      those lines. */
  lemma ParseUnlines(lines: seq<string>)
    requires forall k :: 0 <= k < |lines| ==> IsLine(lines[k])
    ensures Parse(Unlines(lines)) == Run(Start, lines).sentences
  {
    LinesUnlines(lines);
  }

  /** The same for text with Windows line endings: each `"\r\n"` is read
      as one line break, so lines are seen without their `'\r'`. */
  lemma ParseUnlinesCrlf(lines: seq<string>)
    requires forall k :: 0 <= k < |lines| ==> '\n' !in lines[k]
    ensures Parse(UnlinesCrlf(lines)) == Run(Start, lines).sentences
  {
    LinesUnlinesCrlf(lines);
  }

  /** A line of prose that does not end a sentence: the machine only adds
      it to the pending sentence, or ignores it in the preamble. */
  predicate Unfinished(line: string)
  {
    && IsLine(line)
    && line != ""
    && !StartsWith(line, Headline)
    && !StartsWith(line, PreambleFence)
    && !StartsWith(line, CodeFence)
    && !Contains(line, SentenceBreak)
    && !EndsWith(line, '.')
  }

  /** An unfinished line never emits anything, in any state. */
  lemma UnfinishedLineEmitsNothing(st: State, line: string)
    requires Unfinished(line)
    ensures Step(st, line).sentences == st.sentences
  {
  }

  /** The text still pending when an article ends is dropped, not flushed:
      appending an unfinished last line does not change the result. */
  lemma UnfinishedTailIsDropped(lines: seq<string>, line: string)
    requires forall k :: 0 <= k < |lines| ==> IsLine(lines[k])
    requires Unfinished(line)
    ensures Parse(Unlines(lines + [line])) == Parse(Unlines(lines))
  {
    var all := lines + [line];
    assert forall k :: 0 <= k < |all| ==> IsLine(all[k]) by {
      forall k | 0 <= k < |all|
        ensures IsLine(all[k])
      {
        if k < |lines| { assert all[k] == lines[k]; } else { assert all[k] == line; }
      }
    }
    ParseUnlines(lines);
    ParseUnlines(all);
    RunAppend(Start, lines, [line]);
    var st := Run(Start, lines);
    assert Run(st, [line]) == Step(st, line);
    UnfinishedLineEmitsNothing(st, line);
  }

  /** A one-line article that ends in `'.'`, holds no `". "` and is no
      headline or marker comes out verbatim as the only sentence. */
  lemma OneSentenceArticle(line: string)
    requires IsLine(line) && EndsWith(line, '.')
    requires !Contains(line, SentenceBreak)
    requires !StartsWith(line, Headline)
    requires !StartsWith(line, PreambleFence)
    requires !StartsWith(line, CodeFence)
    ensures Parse(line) == [line]
    ensures Parse(line + "\n") == [line]
  {
    ParseUnlines([line]);
    assert Unlines([line]) == line + "\n";
    assert Step(Start, line).sentences == ["" + line];
    assert "" + line == line;
    match FindFrom(line, "\n", 0)
    case None =>
    case Some(i) =>
      CharOccurs(line, '\n', i);
      assert false;
  }

  /** A line that is split on `". "` never reaches the rule for lines
      ending in `'.'`: its last sentence stays pending and is glued to the
      next line's text. */
  lemma SplitLineKeepsItsLastSentencePending()
    ensures Parse("A. B.\nC.\n") == ["A.", "B. C."]
  {
    var first := "A. B.";
    var st1 := State(["A."], "B. ", false, false);
    ExampleSplit();
    assert first[0] == 'A';
    StartsWithHeadExcluded(first, Headline);
    StartsWithHeadExcluded(first, PreambleFence);
    StartsWithHeadExcluded(first, CodeFence);
    assert Contains(first, SentenceBreak) by {
      assert OccursAt(first, SentenceBreak, 1);
    }
    assert ["A", "B."][1..] == ["B."];
    assert "" + "A" + "." == "A.";
    assert "" + "B." + " " == "B. ";
    assert Step(Start, first) == st1;
    assert "C."[0] == 'C';
    StartsWithHeadExcluded("C.", Headline);
    StartsWithHeadExcluded("C.", PreambleFence);
    StartsWithHeadExcluded("C.", CodeFence);
    assert !Contains("C.", SentenceBreak) by {
      assert "C."[0..2][0] == 'C';
    }
    assert "B. " + "C." == "B. C.";
    assert Step(st1, "C.") == State(["A.", "B. C."], "", false, false);
    var lines := [first, "C."];
    assert lines[1..] == ["C."] && lines[1..][1..] == [];
    assert Run(Start, lines) == Run(st1, ["C."]);
    assert Unlines(lines) == first + "\n" + ("C." + "\n" + "");
    assert Unlines(lines) == "A. B.\nC.\n";
    assert IsLine(first) && IsLine("C.");
    ParseUnlines(lines);
  }

  /** A string whose first character differs from a marker's does not start
      with that marker. */
  lemma StartsWithHeadExcluded(s: string, marker: string)
    requires |s| > 0 && |marker| > 0 && s[0] != marker[0]
    ensures !StartsWith(s, marker)
  {
    if StartsWith(s, marker) { StartsWithHead(s, marker); }
  }

  /** `"A. B.".split(". ")` is `["A", "B."]`. */
  lemma ExampleSplit()
    ensures Split("A. B.", SentenceBreak) == ["A", "B."]
  {
    var first := "A. B.";
    assert first[1..3] == SentenceBreak;
    assert first[0..2][0] == 'A';
    FindFromFirst(first, SentenceBreak, 1);
    var rest := first[3..];
    assert rest == "B.";
    assert rest[0..2][0] == 'B';
    assert !OccursAt(rest, SentenceBreak, 0);
    assert FindFrom(rest, SentenceBreak, 0) == None;
    assert Split(rest, SentenceBreak) == [rest];
    assert first[..1] == "A";
  }
}
