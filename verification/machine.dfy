/** The line-by-line state machine that turns a Markdown article into a
    list of sentences, written as a pure step function folded over the
    article's lines. Both `parse_markdown_to_sentences` in `src/main.rs`
    and the per-article loop of `get_sentences` in `src/lib.rs` run this
    machine; the imperative versions are proved equal to `Parse`. */
module SentenceMachine {
  import opened Text

  /** Everything the loop carries from one line to the next: the sentences
      emitted so far, the sentence being built, and the two modes. */
  datatype State = State(
    sentences: seq<string>,
    sentence: string,
    inCodeBlock: bool,
    inPreamble: bool)

  /** The state each article starts from. */
  const Start := State([], "", false, false)

  const Headline := "#"
  const PreambleFence := "---"
  const CodeFence := "```"
  const SentenceBreak := ". "

  /** The inner loop over the pieces of a line split on `". "`. An empty
      piece is skipped; a non-empty piece that is not the last one completes
      the pending sentence with a `'.'` and emits it; a non-empty last piece
      stays pending, followed by a space. Only the two sentence fields change. */
  function SplitParts(st: State, parts: seq<string>): (r: State)
    ensures r.inCodeBlock == st.inCodeBlock && r.inPreamble == st.inPreamble
    ensures st.sentences <= r.sentences
    ensures forall k :: |st.sentences| <= k < |r.sentences| ==> EndsWith(r.sentences[k], '.')
    decreases |parts|
  {
    if parts == [] then st
    else if parts[0] == "" then SplitParts(st, parts[1..])
    else if |parts| > 1 then
      var done := st.sentence + parts[0] + ".";
      assert EndsWith(done, '.');
      SplitParts(st.(sentences := st.sentences + [done], sentence := ""), parts[1..])
    else st.(sentence := st.sentence + parts[0] + " ")
  }

  /** The closing fence of a code block, seen outside the preamble. */
  predicate ClosesCodeBlock(st: State, line: string)
  {
    !st.inPreamble && st.inCodeBlock && StartsWith(line, CodeFence)
  }

  /** One iteration of the loop over the lines of an article, with its
      rules tried in the order the source tries them. */
  function Step(st: State, line: string): (r: State)
    ensures st.sentences <= r.sentences
    ensures r.inPreamble != st.inPreamble <==> StartsWith(line, PreambleFence)
    ensures r.inCodeBlock != st.inCodeBlock <==> !st.inPreamble && StartsWith(line, CodeFence)
    ensures ClosesCodeBlock(st, line) ==> r.sentences == st.sentences + [st.sentence] && r.sentence == ""
    ensures !ClosesCodeBlock(st, line) ==>
      forall k :: |st.sentences| <= k < |r.sentences| ==> EndsWith(r.sentences[k], '.')
  {
    if line == "" then st
    else if StartsWith(line, Headline) then
      // a headline never starts with the other two markers
      StartsWithHead(line, Headline);
      assert !StartsWith(line, PreambleFence) by {
        if StartsWith(line, PreambleFence) { StartsWithHead(line, PreambleFence); }
      }
      assert !StartsWith(line, CodeFence) by {
        if StartsWith(line, CodeFence) { StartsWithHead(line, CodeFence); }
      }
      st
    else if StartsWith(line, PreambleFence) then
      assert !StartsWith(line, CodeFence) by {
        StartsWithHead(line, PreambleFence);
        if StartsWith(line, CodeFence) { StartsWithHead(line, CodeFence); }
      }
      st.(inPreamble := !st.inPreamble)
    else if st.inPreamble then st
    else if StartsWith(line, CodeFence) then
      if st.inCodeBlock then st.(sentences := st.sentences + [st.sentence], sentence := "", inCodeBlock := false)
      else st.(inCodeBlock := true)
    else if Contains(line, SentenceBreak) && !st.inCodeBlock then
      SplitParts(st, Split(line, SentenceBreak))
    else if EndsWith(line, '.') then
      var done := st.sentence + line;
      assert EndsWith(done, '.');
      st.(sentences := st.sentences + [done], sentence := "")
    else
      st.(sentence := st.sentence + line + (if st.inCodeBlock then "\n" else " "))
  }

  /** The loop over all lines: a left fold of `Step`. */
  function Run(st: State, lines: seq<string>): (r: State)
    ensures st.sentences <= r.sentences
    decreases |lines|
  {
    if lines == [] then st else Run(Step(st, lines[0]), lines[1..])
  }

  /** `parse_markdown_to_sentences`: the sentences emitted while running
      the machine over the article's lines. Whatever is still pending in
      `sentence` after the last line is not returned. */
  function Parse(content: string): seq<string>
  {
    Run(Start, Lines(content)).sentences
  }
}
