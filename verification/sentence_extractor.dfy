/** The parsing loop of `get_sentences` in `src/lib.rs`: the same line
    machine, written out again inside a loop over the contents of the
    articles. Listing the directory and reading the files are left to the
    caller, so the loop receives the contents directly. */
module SentenceExtractor {
  import opened Text
  import opened SentenceMachine

  /** One list of sentences per article, in the order of the articles, each
      being what `Parse` (the machine of `parse_markdown_to_sentences`)
      makes of that article alone: every article starts from a fresh state,
      and nothing pending at the end of one article reaches the next. */
  method GetSentences(contents: seq<string>) returns (parsed: seq<seq<string>>)
    ensures |parsed| == |contents|
    ensures forall a :: 0 <= a < |contents| ==> parsed[a] == Parse(contents[a])
  {
    parsed := [];
    var a := 0;
    while a < |contents|
      invariant 0 <= a <= |contents|
      invariant |parsed| == a
      invariant forall b :: 0 <= b < a ==> parsed[b] == Parse(contents[b])
    {
      var article := contents[a];
      var sentences := [];
      var sentence := "";
      var inCodeBlock := false;
      var inPreamble := false;
      var lines := Lines(article);
      var i := 0;
      while i < |lines|
        invariant 0 <= i <= |lines|
        invariant Run(State(sentences, sentence, inCodeBlock, inPreamble), lines[i..]) == Run(Start, lines)
      {
        ghost var before := State(sentences, sentence, inCodeBlock, inPreamble);
        var line := lines[i];
        assert lines[i..][0] == line && lines[i..][1..] == lines[i + 1..];
        if line == "" {
        } else if StartsWith(line, Headline) {
        } else if StartsWith(line, PreambleFence) {
          inPreamble := !inPreamble;
        } else if inPreamble {
        } else if StartsWith(line, CodeFence) {
          if inCodeBlock {
            sentences := sentences + [sentence];
            sentence := "";
          }
          inCodeBlock := !inCodeBlock;
        } else if Contains(line, SentenceBreak) && !inCodeBlock {
          var parts := Split(line, SentenceBreak);
          var count := |parts|;
          var idx := 0;
          while idx < count
            invariant 0 <= idx <= count
            invariant SplitParts(State(sentences, sentence, inCodeBlock, inPreamble), parts[idx..])
                   == SplitParts(before, parts)
          {
            var part := parts[idx];
            assert parts[idx..][0] == part && parts[idx..][1..] == parts[idx + 1..];
            if part != "" {
              sentence := sentence + part;
              if idx < count - 1 {
                sentence := sentence + ".";
                sentences := sentences + [sentence];
                sentence := "";
              } else {
                sentence := sentence + " ";
              }
            }
            idx := idx + 1;
          }
        } else if EndsWith(line, '.') {
          sentence := sentence + line;
          sentences := sentences + [sentence];
          sentence := "";
        } else {
          sentence := sentence + line;
          if inCodeBlock {
            sentence := sentence + "\n";
          } else {
            sentence := sentence + " ";
          }
        }
        assert State(sentences, sentence, inCodeBlock, inPreamble) == Step(before, line);
        i := i + 1;
      }
      parsed := parsed + [sentences];
      a := a + 1;
    }
  }
}
