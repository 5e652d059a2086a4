/** `parse_markdown_to_sentences` of `src/main.rs`, written as the loop it
    is, and proved to compute what the state machine `Parse` defines. */
module MarkdownParser {
  import opened Text
  import opened SentenceMachine

  method ParseMarkdownToSentences(content: string) returns (sentences: seq<string>)
    ensures sentences == Parse(content)
  {
    sentences := [];
    var sentence := "";
    var inCodeBlock := false;
    var inPreamble := false;
    var lines := Lines(content);
    var i := 0;
    while i < |lines|
      invariant 0 <= i <= |lines|
      invariant Run(State(sentences, sentence, inCodeBlock, inPreamble), lines[i..]) == Run(Start, lines)
    {
      ghost var before := State(sentences, sentence, inCodeBlock, inPreamble);
      var line := lines[i];
      assert lines[i..][0] == line && lines[i..][1..] == lines[i + 1..];
      if line == "" {
      } else if StartsWith(line, Headline) {
      } else if StartsWith(line, PreambleFence) {
        inPreamble := !inPreamble;
      } else if inPreamble {
      } else if StartsWith(line, CodeFence) {
        if inCodeBlock {
          sentences := sentences + [sentence];
          sentence := "";
        }
        inCodeBlock := !inCodeBlock;
      } else if Contains(line, SentenceBreak) && !inCodeBlock {
        var parts := Split(line, SentenceBreak);
        // `split` yields at least one piece, so `count - 1` cannot underflow
        var count := |parts|;
        assert count >= 1;
        var idx := 0;
        while idx < count
          invariant 0 <= idx <= count
          invariant SplitParts(State(sentences, sentence, inCodeBlock, inPreamble), parts[idx..])
                 == SplitParts(before, parts)
        {
          var part := parts[idx];
          assert parts[idx..][0] == part && parts[idx..][1..] == parts[idx + 1..];
          if part != "" {
            sentence := sentence + part;
            if idx < count - 1 {
              sentence := sentence + ".";
              sentences := sentences + [sentence];
              sentence := "";
            } else {
              sentence := sentence + " ";
            }
          }
          idx := idx + 1;
        }
      } else if EndsWith(line, '.') {
        sentence := sentence + line;
        sentences := sentences + [sentence];
        sentence := "";
      } else {
        sentence := sentence + line;
        if inCodeBlock {
          sentence := sentence + "\n";
        } else {
          sentence := sentence + " ";
        }
      }
      assert State(sentences, sentence, inCodeBlock, inPreamble) == Step(before, line);
      i := i + 1;
    }
  }
}
