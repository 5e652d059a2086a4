# Markdown sentence extractor, modelled in Dafny

The `sentence_extractor` crate reads blog articles written in Markdown and
cuts each one into sentences. Its one piece of logic is a single-pass state
machine over the lines of an article (`parse_markdown_to_sentences` in
`src/main.rs`, repeated verbatim as the per-article loop of `get_sentences`
in `src/lib.rs`). The machine carries the sentences emitted so far, the
sentence being built, and two modes (inside the front-matter preamble,
inside a code block). Each line goes through these rules, first match wins:

1. an empty line is dropped;
2. a headline (starts with `#`) is dropped;
3. a line starting with `---` flips the preamble mode;
4. inside the preamble every other line is dropped;
5. a line starting with three backticks flips the code-block mode, and when
   it closes a block it emits the pending text as one sentence;
6. outside a code block, a line containing `". "` is split on `". "`: each
   non-empty piece but the last completes a sentence with a `'.'`, and a
   non-empty last piece stays pending followed by a space;
7. a line ending in `'.'` completes the pending sentence;
8. any other line is added to the pending sentence, followed by `'\n'` in a
   code block and by a space elsewhere.

Whatever is still pending after the last line is dropped.

The project has five files:

- `text.dfy` (module `Text`) models the Rust string operations the machine
  uses. `Lines` is `str::lines` and `Split` is `str::split` with a string
  pattern. It also has `Contains`, `StartsWith` and `EndsWith`. Each comes
  with its partner: `Join` undoes `Split`, and `Lines` undoes `Unlines` (and
  `UnlinesCrlf`) for lines without `'\n'` or, for `Unlines`, a final `'\r'`.
- `machine.dfy` (module `SentenceMachine`) holds the immutable `State`, the
  per-line `Step`, the left fold `Run`, and `Parse`, which folds over the
  lines of an article.
- `properties.dfy` (module `SentenceProperties`) states what the machine
  promises, separately from its definition. It covers:
  - the closed form of the split branch;
  - how the fold composes, and that its output only grows;
  - the lines that leave no trace;
  - how each mode evolves;
  - what a code block emits, and how prose lines join into one sentence;
  - which sentences may lack a final `'.'`;
  - the pending tail that is dropped.
- `markdown_parser.dfy` (module `MarkdownParser`) writes
  `parse_markdown_to_sentences` as the loop it is, and proves that it equals
  `Parse`.
- `sentence_extractor.dfy` (module `SentenceExtractor`) writes the parsing
  loop of `get_sentences` the same way, with the line machine repeated
  inside the loop over articles, as in the source. It proves that each
  article's list is `Parse` of that article alone.

Rust details made explicit:

- `str::lines` follows the current standard library. The text is cut after
  every `'\n'`. A line that ended in `"\r\n"` also loses its `'\r'`. A bare
  `'\r'` at the very end of the text is kept. A final `'\n'` does not produce
  an empty last line.
- `str::split(". ")` cuts at the leftmost occurrences, left to right, without
  overlaps. It always gives at least one piece, so `count - 1` cannot
  underflow. `Split` asks for a non-empty separator; the source only ever
  splits on `". "`.
- Each `continue` in the source becomes an `else if` chain.
- Strings are `seq<char>`. Every marker is ASCII, so Rust's byte and char
  views agree on them.

## Model

| member | source | states |
|---|---|---|
| Text.Split | src/main.rs:60-61 | splitting a line always yields at least one piece, which is why `count - 1` cannot underflow |
| Text.SplitsIffContains | src/main.rs:59-61 | a line splits into more than one piece exactly when it contains `". "` |
| Text.SplitJoin | src/main.rs:60 | the pieces, glued back with `". "`, give the original line, so splitting loses no text |
| Text.SplitPiecesAreFree | src/main.rs:60 | no piece of the split contains `". "` |
| Text.LinesHaveNoNewline | src/main.rs:32 | no line produced by `lines()` contains a `'\n'` |
| Text.LinesUnlines | src/main.rs:32 | `lines()` on text written as newline-terminated lines gives those lines back, if none contains `'\n'` or ends in `'\r'` |
| Text.LinesUnlinesCrlf | src/main.rs:32 | `lines()` reads `"\r\n"` as one line break: text written with Windows line endings gives back its lines without the `'\r'`, for any lines without `'\n'` |
| Text.LinesFinalNewlineOptional | src/main.rs:32 | the final `'\n'` is optional: non-empty text not already ending in `'\n'` or `'\r'` has the same lines with or without a final `'\n'` |
| SentenceMachine.SplitParts | src/main.rs:62-74 | the loop over split pieces leaves both modes alone, only appends to the output, and every sentence it appends ends in `'.'` |
| SentenceMachine.Step | src/main.rs:33-88 | one line only extends the output. The preamble mode flips exactly on a `---` line. The code-block mode flips exactly on a fence line outside the preamble. A closing fence emits the pending text as exactly one sentence and clears it. Every other line emits only sentences that end in `'.'` |
| SentenceMachine.Run | src/main.rs:32-89 | the output after more lines extends the output before them |
| SentenceProperties.SplitPartsOutcome | src/main.rs:59-76 | closed form of the split branch: the non-empty pieces before the last are emitted with a `'.'` added, the first one prefixed by the pending text. Empty pieces are skipped. A non-empty last piece plus a space becomes the pending text. If no sentence is emitted, the last piece is added to the pending text instead |
| SentenceProperties.RunAppend | src/main.rs:32-89 | processing lines `a` then lines `b` equals processing `a ++ b`, so the machine depends only on its state, not on history |
| SentenceProperties.OutputOnlyGrows | src/main.rs:52-79 | sentences are only pushed, so the output for some lines is a prefix of the output for those lines followed by more |
| SentenceProperties.DiscardedLineIsInvisible | src/main.rs:33-40 | inserting an empty line or a headline anywhere, even inside a code block or the preamble, changes neither the output nor the final state |
| SentenceProperties.PreambleParity | src/main.rs:41-45 | after any lines, the preamble mode is the starting mode flipped once per line starting with `---`, whatever the code-block mode |
| SentenceProperties.PreambleMarkerOnlyFlips | src/main.rs:41-45 | a line starting with `---` flips the preamble mode and changes nothing else, even inside a code block: no text is kept and nothing is emitted |
| SentenceProperties.PreambleIsInert | src/main.rs:46-48 | while the preamble is open, lines other than `---`, fences included, leave the whole state unchanged |
| SentenceProperties.PreambleBlockIsSkipped | src/main.rs:41-48 | a front-matter block from `---` to `---` contributes nothing and leaves the state as it found it |
| SentenceProperties.CodeLinesAccumulate | src/main.rs:81-87 | inside a code block, code lines not ending in `'.'` are appended to the pending text, each followed by `'\n'`, and nothing is emitted |
| SentenceProperties.CodeBlockIsOneSentence | src/main.rs:49-56 | for a block whose lines are non-empty, are not headlines or markers, and do not end in `'.'`: the opening fence emits nothing, and the closing fence emits exactly one sentence, the text pending before the block followed by each of the block's lines with a `'\n'` after it, and leaves nothing pending. Empty and `#` lines are dropped anywhere (DiscardedLineIsInvisible); a block line ending in `'.'` is CodeLineEndingInDotEmits |
| SentenceProperties.CodeLineEndingInDotEmits | src/main.rs:77-80 | inside a code block, a line ending in `'.'` emits a sentence in the middle of the block: the pending text, the code lines since, each with its `'\n'`, and that line. The block stays open |
| SentenceProperties.ProseLinesAccumulate | src/main.rs:81-87 | outside code blocks and the preamble, non-empty lines without a marker, `". "` or final `'.'` are appended to the pending text, each followed by a space, and nothing is emitted |
| SentenceProperties.WrappedSentence | src/main.rs:77-88 | a sentence wrapped over several prose lines comes out as one sentence: the pending text, the open lines each followed by a space, and the line ending in `'.'`; nothing stays pending |
| SentenceProperties.SplitTailJoinsNextSentence | src/main.rs:59-80 | the non-empty last piece of a split line stays pending with a space after it, even when it ends in `'.'`, after the pending text if the line emitted nothing. It is emitted only together with the next line that ends a sentence |
| SentenceProperties.UnterminatedOnlyFromFences | src/main.rs:50-80 | only closing fences emit sentences without a final `'.'`: there are at most as many such sentences as lines that close a code block when the machine reaches them |
| SentenceProperties.FenceFreeArticleEndsEverySentence | src/main.rs:27-91 | an article without fence lines yields only sentences ending in `'.'` |
| SentenceProperties.ParseUnlines | src/main.rs:27-32 | parsing text made of well-formed lines runs the machine over exactly those lines |
| SentenceProperties.ParseUnlinesCrlf | src/main.rs:27-32 | an article written with `"\r\n"` line endings is parsed as the machine run over its lines without the `'\r'` |
| SentenceProperties.UnfinishedTailIsDropped | src/main.rs:81-90 | text still pending when the article ends is not flushed: an unfinished last line does not change the result |
| SentenceProperties.OneSentenceArticle | src/lib.rs:64-67 | a one-line article ending in `'.'`, with no `". "` and no leading marker, comes out verbatim as the only sentence, with or without a final newline (the shape of the sentence expected at tests/parsing.rs:12) |
| SentenceProperties.SplitLineKeepsItsLastSentencePending | src/main.rs:59-80 | a split line never reaches the `ends_with('.')` rule, so `"A. B.\nC.\n"` gives `["A.", "B. C."]` |
| MarkdownParser.ParseMarkdownToSentences | src/main.rs:27-91 | the loop, with its inner loop over split pieces, returns exactly `Parse(content)` |
| SentenceExtractor.GetSentences | src/lib.rs:17-79 | exactly one list per article, in input order. Each list is `Parse` of that article alone, so the state is reset for every article and nothing pending carries over to the next |

## Left out

- `get_markdown_files` (src/main.rs:3-16) and the directory loop of `get_sentences` (src/lib.rs:4-10): filesystem listing and `OsStr` extension checks. `GetSentences` receives the article contents directly.
- `read_files` (src/main.rs:18-25) and the file-reading loop (src/lib.rs:11-15): file I/O, its error returns and `unwrap` panics.
- `main` (src/main.rs:93-107): a hard-coded path, `expect` panics and printing to standard output.
- The test at tests/parsing.rs:3-7 checks the number of fixture articles. The fixture files are not part of this model, so that count is not stated.
- Text.Split: needs a non-empty separator, because Rust's split on an empty pattern follows different rules. The source only splits on `". "`.
- UTF-8 bytes versus characters: strings are `seq<char>`, and every marker the machine looks for is ASCII.
