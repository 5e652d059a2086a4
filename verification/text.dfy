/** The few operations on Rust string slices that the sentence extractor
    relies on: `contains`, `starts_with`, `ends_with`, `split` on a string
    pattern and `lines`. Strings are sequences of characters; every marker
    the extractor looks for is ASCII, so bytes and characters coincide. */
module Text {

  datatype Option<+T> = None | Some(value: T)

  /** `p` occurs in `s` starting at index `i`. */
  predicate OccursAt(s: string, p: string, i: int)
  {
    0 <= i && i + |p| <= |s| && s[i..i + |p|] == p
  }

  /** `str::contains` with a string pattern. */
  predicate Contains(s: string, p: string)
  {
    exists i | 0 <= i <= |s| - |p| :: OccursAt(s, p, i)
  }

  /** `str::starts_with` with a string pattern. */
  predicate StartsWith(s: string, p: string)
  {
    |p| <= |s| && s[..|p|] == p
  }

  /** `str::ends_with` with a character pattern. */
  predicate EndsWith(s: string, c: char)
  {
    |s| > 0 && s[|s| - 1] == c
  }

  lemma StartsWithHead(s: string, p: string)
    requires StartsWith(s, p) && |p| > 0
    ensures |s| > 0 && s[0] == p[0]
  {
    assert s[..|p|][0] == s[0];
  }

  /** A one-character pattern occurs exactly where that character sits. */
  lemma CharOccurs(s: string, c: char, k: int)
    requires 0 <= k < |s|
    ensures OccursAt(s, [c], k) <==> s[k] == c
  {
    assert s[k..k + 1] == [s[k]];
  }

  /** The leftmost occurrence of `p` in `s` at or after `from`, if any. */
  function FindFrom(s: string, p: string, from: nat): (r: Option<nat>)
    ensures r.Some? ==> from <= r.value && OccursAt(s, p, r.value)
    ensures r.Some? ==> forall j :: from <= j < r.value ==> !OccursAt(s, p, j)
    ensures r.None? ==> forall j :: from <= j ==> !OccursAt(s, p, j)
    decreases |s| - from
  {
    if OccursAt(s, p, from) then Some(from)
    else if |s| <= from + |p| then None
    else FindFrom(s, p, from + 1)
  }

  /** An occurrence with none before it is the one the search finds. */
  lemma FindFromFirst(s: string, p: string, i: nat)
    requires OccursAt(s, p, i)
    requires forall j :: 0 <= j < i ==> !OccursAt(s, p, j)
    ensures FindFrom(s, p, 0) == Some(i)
  {
  }

  /** `str::split` with a non-empty string pattern: the pieces between
      the leftmost non-overlapping occurrences of `sep`, scanning left to
      right. There is always at least one piece, and more than one exactly
      when `sep` occurs in `s`. */
  function Split(s: string, sep: string): (parts: seq<string>)
    requires sep != []
    ensures |parts| >= 1
    decreases |s|
  {
    match FindFrom(s, sep, 0)
    case None => [s]
    case Some(i) => [s[..i]] + Split(s[i + |sep|..], sep)
  }

  /** The split has more than one piece exactly when `sep` occurs. */
  lemma SplitsIffContains(s: string, sep: string)
    requires sep != []
    ensures |Split(s, sep)| > 1 <==> Contains(s, sep)
  {
    match FindFrom(s, sep, 0)
    case None =>
    case Some(i) =>
      assert Split(s, sep) == [s[..i]] + Split(s[i + |sep|..], sep);
  }

  /** The inverse of `Split`: the pieces glued back with `sep`. */
  function Join(parts: seq<string>, sep: string): string
  {
    if |parts| == 0 then ""
    else if |parts| == 1 then parts[0]
    else parts[0] + sep + Join(parts[1..], sep)
  }

  /** Splitting loses nothing: joining the pieces gives back the input. */
  lemma {:induction false} SplitJoin(s: string, sep: string)
    requires sep != []
    ensures Join(Split(s, sep), sep) == s
    decreases |s|
  {
    match FindFrom(s, sep, 0)
    case None =>
    case Some(i) =>
      var rest := s[i + |sep|..];
      var tail := Split(rest, sep);
      SplitJoin(rest, sep);
      var parts := [s[..i]] + tail;
      assert Split(s, sep) == parts;
      assert |tail| >= 1 && parts[1..] == tail;
      assert Join(parts, sep) == s[..i] + sep + Join(tail, sep);
      assert s[i..i + |sep|] == sep;
      assert s[..i + |sep|] == s[..i] + sep;
      assert s == s[..i + |sep|] + rest;
  }

  /** No piece of a split contains the separator. */
  lemma {:induction false} SplitPiecesAreFree(s: string, sep: string)
    requires sep != []
    ensures forall k :: 0 <= k < |Split(s, sep)| ==> !Contains(Split(s, sep)[k], sep)
    decreases |s|
  {
    match FindFrom(s, sep, 0)
    case None =>
    case Some(i) =>
      var rest := s[i + |sep|..];
      SplitPiecesAreFree(rest, sep);
      var head := s[..i];
      forall j | 0 <= j <= |head| - |sep|
        ensures !OccursAt(head, sep, j)
      {
        assert j < i;
        if OccursAt(head, sep, j) {
          assert head[j..j + |sep|] == s[j..j + |sep|];
          assert OccursAt(s, sep, j);
        }
      }
      assert Split(s, sep) == [head] + Split(rest, sep);
  }

  /** Drops one `'\r'` ending a line that was terminated by `'\n'`. */
  function StripCr(line: string): string
  {
    if EndsWith(line, '\r') then line[..|line| - 1] else line
  }

  /** `str::lines`: the text cut at every `'\n'`; a line that ended in
      `"\r\n"` also loses its `'\r'`; a final `'\n'` does not start an empty
      last line, and empty text has no lines. */
  function Lines(s: string): seq<string>
    decreases |s|
  {
    if s == [] then []
    else match FindFrom(s, "\n", 0)
      case None => [s]
      case Some(i) => [StripCr(s[..i])] + Lines(s[i + 1..])
  }

  /** Lines written out one after another, each terminated by `'\n'`. */
  function Unlines(lines: seq<string>): string
  {
    if lines == [] then "" else lines[0] + "\n" + Unlines(lines[1..])
  }

  /** A line that `Lines` can give back unchanged. */
  predicate IsLine(line: string)
  {
    '\n' !in line && !EndsWith(line, '\r')
  }

  /** No line returned by `Lines` contains a `'\n'`. */
  lemma {:induction false} LinesHaveNoNewline(s: string)
    ensures forall k :: 0 <= k < |Lines(s)| ==> '\n' !in Lines(s)[k]
    decreases |s|
  {
    if s != [] {
      match FindFrom(s, "\n", 0)
      case None =>
        forall k | 0 <= k < |s|
          ensures s[k] != '\n'
        {
          CharOccurs(s, '\n', k);
        }
      case Some(i) =>
        LinesHaveNoNewline(s[i + 1..]);
        forall k | 0 <= k < i
          ensures s[k] != '\n'
        {
          CharOccurs(s, '\n', k);
        }
        assert Lines(s) == [StripCr(s[..i])] + Lines(s[i + 1..]);
    }
  }

  /** Round trip: writing lines out and reading them back with `Lines`
      returns them, as long as none holds a `'\n'` or ends in `'\r'`. */
  lemma {:induction false} LinesUnlines(lines: seq<string>)
    requires forall k :: 0 <= k < |lines| ==> IsLine(lines[k])
    ensures Lines(Unlines(lines)) == lines
    decreases |lines|
  {
    if lines != [] {
      var line := lines[0];
      var rest := Unlines(lines[1..]);
      var s := Unlines(lines);
      assert s == line + "\n" + rest;
      assert IsLine(line);
      CharOccurs(s, '\n', |line|);
      forall j | 0 <= j < |line|
        ensures !OccursAt(s, "\n", j)
      {
        CharOccurs(s, '\n', j);
        assert s[j] == line[j];
      }
      FindFromFirst(s, "\n", |line|);
      assert s[..|line|] == line;
      assert s[|line| + 1..] == rest;
      LinesUnlines(lines[1..]);
    }
  }

  /** Lines written out one after another, each terminated by `"\r\n"`. */
  function UnlinesCrlf(lines: seq<string>): string
  {
    if lines == [] then "" else lines[0] + "\r\n" + UnlinesCrlf(lines[1..])
  }

  /** The first `'\n'` of `s + t` is that of `s` when `s` has one before
      index `i` and none earlier. */
  lemma FirstNewlineOfPrefix(s: string, t: string, i: nat)
    requires i < |s| && s[i] == '\n'
    requires forall j :: 0 <= j < i ==> s[j] != '\n'
    ensures FindFrom(s + t, "\n", 0) == Some(i)
  {
    var u := s + t;
    CharOccurs(u, '\n', i);
    forall j | 0 <= j < i
      ensures !OccursAt(u, "\n", j)
    {
      CharOccurs(u, '\n', j);
      assert u[j] == s[j];
    }
    FindFromFirst(u, "\n", i);
  }

  /** `lines()` reads `"\r\n"` as one line break: lines written with
      Windows line endings come back without their `'\r'`. Only one `'\r'`
      is dropped, so a line may itself end in `'\r'`. */
  lemma {:induction false} LinesUnlinesCrlf(lines: seq<string>)
    requires forall k :: 0 <= k < |lines| ==> '\n' !in lines[k]
    ensures Lines(UnlinesCrlf(lines)) == lines
    decreases |lines|
  {
    if lines != [] {
      var line := lines[0];
      var rest := UnlinesCrlf(lines[1..]);
      var s := UnlinesCrlf(lines);
      var head := line + "\r\n";
      assert s == head + rest;
      assert '\n' !in line;
      FirstNewlineOfPrefix(head, rest, |line| + 1);
      assert s[..|line| + 1] == line + "\r";
      assert StripCr(line + "\r") == line;
      assert s[|line| + 2..] == rest;
      LinesUnlinesCrlf(lines[1..]);
    }
  }

  /** The final `'\n'` is optional: a text that does not already end in a
      line break or a `'\r'` has the same lines with one `'\n'` added. */
  lemma {:induction false} LinesFinalNewlineOptional(s: string)
    requires s != [] && !EndsWith(s, '\n') && !EndsWith(s, '\r')
    ensures Lines(s + "\n") == Lines(s)
    decreases |s|
  {
    var u := s + "\n";
    match FindFrom(s, "\n", 0)
    case None =>
      forall j | 0 <= j < |s|
        ensures s[j] != '\n'
      {
        CharOccurs(s, '\n', j);
      }
      FirstNewlineOfPrefix(u, [], |s|);
      assert u + [] == u;
      assert u[..|s|] == s && u[|s| + 1..] == [];
    case Some(i) =>
      CharOccurs(s, '\n', i);
      forall j | 0 <= j < i
        ensures s[j] != '\n'
      {
        CharOccurs(s, '\n', j);
      }
      FirstNewlineOfPrefix(s, "\n", i);
      var rest := s[i + 1..];
      assert i + 1 < |s|;
      assert rest[|rest| - 1] == s[|s| - 1];
      LinesFinalNewlineOptional(rest);
      assert u[..i] == s[..i];
      assert u[i + 1..] == rest + "\n";
  }
}
