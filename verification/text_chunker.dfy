/** Text chunking (backend/main/chunker/text_chunker.py): normalise the text, split it with
    a recursive character splitter, drop blank pieces, then merge headings with the list
    items that follow them and join truncated lists back together.

    The splitter (langchain's `RecursiveCharacterTextSplitter`) is the parameter `split`.
    The three regular-expression rewrites in the middle of `prepare_for_chunking` (code
    spacing, breaks before bullets and before numbered items) are the parameter `rewrite`. */
module TextChunker {
  import opened PyStr

  // ---------------------------------------------------------------------------------
  // prepare_for_chunking

  /** `re.sub(r"\n{3,}", "\n\n", s)`: a run of three or more newlines becomes two. */
  function LimitNewlines(s: string): (r: string)
    ensures s == [] <==> r == []
    ensures s != [] ==> (r[0] == '\n' <==> s[0] == '\n')
    decreases |s|
  {
    if s == [] then []
    else if s[0] == '\n' then
      var n := RunLength(s, IsNewline);
      (if n >= 3 then "\n\n" else s[..n]) + LimitNewlines(s[n..])
    else [s[0]] + LimitNewlines(s[1..])
  }

  /** No three newlines in a row. */
  predicate NoTripleNewline(s: string) {
    forall i :: 0 <= i && i + 2 < |s| ==> !(s[i] == '\n' && s[i + 1] == '\n' && s[i + 2] == '\n')
  }

  /** The text as `prepare_for_chunking` leaves it. */
  function PrepareForChunking(text: string, rewrite: string -> string): (r: string)
    ensures r == [] || (!IsSpace(r[0]) && !IsSpace(r[|r| - 1]))
  {
    var unified := Replace(Replace(text, "\r\n", "\n"), "\r", "\n");
    Strip(LimitNewlines(CollapseBlanks(rewrite(unified))))
  }

  /** The rewrites in the middle only insert line breaks and spaces and drop whitespace:
      they never bring back a carriage return. */
  ghost predicate KeepsOutCarriageReturns(rewrite: string -> string) {
    forall s :: '\r' !in s ==> '\r' !in rewrite(s)
  }

  lemma {:induction false} ReplaceRemovesChar(s: string, rep: string)
    requires '\r' !in rep
    ensures '\r' !in Replace(s, "\r", rep)
    decreases |s|
  {
    if |s| >= 1 {
      if s[..1] == "\r" {
        ReplaceRemovesChar(s[1..], rep);
      } else {
        assert s[0] != '\r';
        ReplaceRemovesChar(s[1..], rep);
      }
    }
  }

  lemma {:induction false} LimitNewlinesAddsOnlyNewlines(s: string)
    ensures forall c :: c in LimitNewlines(s) ==> c in s || c == '\n'
    decreases |s|
  {
    if s != [] {
      if s[0] == '\n' {
        var n := RunLength(s, IsNewline);
        LimitNewlinesAddsOnlyNewlines(s[n..]);
      } else {
        LimitNewlinesAddsOnlyNewlines(s[1..]);
      }
    }
  }

  /** Blank runs stay collapsed when newline runs are shortened. */
  lemma {:induction false} LimitNewlinesKeepsBlanksCollapsed(s: string)
    requires RunsCollapsed(s, IsBlankChar)
    ensures RunsCollapsed(LimitNewlines(s), IsBlankChar)
    decreases |s|
  {
    if s != [] {
      if s[0] == '\n' {
        var n := RunLength(s, IsNewline);
        var head := if n >= 3 then "\n\n" else s[..n];
        var rest := LimitNewlines(s[n..]);
        assert RunsCollapsed(s[n..], IsBlankChar) by {
          forall i | 0 <= i < |s[n..]| && IsBlankChar(s[n..][i])
            ensures s[n..][i] == ' ' && (i + 1 == |s[n..]| || !IsBlankChar(s[n..][i + 1]))
          {
            assert s[n..][i] == s[n + i];
          }
        }
        LimitNewlinesKeepsBlanksCollapsed(s[n..]);
        assert forall i :: 0 <= i < |head| ==> head[i] == '\n';
        assert LimitNewlines(s) == head + rest;
      } else {
        var rest := LimitNewlines(s[1..]);
        assert RunsCollapsed(s[1..], IsBlankChar) by {
          forall i | 0 <= i < |s[1..]| && IsBlankChar(s[1..][i])
            ensures s[1..][i] == ' ' && (i + 1 == |s[1..]| || !IsBlankChar(s[1..][i + 1]))
          {
            assert s[1..][i] == s[i + 1];
          }
        }
        LimitNewlinesKeepsBlanksCollapsed(s[1..]);
        if IsBlankChar(s[0]) && |s| > 1 {
          assert !IsBlankChar(s[1]);
          if s[1] == '\n' {
            assert rest[0] == '\n';
          } else {
            assert rest[0] == s[1];
          }
        }
        assert LimitNewlines(s) == [s[0]] + rest;
      }
    }
  }

  /** After shortening, no newline run is longer than two. */
  lemma {:induction false} LimitNewlinesLimits(s: string)
    ensures NoTripleNewline(LimitNewlines(s))
    decreases |s|
  {
    if s != [] {
      if s[0] == '\n' {
        var n := RunLength(s, IsNewline);
        var head := if n >= 3 then "\n\n" else s[..n];
        var rest := LimitNewlines(s[n..]);
        LimitNewlinesLimits(s[n..]);
        assert rest != [] ==> rest[0] != '\n';
        NoTripleJoin(head, rest);
      } else {
        LimitNewlinesLimits(s[1..]);
        NoTripleCons(s[0], LimitNewlines(s[1..]));
      }
    }
  }

  /** At most two characters before a text with no triple newline that does not start
      with a newline make no triple newline. */
  lemma NoTripleJoin(head: string, rest: string)
    requires |head| <= 2 && NoTripleNewline(rest) && (rest != [] ==> rest[0] != '\n')
    ensures NoTripleNewline(head + rest)
  {
    var r := head + rest;
    forall i | 0 <= i && i + 2 < |r| ensures !(r[i] == '\n' && r[i + 1] == '\n' && r[i + 2] == '\n') {
      if i + 2 >= |head| {
        if i >= |head| {
          assert r[i..i + 3] == rest[i - |head|..i - |head| + 3];
        } else {
          assert r[|head|] == rest[0];
        }
      }
    }
  }

  /** A character other than a newline before a text with no triple newline makes
      none. */
  lemma NoTripleCons(c: char, rest: string)
    requires NoTripleNewline(rest) && c != '\n'
    ensures NoTripleNewline([c] + rest)
  {
    var r := [c] + rest;
    forall i | 0 < i && i + 2 < |r| ensures !(r[i] == '\n' && r[i + 1] == '\n' && r[i + 2] == '\n') {
      assert r[i] == rest[i - 1] && r[i + 1] == rest[i] && r[i + 2] == rest[i + 1];
    }
  }

  /** The shape `prepare_for_chunking` promises, apart from the ends. */
  ghost predicate Normalised(s: string) {
    '\r' !in s && RunsCollapsed(s, IsBlankChar) && NoTripleNewline(s)
  }

  /** Any contiguous part of a normalised text is normalised. */
  lemma SliceKeepsNormalised(s: string, a: nat, b: nat)
    requires a <= b <= |s| && Normalised(s)
    ensures Normalised(s[a..b])
  {
    var r := s[a..b];
    assert '\r' !in r by {
      forall k | 0 <= k < |r| ensures r[k] != '\r' {
        assert r[k] == s[a + k];
      }
    }
    forall k | 0 <= k < |r| && IsBlankChar(r[k]) ensures r[k] == ' ' && (k + 1 == |r| || !IsBlankChar(r[k + 1])) {
      assert r[k] == s[a + k];
      if k + 1 < |r| {
        assert r[k + 1] == s[a + k + 1];
      }
    }
    forall k | 0 <= k && k + 2 < |r| ensures !(r[k] == '\n' && r[k + 1] == '\n' && r[k + 2] == '\n') {
      assert r[k] == s[a + k] && r[k + 1] == s[a + k + 1] && r[k + 2] == s[a + k + 2];
    }
  }

  /** Stripping keeps a normalised text normalised. */
  lemma StripKeepsNormalised(s: string)
    requires Normalised(s)
    ensures Normalised(Strip(s))
  {
    var a, b := StripIsSlice(s);
    SliceKeepsNormalised(s, a, b);
  }

  /** Collapsing blanks and then newline runs normalises any text without carriage returns. */
  lemma CollapsedIsNormalised(s: string)
    requires '\r' !in s
    ensures Normalised(LimitNewlines(CollapseBlanks(s)))
  {
    var blanks := CollapseBlanks(s);
    CollapseRunsAddsOnlySpaces(s, IsBlankChar);
    CollapseRunsCollapsed(s, IsBlankChar);
    LimitNewlinesAddsOnlyNewlines(blanks);
    LimitNewlinesKeepsBlanksCollapsed(blanks);
    LimitNewlinesLimits(blanks);
  }

  /** In a normalised text, no tab survives and no two spaces stand together. */
  lemma NormalisedHasSingleSpaces(r: string)
    requires Normalised(r)
    ensures '\t' !in r
    ensures forall i :: 0 <= i && i + 1 < |r| ==> !(r[i] == ' ' && r[i + 1] == ' ')
  {
    assert RunsCollapsed(r, IsBlankChar);
  }

  /** What `prepare_for_chunking` guarantees: no carriage return (given rewrites that
      bring none back), no tab, no two spaces in a row, no three newlines in a row, and no
      whitespace at either end. */
  lemma PreparedTextShape(text: string, rewrite: string -> string)
    requires KeepsOutCarriageReturns(rewrite)
    ensures var r := PrepareForChunking(text, rewrite);
      '\r' !in r && '\t' !in r && NoTripleNewline(r) &&
      (forall i :: 0 <= i && i + 1 < |r| ==> !(r[i] == ' ' && r[i + 1] == ' ')) &&
      (r == [] || (!IsSpace(r[0]) && !IsSpace(r[|r| - 1])))
  {
    var once := Replace(text, "\r\n", "\n");
    ReplaceRemovesChar(once, "\n");
    var rewritten := rewrite(Replace(once, "\r", "\n"));
    CollapsedIsNormalised(rewritten);
    var limited := LimitNewlines(CollapseBlanks(rewritten));
    StripKeepsNormalised(limited);
    NormalisedHasSingleSpaces(Strip(limited));
  }

  // ---------------------------------------------------------------------------------
  // merge_heading_with_following_list

  /** `re.match(r"^([•\-–•]|\d+\.)", s)`: a bullet, a hyphen, an en dash, or digits
      followed by a full stop. */
  predicate IsListStart(s: string) {
    s != [] &&
    (s[0] == '\U{2022}' || s[0] == '-' || s[0] == '\U{2013}' ||
     (var n := RunLength(s, IsAsciiDigit); 0 < n < |s| && s[n] == '.'))
  }

  /** `re.search(r"[.:;]", s)` */
  predicate HasStop(s: string) {
    '.' in s || ':' in s || ';' in s
  }

  /** Every character is a capital, a digit, a space, '.', '/' or '-'. */
  predicate CapsTail(s: string) {
    s == [] || ((IsAsciiUpper(s[0]) || IsAsciiDigit(s[0]) || s[0] in " ./-") && CapsTail(s[1..]))
  }

  /** `re.match(r"^[A-Z][A-Z0-9 ./\-]{2,40}$", s)` for a string without a newline. */
  predicate IsCapsHeading(s: string) {
    3 <= |s| <= 41 && IsAsciiUpper(s[0]) && CapsTail(s[1..])
  }

  /** A single line that is in capitals or has at most five words. */
  predicate IsHeading(chunk: string) {
    var lines := SplitLines(chunk);
    |lines| == 1 && (IsCapsHeading(Strip(lines[0])) || WordCount(lines[0]) <= 5)
  }

  /** `any(re.match(r"^([•\-–•]|\d+\.)", l.strip()) for l in lines)` */
  predicate SomeListLine(lines: seq<string>) {
    lines != [] && (IsListStart(Strip(lines[0])) || SomeListLine(lines[1..]))
  }

  /** `len(l.strip().split()) <= 8 and not re.search(r"[.:;]", l)` */
  predicate ShortLine(l: string) {
    WordCount(Strip(l)) <= 8 && !HasStop(l)
  }

  /** `all(...)` of ShortLine over the lines. */
  predicate AllShortLines(lines: seq<string>) {
    lines == [] || (ShortLine(lines[0]) && AllShortLines(lines[1..]))
  }

  /** Some line starts a list item, or every line is short and has no stop. */
  predicate LooksLikeList(chunk: string) {
    var lines := SplitLines(chunk);
    SomeListLine(lines) || AllShortLines(lines)
  }

  /** What a heading takes in: a list item, or a short chunk with no stop. */
  predicate Absorbable(next: string) {
    IsListStart(next) || (WordCount(next) <= 8 && !HasStop(next))
  }

  /** `chunk.endswith((".", ":", ";"))` */
  predicate EndsWithStop(chunk: string) {
    EndsWith(chunk, ".") || EndsWith(chunk, ":") || EndsWith(chunk, ";")
  }

  /** Some text, with no whitespace at either end: what a non-blank chunk is once stripped. */
  predicate Trimmed(s: string) {
    s != [] && !IsSpace(s[0]) && !IsSpace(s[|s| - 1])
  }

  /** Every chunk, stripped. */
  function StripAll(chunks: seq<string>): (r: seq<string>)
    ensures |r| == |chunks| && forall k :: 0 <= k < |chunks| ==> r[k] == Strip(chunks[k])
  {
    seq(|chunks|, k requires 0 <= k < |chunks| => Strip(chunks[k]))
  }

  // The functions below take the chunks already stripped, as the loop uses them.

  /** Where a heading's run ends: at the first chunk from `j` on that it cannot take in. */
  function HeadingEnd(trimmed: seq<string>, j: nat): (e: nat)
    requires j <= |trimmed|
    ensures j <= e <= |trimmed|
    decreases |trimmed| - j
  {
    if j == |trimmed| || !Absorbable(trimmed[j]) then j else HeadingEnd(trimmed, j + 1)
  }

  lemma HeadingEndStep(trimmed: seq<string>, j: nat)
    requires j < |trimmed| && Absorbable(trimmed[j])
    ensures HeadingEnd(trimmed, j) == HeadingEnd(trimmed, j + 1)
  {
  }

  lemma HeadingEndHere(trimmed: seq<string>, j: nat)
    requires j <= |trimmed| && (j == |trimmed| || !Absorbable(trimmed[j]))
    ensures HeadingEnd(trimmed, j) == j
  {
  }

  /** A heading's run takes in every chunk up to its end and stops at one it cannot. */
  lemma {:induction false} HeadingEndStops(trimmed: seq<string>, j: nat)
    requires j <= |trimmed|
    ensures forall k :: j <= k < HeadingEnd(trimmed, j) ==> Absorbable(trimmed[k])
    ensures HeadingEnd(trimmed, j) < |trimmed| ==> !Absorbable(trimmed[HeadingEnd(trimmed, j)])
    decreases |trimmed| - j
  {
    if j < |trimmed| && Absorbable(trimmed[j]) {
      HeadingEndStops(trimmed, j + 1);
    }
  }

  /** Where the run starting at chunk `i` ends. */
  function RunEnd(trimmed: seq<string>, i: nat): (e: nat)
    requires i < |trimmed|
    ensures i < e <= |trimmed|
  {
    var chunk := trimmed[i];
    if IsHeading(chunk) then HeadingEnd(trimmed, i + 1)
    else if LooksLikeList(chunk) && i + 1 < |trimmed| && !EndsWithStop(chunk) && IsListStart(trimmed[i + 1])
    then i + 2
    else i + 1
  }

  /** The merge rules: a heading takes in every absorbable chunk after it and stops at
      the first one it cannot take in; any other chunk takes in at most one more, and
      does so exactly when it looks like a list, does not end in a stop, and the next
      chunk starts a list item. */
  lemma RunRules(trimmed: seq<string>, i: nat)
    requires i < |trimmed|
    ensures var e := RunEnd(trimmed, i);
      (IsHeading(trimmed[i]) ==>
        (forall k :: i < k < e ==> Absorbable(trimmed[k])) &&
        (e < |trimmed| ==> !Absorbable(trimmed[e]))) &&
      (!IsHeading(trimmed[i]) ==> e <= i + 2 && (e == i + 2 <==>
        LooksLikeList(trimmed[i]) && i + 1 < |trimmed| && !EndsWithStop(trimmed[i]) &&
        IsListStart(trimmed[i + 1])))
  {
    if IsHeading(trimmed[i]) {
      HeadingEndStops(trimmed, i + 1);
    }
  }

  /** The merged chunks from chunk `i` on: each run's chunks joined by newlines. */
  function MergeFrom(trimmed: seq<string>, i: nat): (r: seq<string>)
    requires i <= |trimmed|
    ensures |r| <= |trimmed| - i
    ensures i == |trimmed| <==> r == []
    decreases |trimmed| - i
  {
    if i == |trimmed| then []
    else
      var e := RunEnd(trimmed, i);
      [Join("\n", trimmed[i..e])] + MergeFrom(trimmed, e)
  }

  /** The boundaries of the runs from chunk `i` on: each merged chunk is the join of the
      chunks between two consecutive boundaries, the boundaries rise strictly, and they
      run from `i` to the end, so the runs partition the input in order. */
  function RunBounds(trimmed: seq<string>, i: nat): (b: seq<nat>)
    requires i <= |trimmed|
    ensures |b| == |MergeFrom(trimmed, i)| + 1
    ensures b[0] == i && b[|b| - 1] == |trimmed|
    ensures forall k :: 0 <= k < |b| - 1 ==> b[k] < b[k + 1]
    ensures forall k :: 0 <= k < |b| ==> b[k] <= |trimmed|
    ensures forall k :: 0 <= k < |b| - 1 ==> MergeFrom(trimmed, i)[k] == Join("\n", trimmed[b[k]..b[k + 1]])
    decreases |trimmed| - i
  {
    if i == |trimmed| then [i]
    else
      var e := RunEnd(trimmed, i);
      var rest := RunBounds(trimmed, e);
      assert forall k :: 1 <= k < |rest| ==> rest[k - 1] < rest[k];
      [i] + rest
  }

  lemma JoinExtend(trimmed: seq<string>, i: nat, j: nat)
    requires i < j < |trimmed|
    ensures Join("\n", trimmed[i..j + 1]) == Join("\n", trimmed[i..j]) + "\n" + trimmed[j]
  {
    assert trimmed[i..j + 1] == trimmed[i..j] + [trimmed[j]];
    JoinAppend("\n", trimmed[i..j], trimmed[j]);
  }

  lemma MergeFromUnfold(done: seq<string>, trimmed: seq<string>, i: nat, e: nat)
    requires i < |trimmed| && e == RunEnd(trimmed, i)
    ensures done + MergeFrom(trimmed, i) == (done + [Join("\n", trimmed[i..e])]) + MergeFrom(trimmed, e)
  {
    assert MergeFrom(trimmed, i) == [Join("\n", trimmed[i..e])] + MergeFrom(trimmed, e);
  }

  /** Taking in chunk `j` extends the run's text and leaves its end where it was. */
  lemma AbsorbStep(chunks: seq<string>, i: nat, j: nat)
    requires i < j < |chunks| && Absorbable(Strip(chunks[j]))
    ensures HeadingEnd(StripAll(chunks), j) == HeadingEnd(StripAll(chunks), j + 1)
    ensures Join("\n", StripAll(chunks)[i..j + 1]) == Join("\n", StripAll(chunks)[i..j]) + "\n" + Strip(chunks[j])
  {
    HeadingEndStep(StripAll(chunks), j);
    JoinExtend(StripAll(chunks), i, j);
  }

  /** A run of one chunk is that chunk, stripped. */
  lemma AbsorbStart(chunks: seq<string>, i: nat)
    requires i < |chunks|
    ensures Join("\n", StripAll(chunks)[i..i + 1]) == Strip(chunks[i])
  {
    var one := StripAll(chunks)[i..i + 1];
    assert |one| == 1 && one[0] == Strip(chunks[i]);
  }

  /** A chunk that cannot be taken in, or the end of the list, ends the run. */
  lemma AbsorbStop(chunks: seq<string>, j: nat)
    requires j <= |chunks| && (j == |chunks| || !Absorbable(Strip(chunks[j])))
    ensures HeadingEnd(StripAll(chunks), j) == j
  {
    HeadingEndHere(StripAll(chunks), j);
  }

  /** The inner loop of `merge_heading_with_following_list`: a heading at `i` takes in the
      chunks after it while they are absorbable. */
  method AbsorbAfterHeading(chunks: seq<string>, i: nat) returns (mergedChunk: string, j: nat)
    requires i < |chunks|
    ensures j == HeadingEnd(StripAll(chunks), i + 1)
    ensures mergedChunk == Join("\n", StripAll(chunks)[i..j])
  {
    mergedChunk := Strip(chunks[i]);
    j := i + 1;
    AbsorbStart(chunks, i);
    while j < |chunks|
      invariant i + 1 <= j <= |chunks|
      invariant mergedChunk == Join("\n", StripAll(chunks)[i..j])
      invariant HeadingEnd(StripAll(chunks), j) == HeadingEnd(StripAll(chunks), i + 1)
      decreases |chunks| - j
    {
      var nextChunk := Strip(chunks[j]);
      if Absorbable(nextChunk) {
        AbsorbStep(chunks, i, j);
        mergedChunk := mergedChunk + "\n" + nextChunk;
        j := j + 1;
      } else {
        break;
      }
    }
    AbsorbStop(chunks, j);
  }

  /** One pass of the loop in `merge_heading_with_following_list`: the chunk merged at
      position `i` and the position the loop moves on to. */
  method MergeRunAt(chunks: seq<string>, i: nat) returns (mergedChunk: string, next: nat)
    requires i < |chunks|
    ensures next == RunEnd(StripAll(chunks), i)
    ensures mergedChunk == Join("\n", StripAll(chunks)[i..next])
  {
    ghost var trimmed := StripAll(chunks);
    var chunk := Strip(chunks[i]);
    mergedChunk := chunk;
    var mergedCount := 0;
    var j := i + 1;
    assert trimmed[i..j] == [chunk];
    if IsHeading(chunk) {
      mergedChunk, j := AbsorbAfterHeading(chunks, i);
      mergedCount := j - i - 1;
    } else if LooksLikeList(chunk) && j < |chunks| {
      var nextChunk := Strip(chunks[j]);
      if !EndsWithStop(chunk) && IsListStart(nextChunk) {
        JoinExtend(trimmed, i, j);
        mergedChunk := mergedChunk + "\n" + nextChunk;
        mergedCount := mergedCount + 1;
        j := j + 1;
      }
    }
    next := if mergedCount > 0 then j else i + 1;
  }

  /** `merge_heading_with_following_list` */
  method MergeHeadingWithFollowingList(chunks: seq<string>) returns (merged: seq<string>)
    ensures merged == MergeFrom(StripAll(chunks), 0)
    ensures |merged| <= |chunks|
  {
    ghost var trimmed := StripAll(chunks);
    merged := [];
    var i := 0;
    while i < |chunks|
      invariant 0 <= i <= |chunks|
      invariant merged + MergeFrom(trimmed, i) == MergeFrom(trimmed, 0)
      decreases |chunks| - i
    {
      var mergedChunk, next := MergeRunAt(chunks, i);
      MergeFromUnfold(merged, trimmed, i, next);
      merged := merged + [mergedChunk];
      i := next;
    }
  }

  /** Merging loses and reorders nothing: the merged chunks, joined by newlines, are the
      input chunks joined by newlines. */
  lemma {:induction false} MergeKeepsText(trimmed: seq<string>, i: nat)
    requires i <= |trimmed|
    ensures Join("\n", MergeFrom(trimmed, i)) == Join("\n", trimmed[i..])
    decreases |trimmed| - i
  {
    if i < |trimmed| {
      var e := RunEnd(trimmed, i);
      var rest := MergeFrom(trimmed, e);
      assert MergeFrom(trimmed, i) == [Join("\n", trimmed[i..e])] + rest;
      if e < |trimmed| {
        MergeKeepsText(trimmed, e);
      }
      JoinRunThenRest(trimmed, i, e, rest);
    }
  }

  /** The join of a run's join followed by the rest's merged chunks, when those join to the
      chunks after the run (or are none, at the end). */
  lemma JoinRunThenRest(trimmed: seq<string>, i: nat, e: nat, rest: seq<string>)
    requires i < e <= |trimmed|
    requires e == |trimmed| ==> rest == []
    requires e < |trimmed| ==> rest != [] && Join("\n", rest) == Join("\n", trimmed[e..])
    ensures Join("\n", [Join("\n", trimmed[i..e])] + rest) == Join("\n", trimmed[i..])
  {
    var run := trimmed[i..e];
    JoinCons("\n", Join("\n", run), rest);
    if e == |trimmed| {
      assert run == trimmed[i..];
    } else {
      JoinConcat("\n", run, trimmed[e..]);
      assert run + trimmed[e..] == trimmed[i..];
    }
  }

  /** A run of trimmed chunks joins to a trimmed chunk. */
  lemma RunJoinTrimmed(trimmed: seq<string>, i: nat, e: nat)
    requires i < e <= |trimmed|
    requires forall k :: 0 <= k < |trimmed| ==> Trimmed(trimmed[k])
    ensures Trimmed(Join("\n", trimmed[i..e]))
  {
    var parts := trimmed[i..e];
    JoinEnds("\n", parts);
    var first := parts[0];
    var last := parts[|parts| - 1];
    var c := Join("\n", parts);
    assert Trimmed(first) && Trimmed(last);
    assert c[0] == first[0];
    assert c[|c| - 1] == last[|last| - 1];
  }

  /** A merged chunk of trimmed chunks is itself trimmed. */
  lemma {:induction false} MergedChunksAreTrimmed(trimmed: seq<string>, i: nat)
    requires i <= |trimmed|
    requires forall k :: 0 <= k < |trimmed| ==> Trimmed(trimmed[k])
    ensures forall c :: c in MergeFrom(trimmed, i) ==> Trimmed(c)
    decreases |trimmed| - i
  {
    if i < |trimmed| {
      var e := RunEnd(trimmed, i);
      RunJoinTrimmed(trimmed, i, e);
      MergedChunksAreTrimmed(trimmed, e);
      assert MergeFrom(trimmed, i) == [Join("\n", trimmed[i..e])] + MergeFrom(trimmed, e);
    }
  }

  // ---------------------------------------------------------------------------------
  // chunk_text

  /** `[c.strip() for c in pieces if c.strip()]` */
  function NonBlankPieces(pieces: seq<string>): (r: seq<string>)
    ensures |r| <= |pieces|
    ensures forall k :: 0 <= k < |r| ==> Trimmed(r[k])
  {
    if pieces == [] then []
    else
      var last := pieces[|pieces| - 1];
      NonBlankPieces(pieces[..|pieces| - 1]) + (if IsBlank(last) then [] else [Strip(last)])
  }

  /** The pieces `chunk_text` hands to the merge are their own stripped forms. */
  lemma PiecesStayAsTheyAre(pieces: seq<string>)
    ensures StripAll(NonBlankPieces(pieces)) == NonBlankPieces(pieces)
  {
    var r := NonBlankPieces(pieces);
    forall k | 0 <= k < |r| ensures Strip(r[k]) == r[k] {
      StripOfStripped(r[k]);
    }
  }

  /** `chunk_text(text)`: the merged, non-blank pieces of the prepared text. Every chunk
      has text and no whitespace at either end. */
  function ChunkText(text: string, rewrite: string -> string, split: string -> seq<string>): (r: seq<string>)
    ensures forall c :: c in r ==> Trimmed(c)
  {
    var pieces := NonBlankPieces(split(PrepareForChunking(text, rewrite)));
    PiecesStayAsTheyAre(split(PrepareForChunking(text, rewrite)));
    MergedChunksAreTrimmed(pieces, 0);
    MergeFrom(StripAll(pieces), 0)
  }

  /** Empty text gives no chunks, given a splitter that gives nothing for empty text and
      rewrites that leave empty text empty. */
  lemma EmptyTextHasNoChunks(rewrite: string -> string, split: string -> seq<string>)
    requires rewrite("") == "" && split("") == []
    ensures ChunkText("", rewrite, split) == []
  {
    assert Replace("", "\r\n", "\n") == "";
    assert Replace("", "\r", "\n") == "";
    assert CollapseBlanks("") == "";
    assert PrepareForChunking("", rewrite) == "";
  }

  lemma OnePieceKept(p: string)
    requires Trimmed(p)
    ensures NonBlankPieces([p]) == [p]
  {
    StripOfStripped(p);
    assert [p][..0] == [];
  }

  lemma OnePieceStripped(p: string)
    requires Trimmed(p)
    ensures StripAll([p]) == [p]
  {
    StripOfStripped(p);
  }

  lemma OnePieceMerged(p: string)
    ensures MergeFrom([p], 0) == [p]
  {
    assert RunEnd([p], 0) == 1;
    assert [p][0..1] == [p];
  }

  /** A single piece with text and no whitespace at either end merges into itself. */
  lemma OneTrimmedPiece(p: string)
    requires Trimmed(p)
    ensures MergeFrom(StripAll(NonBlankPieces([p])), 0) == [p]
  {
    OnePieceKept(p);
    OnePieceStripped(p);
    OnePieceMerged(p);
  }

  /** Text the splitter leaves whole comes back as the one chunk it is. */
  lemma ShortTextIsOneChunk(text: string, rewrite: string -> string, split: string -> seq<string>)
    requires PrepareForChunking(text, rewrite) != ""
    requires split(PrepareForChunking(text, rewrite)) == [PrepareForChunking(text, rewrite)]
    ensures ChunkText(text, rewrite, split) == [PrepareForChunking(text, rewrite)]
  {
    OneTrimmedPiece(PrepareForChunking(text, rewrite));
  }
}
