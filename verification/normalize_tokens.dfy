/** The code normaliser (backend/main/utils/normalize_tokens.py): a structured code such as
    "E7.2B" is spaced out as "E 7_2 B", then every whitespace run becomes one space and the
    ends are stripped. */
module NormalizeTokens {
  import opened Wrappers
  import opened PyStr

  /** A match of `\b([A-Za-z])(\d+)\.(\d+)([A-Za-z]?)\b`: its four groups and its length. */
  datatype Code = Code(letter: char, major: string, minor: string, suffix: string, len: nat)

  predicate AllDigits(s: string) { forall i :: 0 <= i < |s| ==> IsAsciiDigit(s[i]) }

  /** The groups of a match: a letter, two non-empty digit strings and an optional
      letter. */
  predicate ValidCode(m: Code) {
    IsAsciiLetter(m.letter) && m.major != [] && m.minor != [] && AllDigits(m.major) && AllDigits(m.minor) &&
    (m.suffix == [] || (|m.suffix| == 1 && IsAsciiLetter(m.suffix[0])))
  }

  /** The text a match covers. */
  function CodeText(m: Code): string {
    [m.letter] + m.major + "." + m.minor + m.suffix
  }

  /** `m` is a code that covers exactly its own text at position `i` of `s` and ends at a
      word boundary. */
  predicate CoversAt(s: string, i: nat, m: Code) {
    ValidCode(m) && m.len == |CodeText(m)| && i + m.len <= |s| && s[i..i + m.len] == CodeText(m) &&
    (i + m.len == |s| || !IsWordChar(s[i + m.len]))
  }

  /** The pattern tried at position `i` of `s`. Both digit runs are greedy and only their
      maximal length can be followed by the dot or by a word boundary; the optional letter
      is taken when a word boundary follows it, and otherwise the match needs a boundary
      right after the digits. Word boundaries look at `s` itself. */
  function CodeAt(s: string, i: nat): (m: Option<Code>)
    requires i <= |s|
    ensures m.Some? ==> 0 < m.value.len && i + m.value.len <= |s|
  {
    if i < |s| && IsAsciiLetter(s[i]) && (i == 0 || !IsWordChar(s[i - 1])) then
      var d1 := RunLength(s[i + 1..], IsAsciiDigit);
      var dot := i + 1 + d1;
      if d1 >= 1 && dot < |s| && s[dot] == '.' then CodeAfterDot(s, i, dot) else None
    else None
  }

  /** The rest of the pattern once the letter, the first digits and the dot have matched
      `s[i..dot + 1]`. */
  function CodeAfterDot(s: string, i: nat, dot: nat): (m: Option<Code>)
    requires i < dot < |s|
    ensures m.Some? ==> 0 < m.value.len && i + m.value.len <= |s|
  {
    var d2 := RunLength(s[dot + 1..], IsAsciiDigit);
    var p := dot + 1 + d2;
    if d2 == 0 then None
    else if p < |s| && IsAsciiLetter(s[p]) then
      if p + 1 == |s| || !IsWordChar(s[p + 1]) then Some(Code(s[i], s[i + 1..dot], s[dot + 1..p], [s[p]], p + 1 - i))
      else None
    else if p == |s| || !IsWordChar(s[p]) then Some(Code(s[i], s[i + 1..dot], s[dot + 1..p], [], p - i))
    else None
  }

  /** A match is a code: its groups have the code's shape, it covers exactly their text,
      and a word boundary lies on either side of it. */
  lemma CodeAtIsCode(s: string, i: nat)
    requires i <= |s| && CodeAt(s, i).Some?
    ensures CoversAt(s, i, CodeAt(s, i).value) && (i == 0 || !IsWordChar(s[i - 1]))
  {
    var dot := CodeAtUnfold(s, i);
    CodeAfterDotIsCode(s, i, dot);
  }

  /** A match starts with a letter after a word boundary, then digits and a dot, and the
      rest is what `CodeAfterDot` finds. */
  lemma CodeAtUnfold(s: string, i: nat) returns (dot: nat)
    requires i <= |s| && CodeAt(s, i).Some?
    ensures i + 1 < dot < |s| && IsAsciiLetter(s[i]) && AllDigits(s[i + 1..dot]) && s[dot] == '.'
    ensures i == 0 || !IsWordChar(s[i - 1])
    ensures CodeAt(s, i) == CodeAfterDot(s, i, dot)
  {
    dot := i + 1 + RunLength(s[i + 1..], IsAsciiDigit);
    DigitRun(s, i + 1, dot);
  }

  /** A maximal run of digits is all digits. */
  lemma DigitRun(s: string, a: nat, b: nat)
    requires a <= b <= |s| && b - a == RunLength(s[a..], IsAsciiDigit)
    ensures AllDigits(s[a..b])
  {
    forall k | 0 <= k < b - a ensures IsAsciiDigit(s[a..b][k]) {
      assert s[a..b][k] == s[a..][k];
    }
  }

  /** The text from a letter through two digit runs separated by a dot. */
  lemma TextOfParts(s: string, i: nat, dot: nat, p: nat)
    requires i < dot < p <= |s| && s[dot] == '.'
    ensures s[i..p] == [s[i]] + s[i + 1..dot] + "." + s[dot + 1..p]
  {
    assert s[i..p] == s[i..i + 1] + s[i + 1..dot] + s[dot..dot + 1] + s[dot + 1..p];
  }

  /** What `CodeAfterDot` finds, given a letter and digits before the dot, is a code that
      covers its own text and ends at a word boundary. */
  lemma CodeAfterDotIsCode(s: string, i: nat, dot: nat)
    requires i + 1 < dot < |s| && IsAsciiLetter(s[i]) && AllDigits(s[i + 1..dot]) && s[dot] == '.'
    requires CodeAfterDot(s, i, dot).Some?
    ensures CoversAt(s, i, CodeAfterDot(s, i, dot).value)
  {
    var p := CodeAfterDotUnfold(s, i, dot);
    CodeFromParts(s, i, dot, p, CodeAfterDot(s, i, dot).value);
  }

  /** What `CodeAfterDot` finds, read off `s`: the groups up to the end `p` of the second
      digit run, the optional letter at `p`, and a word boundary after the match. */
  lemma CodeAfterDotUnfold(s: string, i: nat, dot: nat) returns (p: nat)
    requires i < dot < |s| && CodeAfterDot(s, i, dot).Some?
    ensures dot + 1 < p <= |s| && AllDigits(s[dot + 1..p])
    ensures var m := CodeAfterDot(s, i, dot).value;
      m.letter == s[i] && m.major == s[i + 1..dot] && m.minor == s[dot + 1..p] &&
      ((m.suffix == [] && m.len == p - i) ||
       (p < |s| && IsAsciiLetter(s[p]) && m.suffix == [s[p]] && m.len == p + 1 - i)) &&
      (i + m.len == |s| || !IsWordChar(s[i + m.len]))
  {
    p := dot + 1 + RunLength(s[dot + 1..], IsAsciiDigit);
    DigitRun(s, dot + 1, p);
  }

  /** Groups read off `s` around a dot make a code that covers exactly their text. */
  lemma CodeFromParts(s: string, i: nat, dot: nat, p: nat, m: Code)
    requires i + 1 < dot && dot + 1 < p <= |s| && s[dot] == '.'
    requires IsAsciiLetter(s[i]) && AllDigits(s[i + 1..dot]) && AllDigits(s[dot + 1..p])
    requires m.letter == s[i] && m.major == s[i + 1..dot] && m.minor == s[dot + 1..p]
    requires (m.suffix == [] && m.len == p - i) ||
             (p < |s| && IsAsciiLetter(s[p]) && m.suffix == [s[p]] && m.len == p + 1 - i)
    requires i + m.len == |s| || !IsWordChar(s[i + m.len])
    ensures CoversAt(s, i, m)
  {
    TextOfParts(s, i, dot, p);
    var body := [m.letter] + m.major + "." + m.minor;
    assert CodeText(m) == body + m.suffix;
    if m.suffix != [] {
      assert s[i..p + 1] == s[i..p] + m.suffix;
    } else {
      assert body + m.suffix == body;
    }
  }

  /** Conversely, every code standing between word boundaries is found where it
      starts. */
  lemma CodeAtFindsCode(pre: string, m: Code, post: string, s: string)
    requires ValidCode(m) && m.len == |CodeText(m)| && s == pre + CodeText(m) + post
    requires pre == [] || !IsWordChar(pre[|pre| - 1])
    requires post == [] || !IsWordChar(post[0])
    ensures CodeAt(s, |pre|) == Some(m)
  {
    var i := |pre|;
    var dot := i + 1 + |m.major|;
    var tail := m.suffix + post;
    CodeLayout(pre, m, post, s, i, dot);
    RunLengthPrefix(m.major, "." + (m.minor + tail), IsAsciiDigit);
    assert RunLength(s[i + 1..], IsAsciiDigit) == dot - i - 1;
    CodeAtFold(s, i, dot);
    CodeAfterDotFinds(s, i, dot, m, tail, post);
  }

  /** Conversely to `CodeAtUnfold`: a letter after a word boundary, followed by a maximal
      non-empty digit run and a dot, leaves the rest to `CodeAfterDot`. */
  lemma CodeAtFold(s: string, i: nat, dot: nat)
    requires i + 1 < dot < |s| && IsAsciiLetter(s[i]) && s[dot] == '.'
    requires i == 0 || !IsWordChar(s[i - 1])
    requires RunLength(s[i + 1..], IsAsciiDigit) == dot - i - 1
    ensures CodeAt(s, i) == CodeAfterDot(s, i, dot)
  {
  }

  /** Where the parts of a code lie in a text that holds it. */
  lemma CodeLayout(pre: string, m: Code, post: string, s: string, i: nat, dot: nat)
    requires s == pre + CodeText(m) + post && i == |pre| && dot == i + 1 + |m.major|
    ensures dot < |s| && s[i] == m.letter && s[i + 1..] == m.major + ("." + (m.minor + (m.suffix + post)))
    ensures s[i + 1..dot] == m.major && s[dot] == '.' && s[dot + 1..] == m.minor + (m.suffix + post)
    ensures i == 0 || s[i - 1] == pre[|pre| - 1]
  {
    var rest := m.minor + (m.suffix + post);
    ConcatSuffix(pre, CodeText(m), post, s);
    assert CodeText(m) + post == [m.letter] + (m.major + ("." + rest));
    DotLayout(s, i, m.letter, m.major, rest, dot);
  }

  /** What follows `pre` in `pre + x + post`, and the character before it. */
  lemma ConcatSuffix(pre: string, x: string, post: string, s: string)
    requires s == pre + x + post
    ensures s[|pre|..] == x + post && (|pre| == 0 || s[|pre| - 1] == pre[|pre| - 1])
  {
    assert s[|pre|..] == x + post;
  }

  /** Where a letter, digits, a dot and the rest lie in a suffix that holds them in that
      order. */
  lemma DotLayout(s: string, i: nat, letter: char, major: string, rest: string, dot: nat)
    requires i <= |s| && s[i..] == [letter] + (major + ("." + rest)) && dot == i + 1 + |major|
    ensures dot < |s| && s[i] == letter && s[i + 1..] == major + ("." + rest)
    ensures s[i + 1..dot] == major && s[dot] == '.' && s[dot + 1..] == rest
  {
    SuffixParts(s, i, [letter], major + ("." + rest));
    assert s[i] == s[i..i + 1][0];
    SuffixParts(s, i + 1, major, "." + rest);
    SuffixParts(s, dot, ".", rest);
    assert s[dot] == s[dot..][0];
  }

  /** A suffix of `s` that is `a + b` starts with `a` and then holds `b`. */
  lemma SuffixParts(s: string, k: nat, a: string, b: string)
    requires k <= |s| && s[k..] == a + b
    ensures k + |a| <= |s| && s[k..k + |a|] == a && s[k + |a|..] == b
  {
    assert s[k..k + |a|] == (a + b)[..|a|];
    assert s[k + |a|..] == (a + b)[|a|..];
  }

  lemma CodeAfterDotFinds(s: string, i: nat, dot: nat, m: Code, tail: string, post: string)
    requires ValidCode(m) && m.len == |CodeText(m)| && i < dot < |s|
    requires tail == m.suffix + post && s[dot + 1..] == m.minor + tail
    requires s[i] == m.letter && s[i + 1..dot] == m.major
    requires post == [] || !IsWordChar(post[0])
    ensures CodeAfterDot(s, i, dot) == Some(m)
  {
    var p := dot + 1 + |m.minor|;
    assert tail == [] || !IsAsciiDigit(tail[0]);
    RunLengthPrefix(m.minor, tail, IsAsciiDigit);
    assert s[dot + 1..p] == m.minor;
    assert s[p..] == tail;
    assert |s| == p + |tail|;
    if m.suffix != [] {
      assert s[p] == m.suffix[0];
      assert p + 1 == |s| || s[p + 1] == post[0];
      assert [s[p]] == m.suffix;
    } else {
      assert p == |s| || s[p] == post[0];
    }
  }

  /** `f"{m.group(1)} {m.group(2)}_{m.group(3)} {m.group(4)}".strip()` */
  function Spaced(m: Code): string {
    Strip([m.letter] + " " + m.major + "_" + m.minor + " " + m.suffix)
  }

  /** `pattern.sub(...)` from position `i` on: a left-to-right scan replacing each
      non-overlapping match. */
  function SubCodesFrom(s: string, i: nat): string
    requires i <= |s|
    decreases |s| - i
  {
    if i == |s| then []
    else match CodeAt(s, i)
      case Some(m) => Spaced(m) + SubCodesFrom(s, i + m.len)
      case None => [s[i]] + SubCodesFrom(s, i + 1)
  }

  function SubCodes(s: string): string { SubCodesFrom(s, 0) }

  /** `normalize_text` */
  function NormalizeText(text: string): string {
    Strip(CollapseSpaces(SubCodes(text)))
  }

  /** A code is spaced out as "L D_D S", with no trailing space when the suffix is
      empty. */
  lemma SpacedShape(m: Code)
    requires ValidCode(m)
    ensures Spaced(m) == [m.letter] + " " + m.major + "_" + m.minor + (if m.suffix == [] then "" else " " + m.suffix)
  {
    var y := [m.letter] + " " + m.major + "_" + m.minor;
    var body := y + " " + m.suffix;
    assert [m.letter] + " " + m.major + "_" + m.minor + " " + m.suffix == body;
    assert y[|y| - 1] == m.minor[|m.minor| - 1];
    assert IsAsciiDigit(m.minor[|m.minor| - 1]);
    assert !IsSpace(y[|y| - 1]);
    assert !IsSpace(body[0]) by { assert body[0] == m.letter; }
    if m.suffix == [] {
      assert body == y + " ";
      assert LStrip(body) == body;
      assert body[..|body| - 1] == y;
      assert RStrip(body) == RStrip(y);
      assert RStrip(y) == y;
    } else {
      assert body[|body| - 1] == m.suffix[0];
      assert !IsSpace(m.suffix[0]);
      StripOfStripped(body);
    }
  }

  /** The characters a rewrite may touch: whitespace, the dot and the underscore. */
  predicate Untouched(c: char) { !IsSpace(c) && c != '.' && c != '_' }

  lemma KeptSpacedPieces(l: string, major: string, minor: string, suffix: string)
    requires Kept(l, Untouched) == l && Kept(major, Untouched) == major
    requires Kept(minor, Untouched) == minor && Kept(suffix, Untouched) == suffix
    ensures Kept(l + " " + major + "_" + minor + " " + suffix, Untouched) == l + major + minor + suffix
  {
    KeptNone(" ", Untouched);
    KeptNone("_", Untouched);
    var x1 := l + " ";
    KeptAppend(l, " ", Untouched);
    assert Kept(x1, Untouched) == l;
    var x2 := x1 + major;
    KeptAppend(x1, major, Untouched);
    var x3 := x2 + "_";
    KeptAppend(x2, "_", Untouched);
    assert Kept(x3, Untouched) == l + major;
    var x4 := x3 + minor;
    KeptAppend(x3, minor, Untouched);
    var x5 := x4 + " ";
    KeptAppend(x4, " ", Untouched);
    assert Kept(x5, Untouched) == l + major + minor;
    KeptAppend(x5, suffix, Untouched);
  }

  lemma KeptCodePieces(l: string, major: string, minor: string, suffix: string)
    requires Kept(l, Untouched) == l && Kept(major, Untouched) == major
    requires Kept(minor, Untouched) == minor && Kept(suffix, Untouched) == suffix
    ensures Kept(l + major + "." + minor + suffix, Untouched) == l + major + minor + suffix
  {
    KeptNone(".", Untouched);
    var x1 := l + major;
    KeptAppend(l, major, Untouched);
    var x2 := x1 + ".";
    KeptAppend(x1, ".", Untouched);
    assert Kept(x2, Untouched) == l + major;
    var x3 := x2 + minor;
    KeptAppend(x2, minor, Untouched);
    KeptAppend(x3, suffix, Untouched);
  }

  lemma SpacedKeeps(m: Code)
    requires ValidCode(m)
    ensures Kept(Spaced(m), Untouched) == Kept(CodeText(m), Untouched)
  {
    CodePartsKept(m);
    StripKeeps([m.letter] + " " + m.major + "_" + m.minor + " " + m.suffix, Untouched);
    KeptSpacedPieces([m.letter], m.major, m.minor, m.suffix);
    KeptCodePieces([m.letter], m.major, m.minor, m.suffix);
  }

  /** No group of a code holds a character the rewrite may touch. */
  lemma CodePartsKept(m: Code)
    requires ValidCode(m)
    ensures Kept([m.letter], Untouched) == [m.letter] && Kept(m.major, Untouched) == m.major
    ensures Kept(m.minor, Untouched) == m.minor && Kept(m.suffix, Untouched) == m.suffix
  {
    DigitsUntouched(m.major);
    DigitsUntouched(m.minor);
    KeptAll(m.major, Untouched);
    KeptAll(m.minor, Untouched);
    KeptAll(m.suffix, Untouched);
    KeptAll([m.letter], Untouched);
  }

  lemma DigitsUntouched(d: string)
    requires AllDigits(d)
    ensures forall k :: 0 <= k < |d| ==> Untouched(d[k])
  {
  }

  /** The rewrite keeps every character but whitespace, dots and underscores, in order. */
  lemma {:induction false} SubCodesKeeps(s: string, i: nat)
    requires i <= |s|
    ensures Kept(SubCodesFrom(s, i), Untouched) == Kept(s[i..], Untouched)
    decreases |s| - i, 1
  {
    if i < |s| {
      if CodeAt(s, i).Some? {
        MatchKeepsFrom(s, i);
      } else {
        SkipKeepsFrom(s, i);
      }
    }
  }

  /** The rewrite from a character that starts no match keeps what the text from there
      keeps. */
  lemma {:induction false} SkipKeepsFrom(s: string, i: nat)
    requires i < |s| && CodeAt(s, i).None?
    ensures Kept(SubCodesFrom(s, i), Untouched) == Kept(s[i..], Untouched)
    decreases |s| - i, 0
  {
    SubCodesKeeps(s, i + 1);
    SkipKeeps(s, i);
  }

  /** The rewrite from a match on keeps what the text from there keeps. */
  lemma {:induction false} MatchKeepsFrom(s: string, i: nat)
    requires i < |s| && CodeAt(s, i).Some?
    ensures Kept(SubCodesFrom(s, i), Untouched) == Kept(s[i..], Untouched)
    decreases |s| - i, 0
  {
    SubCodesKeeps(s, i + CodeAt(s, i).value.len);
    MatchKeeps(s, i);
  }

  /** One replaced match keeps what the matched text keeps. */
  lemma MatchKeeps(s: string, i: nat)
    requires i < |s| && CodeAt(s, i).Some?
    requires Kept(SubCodesFrom(s, i + CodeAt(s, i).value.len), Untouched) ==
             Kept(s[i + CodeAt(s, i).value.len..], Untouched)
    ensures Kept(SubCodesFrom(s, i), Untouched) == Kept(s[i..], Untouched)
  {
    CodeAtCovers(s, i);
    SpacedKeeps(CodeAt(s, i).value);
    MatchStep(s, i);
    KeptBoth(Spaced(CodeAt(s, i).value), SubCodesFrom(s, i + CodeAt(s, i).value.len),
             CodeText(CodeAt(s, i).value), s[i + CodeAt(s, i).value.len..], Untouched);
  }

  lemma CodeAtCovers(s: string, i: nat)
    requires i < |s| && CodeAt(s, i).Some?
    ensures ValidCode(CodeAt(s, i).value)
    ensures s[i..] == CodeText(CodeAt(s, i).value) + s[i + CodeAt(s, i).value.len..]
  {
    CodeAtIsCode(s, i);
    SliceSplit(s, i, i + CodeAt(s, i).value.len);
  }

  lemma KeptBoth(a: string, b: string, c: string, d: string, keep: char -> bool)
    requires Kept(a, keep) == Kept(c, keep) && Kept(b, keep) == Kept(d, keep)
    ensures Kept(a + b, keep) == Kept(c + d, keep)
  {
    KeptAppend(a, b, keep);
    KeptAppend(c, d, keep);
  }

  lemma MatchStep(s: string, i: nat)
    requires i < |s| && CodeAt(s, i).Some?
    ensures SubCodesFrom(s, i) == Spaced(CodeAt(s, i).value) + SubCodesFrom(s, i + CodeAt(s, i).value.len)
  {
  }

  lemma SliceSplit(s: string, i: nat, j: nat)
    requires i <= j <= |s|
    ensures s[i..] == s[i..j] + s[j..]
  {
  }

  lemma SkipStep(s: string, i: nat)
    requires i < |s| && CodeAt(s, i).None?
    ensures SubCodesFrom(s, i) == [s[i]] + SubCodesFrom(s, i + 1)
  {
  }

  /** A character no match starts at is copied and keeps what it keeps. */
  lemma SkipKeeps(s: string, i: nat)
    requires i < |s| && CodeAt(s, i).None?
    requires Kept(SubCodesFrom(s, i + 1), Untouched) == Kept(s[i + 1..], Untouched)
    ensures Kept(SubCodesFrom(s, i), Untouched) == Kept(s[i..], Untouched)
  {
    SkipStep(s, i);
    assert s[i..] == [s[i]] + s[i + 1..];
    KeptAppend([s[i]], s[i + 1..], Untouched);
    KeptAppend([s[i]], SubCodesFrom(s, i + 1), Untouched);
  }

  /** `normalize_text` changes only whitespace, dots and underscores: every other
      character survives, in order and unchanged. */
  lemma NormalizeKeeps(text: string)
    ensures Kept(NormalizeText(text), Untouched) == Kept(text, Untouched)
  {
    SubCodesKeeps(text, 0);
    CollapseRunsKeeps(SubCodes(text), IsSpace, Untouched);
    StripKeeps(CollapseSpaces(SubCodes(text)), Untouched);
  }

  lemma LettersUntouched()
    ensures forall c :: IsAsciiLetter(c) ==> Untouched(c)
  {
  }

  /** Letter case never changes: the letters of the result are the letters of the text,
      in order. */
  lemma NormalizeKeepsCase(text: string)
    ensures Kept(NormalizeText(text), IsAsciiLetter) == Kept(text, IsAsciiLetter)
  {
    NormalizeKeeps(text);
    LettersUntouched();
    KeptOfKept(NormalizeText(text), Untouched, IsAsciiLetter);
    KeptOfKept(text, Untouched, IsAsciiLetter);
  }

  lemma {:induction false} SubCodesNone(s: string, i: nat)
    requires i <= |s| && forall j :: i <= j < |s| ==> CodeAt(s, j).None?
    ensures SubCodesFrom(s, i) == s[i..]
    decreases |s| - i
  {
    if i < |s| {
      SubCodesNone(s, i + 1);
      assert s[i..] == [s[i]] + s[i + 1..];
    }
  }

  /** Text without any code changes only in whitespace. */
  lemma NoCodeOnlyWhitespace(text: string)
    requires forall j :: 0 <= j < |text| ==> CodeAt(text, j).None?
    ensures NormalizeText(text) == Strip(CollapseSpaces(text))
  {
    SubCodesNone(text, 0);
  }

  /** The result has no whitespace at either end, and every whitespace run, newlines
      included, is a single space. */
  lemma NormalizedShape(text: string)
    ensures var r := NormalizeText(text);
      (r == [] || (!IsSpace(r[0]) && !IsSpace(r[|r| - 1]))) && RunsCollapsed(r, IsSpace)
  {
    var c := CollapseSpaces(SubCodes(text));
    CollapseRunsCollapsed(SubCodes(text), IsSpace);
    var a, b := StripIsSlice(c);
    RunsCollapsedSlice(c, a, b, IsSpace);
  }

  /** Two codes joined by a character that is not a word character are each spaced out,
      and the joining character stays where it was. */
  lemma TwoCodes(m1: Code, c: char, m2: Code)
    requires ValidCode(m1) && m1.len == |CodeText(m1)| && ValidCode(m2) && m2.len == |CodeText(m2)|
    requires !IsWordChar(c)
    ensures SubCodes(CodeText(m1) + [c] + CodeText(m2)) == Spaced(m1) + [c] + Spaced(m2)
  {
    var s := CodeText(m1) + [c] + CodeText(m2);
    FirstOfTwo(m1, c, m2, s);
    MatchStep(s, 0);
    SeparatorOfTwo(m1, c, m2, s);
  }

  lemma SeparatorOfTwo(m1: Code, c: char, m2: Code, s: string)
    requires ValidCode(m2) && m2.len == |CodeText(m2)| && !IsWordChar(c)
    requires s == CodeText(m1) + [c] + CodeText(m2)
    ensures SubCodesFrom(s, |CodeText(m1)|) == [c] + Spaced(m2)
  {
    var i := |CodeText(m1)|;
    assert s[i] == c;
    SkipStep(s, i);
    LastOfTwo(m1, c, m2, s);
  }

  lemma LastOfTwo(m1: Code, c: char, m2: Code, s: string)
    requires ValidCode(m2) && m2.len == |CodeText(m2)| && !IsWordChar(c)
    requires s == CodeText(m1) + [c] + CodeText(m2)
    ensures SubCodesFrom(s, |CodeText(m1)| + 1) == Spaced(m2)
  {
    var k := |CodeText(m1)| + 1;
    SecondOfTwo(m1, c, m2, s);
    MatchLast(s, k);
  }

  /** A match that runs to the end of the text is the last thing spaced out. */
  lemma MatchLast(s: string, i: nat)
    requires i < |s| && CodeAt(s, i).Some? && i + CodeAt(s, i).value.len == |s|
    ensures SubCodesFrom(s, i) == Spaced(CodeAt(s, i).value)
  {
    MatchStep(s, i);
    assert SubCodesFrom(s, |s|) == [];
  }

  /** The same holds after whitespace is collapsed and the ends stripped, when the joining
      character is not whitespace either. */
  lemma NormalizeTwoCodes(m1: Code, c: char, m2: Code)
    requires ValidCode(m1) && m1.len == |CodeText(m1)| && ValidCode(m2) && m2.len == |CodeText(m2)|
    requires !IsWordChar(c) && !IsSpace(c)
    ensures NormalizeText(CodeText(m1) + [c] + CodeText(m2)) == Spaced(m1) + [c] + Spaced(m2)
  {
    var r := Spaced(m1) + [c] + Spaced(m2);
    TwoCodes(m1, c, m2);
    SpacedCollapsed(m1);
    SpacedCollapsed(m2);
    JoinCollapsed(Spaced(m1), c, Spaced(m2), IsSpace);
    CollapseRunsIdentity(r, IsSpace);
    assert r[0] == Spaced(m1)[0];
    assert r[|r| - 1] == Spaced(m2)[|Spaced(m2)| - 1];
    StripOfStripped(r);
  }

  /** A spaced-out code is not empty and its whitespace is single spaces between other
      characters. */
  lemma SpacedCollapsed(m: Code)
    requires ValidCode(m)
    ensures Spaced(m) != [] && RunsCollapsed(Spaced(m), IsSpace)
  {
    SpacedShape(m);
    ShapeCollapsed(m.letter, m.major, m.minor, m.suffix);
  }

  lemma ShapeCollapsed(letter: char, major: string, minor: string, suffix: string)
    requires IsAsciiLetter(letter) && AllDigits(major) && AllDigits(minor) && minor != []
    requires suffix == [] || (|suffix| == 1 && IsAsciiLetter(suffix[0]))
    ensures RunsCollapsed([letter] + " " + major + "_" + minor + (if suffix == [] then "" else " " + suffix), IsSpace)
  {
    var body := major + "_" + minor;
    DigitsNoSpace(major, minor);
    JoinCollapsed([letter], ' ', body, IsSpace);
    var y := [letter] + [' '] + body;
    assert [letter] + " " + major + "_" + minor == y;
    if suffix != [] {
      assert y[|y| - 1] == minor[|minor| - 1];
      JoinCollapsed(y, ' ', suffix, IsSpace);
      assert y + " " + suffix == y + [' '] + suffix;
    } else {
      assert y + "" == y;
    }
  }

  lemma DigitsNoSpace(major: string, minor: string)
    requires AllDigits(major) && AllDigits(minor)
    ensures RunsCollapsed(major + "_" + minor, IsSpace)
  {
    var body := major + "_" + minor;
    forall k | 0 <= k < |body| ensures !IsSpace(body[k]) {
      if k < |major| {
        assert body[k] == major[k];
      } else if k > |major| {
        assert body[k] == minor[k - |major| - 1];
      }
    }
  }

  lemma FirstOfTwo(m1: Code, c: char, m2: Code, s: string)
    requires ValidCode(m1) && m1.len == |CodeText(m1)|
    requires !IsWordChar(c)
    requires s == CodeText(m1) + [c] + CodeText(m2)
    ensures CodeAt(s, 0) == Some(m1)
  {
    CodeAtFindsCode([], m1, [c] + CodeText(m2), s);
  }

  lemma SecondOfTwo(m1: Code, c: char, m2: Code, s: string)
    requires ValidCode(m2) && m2.len == |CodeText(m2)|
    requires !IsWordChar(c)
    requires s == CodeText(m1) + [c] + CodeText(m2)
    ensures CodeAt(s, |CodeText(m1)| + 1) == Some(m2)
  {
    CodeAfterSeparator(CodeText(m1), c, m2, s);
  }

  /** A code right after a character that is not a word character is found there. */
  lemma CodeAfterSeparator(a: string, c: char, m: Code, s: string)
    requires ValidCode(m) && m.len == |CodeText(m)|
    requires !IsWordChar(c)
    requires s == a + [c] + CodeText(m)
    ensures CodeAt(s, |a| + 1) == Some(m)
  {
    var pre := a + [c];
    assert pre[|pre| - 1] == c;
    assert s == pre + CodeText(m) + [];
    CodeAtFindsCode(pre, m, [], s);
  }

  // ---------------------------------------------------------------------------------
  // The documented examples

  lemma CodeAtE72B()
    ensures CodeAt("E7.2B", 0) == Some(Code('E', "7", "2", "B", 5))
  {
    var m := Code('E', "7", "2", "B", 5);
    assert CodeText(m) == "E7.2B";
    CodeAtFindsCode([], m, [], "E7.2B");
  }

  lemma SpacedE72B()
    ensures Spaced(Code('E', "7", "2", "B", 5)) == "E 7_2 B"
  {
    SpacedShape(Code('E', "7", "2", "B", 5));
  }

  lemma CollapsedE72B()
    ensures RunsCollapsed("E 7_2 B", IsSpace)
  {
    var r := "E 7_2 B";
    assert forall i :: 0 <= i < |r| && i != 1 && i != 5 ==> !IsSpace(r[i]);
  }

  /** "E7.2B" becomes "E 7_2 B". */
  lemma NormalizeE72B()
    ensures NormalizeText("E7.2B") == "E 7_2 B"
  {
    var r := "E 7_2 B";
    CodeAtE72B();
    SpacedE72B();
    MatchLast("E7.2B", 0);
    assert SubCodes("E7.2B") == r;
    CollapsedE72B();
    CollapseRunsIdentity(r, IsSpace);
    StripOfStripped(r);
  }

  lemma E222First()
    ensures var m := Code('E', "22", "2", [], 5);
      ValidCode(m) && m.len == |CodeText(m)| && CodeText(m) == "E22.2" && Spaced(m) == "E 22_2"
  {
    var m := Code('E', "22", "2", [], 5);
    assert ValidCode(m);
    assert CodeText(m) == "E22.2";
    SpacedShape(m);
  }

  lemma E222Second()
    ensures var m := Code('E', "22", "2", "B", 6);
      ValidCode(m) && m.len == |CodeText(m)| && CodeText(m) == "E22.2B" && Spaced(m) == "E 22_2 B"
  {
    var m := Code('E', "22", "2", "B", 6);
    assert ValidCode(m);
    assert CodeText(m) == "E22.2B";
    SpacedShape(m);
  }

  /** "E22.2/E22.2B" is two codes joined by a slash, so by `NormalizeTwoCodes` it becomes
      "E 22_2/E 22_2 B": the slash is kept with no space on either side of it. */
  lemma E222Instance()
    ensures var m1, m2 := Code('E', "22", "2", [], 5), Code('E', "22", "2", "B", 6);
      ValidCode(m1) && m1.len == |CodeText(m1)| && ValidCode(m2) && m2.len == |CodeText(m2)| &&
      CodeText(m1) + ['/'] + CodeText(m2) == "E22.2/E22.2B" &&
      Spaced(m1) + ['/'] + Spaced(m2) == "E 22_2/E 22_2 B"
  {
    E222First();
    E222Second();
  }


}
