/** Python `str` operations the core relies on, with CPython's semantics: `isspace`,
    `strip`, `replace`, `split()`, `splitlines()`, `"sep".join`, `startswith`/`endswith`,
    and the two whitespace-run substitutions that recur in the text cleaners
    (`re.sub(r"[ \t]+", " ", s)` and `re.sub(r"\s+", " ", s)`). */
module PyStr {

  /** `c.isspace()` for a single character (CPython's whitespace table). */
  predicate IsSpace(c: char) {
    c == ' ' || c == '\t' || c == '\n' || c == '\r' || c == '\U{000B}' || c == '\U{000C}'
    || ('\U{001C}' <= c <= '\U{001F}') || c == '\U{0085}' || c == '\U{00A0}' || c == '\U{1680}'
    || ('\U{2000}' <= c <= '\U{200A}') || c == '\U{2028}' || c == '\U{2029}' || c == '\U{202F}'
    || c == '\U{205F}' || c == '\U{3000}'
  }

  /** The characters `str.splitlines` splits on (`\r\n` counts as one boundary). */
  predicate IsLineBoundary(c: char) {
    c == '\n' || c == '\r' || c == '\U{000B}' || c == '\U{000C}' || ('\U{001C}' <= c <= '\U{001E}')
    || c == '\U{0085}' || c == '\U{2028}' || c == '\U{2029}'
  }

  predicate IsNonSpace(c: char) { !IsSpace(c) }
  predicate IsNotLineBoundary(c: char) { !IsLineBoundary(c) }

  predicate IsAsciiDigit(c: char) { '0' <= c <= '9' }
  predicate IsAsciiLetter(c: char) { ('A' <= c <= 'Z') || ('a' <= c <= 'z') }
  predicate IsAsciiUpper(c: char) { 'A' <= c <= 'Z' }
  predicate IsNewline(c: char) { c == '\n' }

  /** A regex word character (`\w`), restricted to ASCII. */
  predicate IsWordChar(c: char) { IsAsciiLetter(c) || IsAsciiDigit(c) || c == '_' }

  /** `c.lower()` on ASCII letters; every other character is left as it is. */
  function LowerChar(c: char): (r: char)
    ensures IsAsciiUpper(c) ==> 'a' <= r <= 'z' && r as int - 'a' as int == c as int - 'A' as int
    ensures !IsAsciiUpper(c) ==> r == c
  {
    if IsAsciiUpper(c) then (c as int - 'A' as int + 'a' as int) as char else c
  }

  /** `s.lower()`, character by character. */
  function Lower(s: string): (r: string)
    ensures |r| == |s| && forall i :: 0 <= i < |s| ==> r[i] == LowerChar(s[i])
  {
    if s == [] then [] else [LowerChar(s[0])] + Lower(s[1..])
  }

  predicate StartsWith(s: string, prefix: string) { prefix <= s }

  predicate EndsWith(s: string, suffix: string) {
    |suffix| <= |s| && s[|s| - |suffix|..] == suffix
  }

  /** `pat` occurs in `s` at position `i`. */
  predicate OccursAt(s: string, pat: string, i: nat) {
    i + |pat| <= |s| && s[i..i + |pat|] == pat
  }

  predicate Contains(s: string, pat: string) {
    exists i: nat | i <= |s| :: OccursAt(s, pat, i)
  }

  /** `s.lstrip()` */
  function LStrip(s: string): (r: string)
    ensures |r| <= |s| && r == s[|s| - |r|..]
    ensures r == [] || !IsSpace(r[0])
    ensures forall i :: 0 <= i < |s| - |r| ==> IsSpace(s[i])
  {
    if s != [] && IsSpace(s[0]) then LStrip(s[1..]) else s
  }

  /** `s.rstrip()` */
  function RStrip(s: string): (r: string)
    ensures |r| <= |s| && r == s[..|r|]
    ensures r == [] || !IsSpace(r[|r| - 1])
    ensures forall i :: |r| <= i < |s| ==> IsSpace(s[i])
  {
    if s != [] && IsSpace(s[|s| - 1]) then RStrip(s[..|s| - 1]) else s
  }

  /** `s.strip()`: the contiguous part of `s` between its leading and trailing whitespace. */
  function Strip(s: string): (r: string)
    ensures r == [] || (!IsSpace(r[0]) && !IsSpace(r[|r| - 1]))
  {
    RStrip(LStrip(s))
  }

  /** `s.strip()` is a contiguous part of `s`. */
  lemma StripIsSlice(s: string) returns (a: nat, b: nat)
    ensures a <= b <= |s| && Strip(s) == s[a..b]
  {
    var l := LStrip(s);
    var r := RStrip(l);
    a, b := |s| - |l|, |s| - |l| + |r|;
    assert l == s[a..];
    assert r == l[..|r|];
    assert s[a..][..|r|] == s[a..b];
  }

  /** `not s.strip()` */
  predicate IsBlank(s: string) { Strip(s) == [] }

  lemma {:induction false} LStripAllSpace(s: string)
    ensures (LStrip(s) == []) <==> (forall i :: 0 <= i < |s| ==> IsSpace(s[i]))
  {
  }

  lemma BlankIffAllSpace(s: string)
    ensures IsBlank(s) <==> (forall i :: 0 <= i < |s| ==> IsSpace(s[i]))
  {
    var l := LStrip(s);
    LStripAllSpace(s);
    if l != [] {
      assert !IsSpace(l[0]);
      assert |RStrip(l)| > 0;
    }
  }

  /** `s.replace(pat, rep)`: left-to-right, non-overlapping replacement of every occurrence. */
  function Replace(s: string, pat: string, rep: string): (r: string)
    requires pat != []
    decreases |s|
  {
    if |s| < |pat| then s
    else if s[..|pat|] == pat then rep + Replace(s[|pat|..], pat, rep)
    else [s[0]] + Replace(s[1..], pat, rep)
  }

  lemma {:induction false} ReplaceAbsent(s: string, pat: string, rep: string)
    requires pat != []
    requires !Contains(s, pat)
    ensures Replace(s, pat, rep) == s
    decreases |s|
  {
    if |s| >= |pat| {
      assert !OccursAt(s, pat, 0);
      assert s[..|pat|] == s[0..0 + |pat|];
      forall i: nat ensures !OccursAt(s[1..], pat, i) {
        if OccursAt(s[1..], pat, i) {
          assert s[1..][i..i + |pat|] == s[i + 1..i + 1 + |pat|];
          assert OccursAt(s, pat, i + 1);
        }
      }
      ReplaceAbsent(s[1..], pat, rep);
    }
  }

  /** No proper prefix of `pat` is also a suffix of it, so two occurrences never overlap. */
  predicate BorderFree(pat: string) {
    forall l :: 0 < l < |pat| ==> pat[..l] != pat[|pat| - l..]
  }

  /** Removing every occurrence of a border-free pattern from `p + pat` gives back `p` when
      `p` has no occurrence of its own. */
  lemma {:induction false} ReplaceAppendedPattern(p: string, pat: string)
    requires pat != [] && BorderFree(pat) && !Contains(p, pat)
    ensures Replace(p + pat, pat, "") == p
    decreases |p|
  {
    var s := p + pat;
    if p == [] {
      assert s[..|pat|] == pat;
      assert s[|pat|..] == [];
    } else {
      assert s[..|pat|] != pat by {
        if |p| >= |pat| {
          assert s[..|pat|] == p[0..0 + |pat|];
          assert !OccursAt(p, pat, 0);
        } else {
          var l := |pat| - |p|;
          assert pat[..l] != pat[|pat| - l..];
          assert s[..|pat|][|p|..] == pat[..l];
        }
      }
      assert !Contains(p[1..], pat) by {
        forall i: nat | i <= |p[1..]| ensures !OccursAt(p[1..], pat, i) {
          if i + |pat| <= |p[1..]| {
            assert p[1..][i..i + |pat|] == p[i + 1..i + 1 + |pat|];
            assert !OccursAt(p, pat, i + 1);
          }
        }
      }
      assert s[1..] == p[1..] + pat;
      ReplaceAppendedPattern(p[1..], pat);
      assert [p[0]] + p[1..] == p;
    }
  }

  /** Every character of the text, with each occurrence of the single character `c`
      replaced by `rep` (`s.replace(c, rep)` for a one-character pattern). */
  function ReplaceChar(s: string, c: char, rep: string): (r: string)
    ensures c !in rep ==> c !in r
    ensures (forall x :: x in r ==> x in s || x in rep)
  {
    if s == [] then [] else (if s[0] == c then rep else [s[0]]) + ReplaceChar(s[1..], c, rep)
  }

  lemma {:induction false} ReplaceCharAbsent(s: string, c: char, rep: string)
    requires c !in s
    ensures ReplaceChar(s, c, rep) == s
  {
    if s != [] {
      ReplaceCharAbsent(s[1..], c, rep);
    }
  }

  /** Single-character replacement works piecewise. */
  lemma {:induction false} ReplaceCharAppend(a: string, b: string, c: char, rep: string)
    ensures ReplaceChar(a + b, c, rep) == ReplaceChar(a, c, rep) + ReplaceChar(b, c, rep)
  {
    if a == [] {
      assert a + b == b;
    } else {
      assert (a + b)[0] == a[0] && (a + b)[1..] == a[1..] + b;
      ReplaceCharAppend(a[1..], b, c, rep);
    }
  }

  /** `sep.join(parts)` */
  function Join(sep: string, parts: seq<string>): (r: string)
  {
    if parts == [] then [] else if |parts| == 1 then parts[0]
    else parts[0] + sep + Join(sep, parts[1..])
  }

  lemma {:induction false} JoinAppend(sep: string, parts: seq<string>, last: string)
    requires parts != []
    ensures Join(sep, parts + [last]) == Join(sep, parts) + sep + last
  {
    if |parts| == 1 {
      assert (parts + [last])[1..] == [last];
    } else {
      assert (parts + [last])[1..] == parts[1..] + [last];
      JoinAppend(sep, parts[1..], last);
    }
  }

  /** Joining a list that starts with `x`. */
  lemma JoinCons(sep: string, x: string, rest: seq<string>)
    ensures Join(sep, [x] + rest) == if rest == [] then x else x + sep + Join(sep, rest)
  {
    assert ([x] + rest)[1..] == rest;
  }

  /** Joining two non-empty lists is joining their joins. */
  lemma {:induction false} JoinConcat(sep: string, a: seq<string>, b: seq<string>)
    requires a != [] && b != []
    ensures Join(sep, a + b) == Join(sep, a) + sep + Join(sep, b)
  {
    if |a| == 1 {
      assert (a + b)[1..] == b;
    } else {
      assert (a + b)[1..] == a[1..] + b;
      JoinConcat(sep, a[1..], b);
      assert Join(sep, a + b) == a[0] + sep + (Join(sep, a[1..]) + sep + Join(sep, b));
    }
  }

  /** The length of the leading run of characters of `s` satisfying `p`. */
  function RunLength(s: string, p: char -> bool): (n: nat)
    ensures n <= |s|
    ensures forall i :: 0 <= i < n ==> p(s[i])
    ensures n < |s| ==> !p(s[n])
  {
    if s != [] && p(s[0]) then 1 + RunLength(s[1..], p) else 0
  }

  /** `s.split()`: the maximal runs of non-whitespace characters, in order. */
  function Words(s: string): (ws: seq<string>)
    decreases |s|
  {
    var t := LStrip(s);
    if t == [] then []
    else
      var n := RunLength(t, IsNonSpace);
      assert n > 0 by { assert IsNonSpace(t[0]); }
      [t[..n]] + Words(t[n..])
  }

  function WordCount(s: string): nat { |Words(s)| }

  /** `s.splitlines()`: no trailing empty line, `\r\n` is one boundary. */
  function SplitLines(s: string): (lines: seq<string>)
    ensures s == [] <==> lines == []
    decreases |s|
  {
    if s == [] then []
    else
      var k := RunLength(s, IsNotLineBoundary);
      if k == |s| then [s]
      else
        var skip := if s[k] == '\r' && k + 1 < |s| && s[k + 1] == '\n' then 2 else 1;
        [s[..k]] + SplitLines(s[k + skip..])
  }

  /** `str(n)` for a natural number. */
  function NatToString(n: nat): (r: string)
    ensures r != []
    ensures forall i :: 0 <= i < |r| ==> IsAsciiDigit(r[i])
  {
    if n < 10 then [DigitChar(n)] else NatToString(n / 10) + [DigitChar(n % 10)]
  }

  function DigitChar(d: nat): (c: char)
    requires d < 10
    ensures IsAsciiDigit(c)
  {
    ['0', '1', '2', '3', '4', '5', '6', '7', '8', '9'][d]
  }

  /** `re.sub(CLASS + "+", " ", s)` where `inRun` is the character class: every maximal run
      of class characters becomes one space. */
  function CollapseRuns(s: string, inRun: char -> bool): (r: string)
    decreases |s|
  {
    if s == [] then []
    else if inRun(s[0]) then
      var n := RunLength(s, inRun);
      " " + CollapseRuns(s[n..], inRun)
    else [s[0]] + CollapseRuns(s[1..], inRun)
  }

  /** No character of the class survives except a single space, and no two class
      characters stand next to each other. */
  ghost predicate RunsCollapsed(s: string, inRun: char -> bool) {
    forall i :: 0 <= i < |s| && inRun(s[i]) ==> s[i] == ' ' && (i + 1 == |s| || !inRun(s[i + 1]))
  }

  lemma {:induction false} CollapseRunsHead(s: string, inRun: char -> bool)
    requires s != []
    ensures CollapseRuns(s, inRun) != []
    ensures CollapseRuns(s, inRun)[0] == if inRun(s[0]) then ' ' else s[0]
  {
  }

  lemma {:induction false} CollapseRunsCollapsed(s: string, inRun: char -> bool)
    requires inRun(' ')
    ensures RunsCollapsed(CollapseRuns(s, inRun), inRun)
    decreases |s|
  {
    if s != [] {
      if inRun(s[0]) {
        var n := RunLength(s, inRun);
        var rest := CollapseRuns(s[n..], inRun);
        CollapseRunsCollapsed(s[n..], inRun);
        if s[n..] != [] {
          CollapseRunsHead(s[n..], inRun);
        }
        assert CollapseRuns(s, inRun) == " " + rest;
      } else {
        var rest := CollapseRuns(s[1..], inRun);
        CollapseRunsCollapsed(s[1..], inRun);
        assert CollapseRuns(s, inRun) == [s[0]] + rest;
      }
    }
  }

  lemma {:induction false} CollapseRunsIdentity(s: string, inRun: char -> bool)
    requires RunsCollapsed(s, inRun)
    ensures CollapseRuns(s, inRun) == s
    decreases |s|
  {
    if s != [] {
      if inRun(s[0]) {
        assert s[0] == ' ';
        assert RunLength(s, inRun) == 1 by {
          if |s| > 1 { assert !inRun(s[1]); }
        }
      }
      assert RunsCollapsed(s[1..], inRun) by {
        forall i | 0 <= i < |s[1..]| && inRun(s[1..][i])
          ensures s[1..][i] == ' ' && (i + 1 == |s[1..]| || !inRun(s[1..][i + 1]))
        {
          assert s[1..][i] == s[i + 1];
        }
      }
      CollapseRunsIdentity(s[1..], inRun);
    }
  }

  /** Collapsing runs brings in no character but the space. */
  lemma {:induction false} CollapseRunsAddsOnlySpaces(s: string, inRun: char -> bool)
    ensures forall c :: c in CollapseRuns(s, inRun) ==> c in s || c == ' '
    decreases |s|
  {
    if s != [] {
      if inRun(s[0]) {
        var n := RunLength(s, inRun);
        CollapseRunsAddsOnlySpaces(s[n..], inRun);
      } else {
        CollapseRunsAddsOnlySpaces(s[1..], inRun);
      }
    }
  }

  /** The `[ \t]` character class. */
  predicate IsBlankChar(c: char) { c == ' ' || c == '\t' }

  /** `re.sub(r"[ \t]+", " ", s)` */
  function CollapseBlanks(s: string): string { CollapseRuns(s, IsBlankChar) }

  /** `re.sub(r"\s+", " ", s)` (with `\s` as CPython's whitespace) */
  function CollapseSpaces(s: string): string { CollapseRuns(s, IsSpace) }

  /** The characters of `s` that satisfy `keep`, in order. */
  function Kept(s: string, keep: char -> bool): (r: string)
    ensures |r| <= |s|
  {
    if s == [] then [] else (if keep(s[0]) then [s[0]] else []) + Kept(s[1..], keep)
  }

  lemma {:induction false} KeptAppend(a: string, b: string, keep: char -> bool)
    ensures Kept(a + b, keep) == Kept(a, keep) + Kept(b, keep)
  {
    if a == [] {
      assert a + b == b;
    } else {
      var head := if keep(a[0]) then [a[0]] else [];
      assert (a + b)[0] == a[0];
      assert (a + b)[1..] == a[1..] + b;
      KeptAppend(a[1..], b, keep);
      assert Kept(a + b, keep) == head + (Kept(a[1..], keep) + Kept(b, keep));
      assert Kept(a, keep) == head + Kept(a[1..], keep);
    }
  }

  /** A leading run of dropped characters contributes nothing. */
  lemma {:induction false} KeptSkipsRun(s: string, n: nat, keep: char -> bool)
    requires n <= |s| && forall i :: 0 <= i < n ==> !keep(s[i])
    ensures Kept(s, keep) == Kept(s[n..], keep)
    decreases n
  {
    if n > 0 {
      assert s[1..][n - 1..] == s[n..];
      KeptSkipsRun(s[1..], n - 1, keep);
    }
  }

  /** Collapsing runs changes only characters of the run class: every other character
      survives, in order. */
  lemma {:induction false} CollapseRunsKeeps(s: string, inRun: char -> bool, keep: char -> bool)
    requires !keep(' ') && forall c :: keep(c) ==> !inRun(c)
    ensures Kept(CollapseRuns(s, inRun), keep) == Kept(s, keep)
    decreases |s|
  {
    if s != [] {
      if inRun(s[0]) {
        var n := RunLength(s, inRun);
        var rest := CollapseRuns(s[n..], inRun);
        assert (" " + rest)[1..] == rest;
        CollapseRunsKeeps(s[n..], inRun, keep);
        KeptSkipsRun(s, n, keep);
      } else {
        var rest := CollapseRuns(s[1..], inRun);
        assert ([s[0]] + rest)[1..] == rest;
        CollapseRunsKeeps(s[1..], inRun, keep);
      }
    }
  }

  /** Stripping removes only whitespace. */
  lemma SplitAt(s: string, k: nat)
    requires k <= |s|
    ensures s[..k] + s[k..] == s
  {
  }

  /** A run of whitespace keeps nothing, when no whitespace is kept. */
  lemma SpacesNotKept(s: string, n: nat, keep: char -> bool)
    requires forall c :: keep(c) ==> !IsSpace(c)
    requires n <= |s| && forall i :: 0 <= i < n ==> IsSpace(s[i])
    ensures forall i :: 0 <= i < n ==> !keep(s[i])
  {
  }

  lemma LStripKeeps(s: string, keep: char -> bool)
    requires forall c :: keep(c) ==> !IsSpace(c)
    ensures Kept(LStrip(s), keep) == Kept(s, keep)
  {
    var n := |s| - |LStrip(s)|;
    SpacesNotKept(s, n, keep);
    KeptSkipsRun(s, n, keep);
  }

  lemma RStripKeeps(l: string, keep: char -> bool)
    requires forall c :: keep(c) ==> !IsSpace(c)
    ensures Kept(RStrip(l), keep) == Kept(l, keep)
  {
    var r := RStrip(l);
    var tail := l[|r|..];
    assert forall i :: 0 <= i < |tail| ==> tail[i] == l[|r| + i];
    SpacesNotKept(tail, |tail|, keep);
    KeptSkipsRun(tail, |tail|, keep);
    SplitAt(l, |r|);
    KeptAppend(r, tail, keep);
  }

  lemma StripKeeps(s: string, keep: char -> bool)
    requires forall c :: keep(c) ==> !IsSpace(c)
    ensures Kept(Strip(s), keep) == Kept(s, keep)
  {
    LStripKeeps(s, keep);
    RStripKeeps(LStrip(s), keep);
  }

  /** A string without leading or trailing whitespace is its own `strip()`. */
  lemma StripOfStripped(s: string)
    requires s == [] || (!IsSpace(s[0]) && !IsSpace(s[|s| - 1]))
    ensures Strip(s) == s
  {
  }

  /** `strip()` is idempotent. */
  lemma StripIdempotent(s: string)
    ensures Strip(Strip(s)) == Strip(s)
  {
    StripOfStripped(Strip(s));
  }

  /** A join starts with its first part and ends with its last. */
  lemma {:induction false} JoinEnds(sep: string, parts: seq<string>)
    requires parts != []
    ensures StartsWith(Join(sep, parts), parts[0])
    ensures EndsWith(Join(sep, parts), parts[|parts| - 1])
  {
    if |parts| > 1 {
      JoinEnds(sep, parts[1..]);
      var j := Join(sep, parts);
      var rest := Join(sep, parts[1..]);
      var last := parts[|parts| - 1];
      assert j == parts[0] + sep + rest;
      assert j[|j| - |last|..] == rest[|rest| - |last|..];
    }
  }
  /** A text none of whose characters is kept keeps nothing. */
  lemma KeptNone(s: string, keep: char -> bool)
    requires forall i :: 0 <= i < |s| ==> !keep(s[i])
    ensures Kept(s, keep) == []
  {
    KeptSkipsRun(s, |s|, keep);
  }

  /** A text all of whose characters are kept is kept whole. */
  lemma {:induction false} KeptAll(s: string, keep: char -> bool)
    requires forall i :: 0 <= i < |s| ==> keep(s[i])
    ensures Kept(s, keep) == s
  {
    if s != [] {
      KeptAll(s[1..], keep);
    }
  }

  /** Any contiguous part of a text with collapsed runs has collapsed runs. */
  lemma RunsCollapsedSlice(s: string, a: nat, b: nat, inRun: char -> bool)
    requires a <= b <= |s| && RunsCollapsed(s, inRun)
    ensures RunsCollapsed(s[a..b], inRun)
  {
    var r := s[a..b];
    forall k | 0 <= k < |r| && inRun(r[k]) ensures r[k] == ' ' && (k + 1 == |r| || !inRun(r[k + 1])) {
      assert r[k] == s[a + k];
      if k + 1 < |r| {
        assert r[k + 1] == s[a + k + 1];
      }
    }
  }
  /** Joining two texts with collapsed runs by one character keeps the runs collapsed, as
      long as a class character used as the joint is a space between two others. */
  lemma JoinCollapsed(a: string, c: char, b: string, inRun: char -> bool)
    requires RunsCollapsed(a, inRun) && RunsCollapsed(b, inRun)
    requires inRun(c) ==> c == ' ' && (a == [] || !inRun(a[|a| - 1])) && (b == [] || !inRun(b[0]))
    ensures RunsCollapsed(a + [c] + b, inRun)
  {
    var s := a + [c] + b;
    forall i | 0 <= i < |s| && inRun(s[i]) ensures s[i] == ' ' && (i + 1 == |s| || !inRun(s[i + 1])) {
      if i < |a| {
        assert s[i] == a[i];
        if i + 1 < |a| { assert s[i + 1] == a[i + 1]; }
      } else if i > |a| {
        assert s[i] == b[i - |a| - 1];
        if i + 1 < |s| { assert s[i + 1] == b[i - |a|]; }
      } else if i + 1 < |s| {
        assert s[i + 1] == b[0];
      }
    }
  }

  /** Keeping a narrower class after a wider one is keeping the narrower one. */
  lemma {:induction false} KeptOfKept(s: string, wide: char -> bool, narrow: char -> bool)
    requires forall c :: narrow(c) ==> wide(c)
    ensures Kept(Kept(s, wide), narrow) == Kept(s, narrow)
  {
    if s != [] {
      KeptOfKept(s[1..], wide, narrow);
      var head := if wide(s[0]) then [s[0]] else [];
      KeptAppend(head, Kept(s[1..], wide), narrow);
    }
  }

  /** A leading run of `p` characters followed by one that is not. */
  lemma {:induction false} RunLengthPrefix(a: string, b: string, p: char -> bool)
    requires forall i :: 0 <= i < |a| ==> p(a[i])
    requires b == [] || !p(b[0])
    ensures RunLength(a + b, p) == |a|
  {
    if a != [] {
      assert (a + b)[0] == a[0] && (a + b)[1..] == a[1..] + b;
      RunLengthPrefix(a[1..], b, p);
    } else {
      assert a + b == b;
    }
  }
}
