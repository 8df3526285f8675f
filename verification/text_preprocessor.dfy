/** The PDF text cleaner (main/utils/text_preprocessor.py): `fix_pdf_symbols` spells the
    fraction glyphs out in ASCII, unifies the dash variants and collapses blank runs;
    `merge_split_tokens` (and its twin `recover_fraction_lines`) glues split fractions back
    together; `preprocess_text` chains them with the bullet and line-break rewrites and a
    final blank collapse and strip. The bullet and line-break rewrites in the middle of
    `preprocess_text` are the parameter `middle`. */
module TextPreprocessor {
  import opened PyStr

  // ---------------------------------------------------------------------------------
  // fix_pdf_symbols

  /** `FRACTION_MAP`, in its insertion order (the order the loop visits it). */
  const FractionMap: seq<(char, string)> := [
    ('\U{00BC}', "1/4"), ('\U{00BD}', "1/2"), ('\U{00BE}', "3/4"),
    ('\U{2153}', "1/3"), ('\U{2154}', "2/3"), ('\U{215B}', "1/8"),
    ('\U{215C}', "3/8"), ('\U{215D}', "5/8"), ('\U{215E}', "7/8")]

  /** The glyphs a replacement table replaces. */
  function Glyphs(pairs: seq<(char, string)>): set<char> {
    set p | p in pairs :: p.0
  }

  /** Every glyph lies outside ASCII and every replacement is ASCII. */
  ghost predicate AsciiReplacements(pairs: seq<(char, string)>) {
    forall p :: p in pairs ==> p.0 as int >= 128 && forall c :: c in p.1 ==> (c as int) < 128
  }

  lemma FractionMapIsAscii()
    ensures AsciiReplacements(FractionMap)
  {
  }

  /** No glyph appears twice in the table: each is new at its turn. */
  lemma GlyphsDistinct(k: nat)
    requires k < |FractionMap|
    ensures FractionMap[k].0 !in Glyphs(FractionMap[..k])
  {
    assert forall j :: 0 <= j < k ==> FractionMap[j].0 < FractionMap[k].0;
    forall p | p in FractionMap[..k] ensures p.0 != FractionMap[k].0 {
      var j :| 0 <= j < k && FractionMap[..k][j] == p;
    }
  }

  /** The loop over the table: each glyph that occurs in the text at its turn is replaced
      by its ASCII spelling. */
  function ReplaceFractions(text: string, pairs: seq<(char, string)>): string {
    if pairs == [] then text
    else
      var t := ReplaceFractions(text, pairs[..|pairs| - 1]);
      var (glyph, ascii) := pairs[|pairs| - 1];
      if glyph in t then ReplaceChar(t, glyph, ascii) else t
  }

  /** The glyphs of the table that occur in the text, in table order: the list
      `fix_pdf_symbols` logs. */
  function GlyphsIn(text: string, pairs: seq<(char, string)>): seq<char> {
    if pairs == [] then []
    else GlyphsIn(text, pairs[..|pairs| - 1]) + (if pairs[|pairs| - 1].0 in text then [pairs[|pairs| - 1].0] else [])
  }

  lemma {:induction false} NoGlyphsInEmpty(pairs: seq<(char, string)>)
    ensures GlyphsIn([], pairs) == []
  {
    if pairs != [] {
      NoGlyphsInEmpty(pairs[..|pairs| - 1]);
    }
  }

  /** The dash class `[‐-–—]`: a range from U+2010 to U+2013, and U+2014. */
  predicate IsDash(c: char) { '\U{2010}' <= c <= '\U{2014}' }

  /** `re.sub(r"[‐-–—]", "-", text)` */
  function NormalizeDashes(s: string): (r: string)
    ensures |r| == |s| && forall i :: 0 <= i < |s| ==> r[i] == if IsDash(s[i]) then '-' else s[i]
  {
    if s == [] then [] else [if IsDash(s[0]) then '-' else s[0]] + NormalizeDashes(s[1..])
  }

  /** What `fix_pdf_symbols` returns. */
  function FixedPdfSymbols(text: string): string {
    if text == [] then text
    else CollapseBlanks(NormalizeDashes(ReplaceFractions(text, FractionMap)))
  }

  /** `fix_pdf_symbols`: the cleaned text, and the glyphs it replaced (which the source
      only logs). */
  method FixPdfSymbols(text: string) returns (r: string, replaced: seq<char>)
    ensures r == FixedPdfSymbols(text)
    ensures replaced == GlyphsIn(text, FractionMap)
    ensures text == [] ==> r == text && replaced == []
  {
    if text == [] {
      NoGlyphsInEmpty(FractionMap);
      return text, [];
    }
    r, replaced := text, [];
    for k := 0 to |FractionMap|
      invariant r == ReplaceFractions(text, FractionMap[..k])
      invariant replaced == GlyphsIn(text, FractionMap[..k])
    {
      var (glyph, ascii) := FractionMap[k];
      FractionStep(text, k);
      if glyph in r {
        r := ReplaceChar(r, glyph, ascii);
        replaced := replaced + [glyph];
      }
    }
    assert FractionMap[..|FractionMap|] == FractionMap;
    r := NormalizeDashes(r);
    r := CollapseBlanks(r);
  }

  /** One turn of the loop: the glyph is replaced, and logged, exactly when it occurs in
      the original text. */
  lemma FractionStep(text: string, k: nat)
    requires k < |FractionMap|
    ensures var (glyph, ascii) := FractionMap[k];
      var t := ReplaceFractions(text, FractionMap[..k]);
      (glyph in t <==> glyph in text) &&
      ReplaceFractions(text, FractionMap[..k + 1]) == (if glyph in t then ReplaceChar(t, glyph, ascii) else t) &&
      GlyphsIn(text, FractionMap[..k + 1]) == GlyphsIn(text, FractionMap[..k]) + (if glyph in text then [glyph] else [])
  {
    FractionMapIsAscii();
    assert FractionMap[..k + 1][..k] == FractionMap[..k];
    GlyphsDistinct(k);
    LaterGlyphUntouched(text, FractionMap, k);
  }

  /** The table looked up for one character: the first replacement for a glyph, the
      character itself otherwise. */
  function Spelled(pairs: seq<(char, string)>, c: char): string {
    if pairs == [] then [c] else if pairs[0].0 == c then pairs[0].1 else Spelled(pairs[1..], c)
  }

  /** Every character of the text replaced by its spelling: the reference definition of
      the replacement loop. */
  function Expand(s: string, pairs: seq<(char, string)>): string {
    if s == [] then [] else Spelled(pairs, s[0]) + Expand(s[1..], pairs)
  }

  lemma {:induction false} SpelledShape(pairs: seq<(char, string)>, c: char)
    requires AsciiReplacements(pairs)
    ensures c in Glyphs(pairs) ==> forall x :: x in Spelled(pairs, c) ==> (x as int) < 128
    ensures c !in Glyphs(pairs) ==> Spelled(pairs, c) == [c]
    ensures c in Glyphs(pairs) ==> c as int >= 128
  {
    if pairs != [] {
      assert pairs[0] in pairs;
      assert forall p :: p in pairs[1..] ==> p in pairs;
      assert Glyphs(pairs) == {pairs[0].0} + Glyphs(pairs[1..]) by {
        assert pairs == [pairs[0]] + pairs[1..];
      }
      SpelledShape(pairs[1..], c);
    }
  }

  lemma {:induction false} SpelledSnoc(pairs: seq<(char, string)>, p: (char, string), c: char)
    ensures Spelled(pairs + [p], c) ==
      if c in Glyphs(pairs) then Spelled(pairs, c) else if c == p.0 then p.1 else [c]
  {
    if pairs == [] {
      assert Glyphs(pairs) == {};
    } else {
      assert (pairs + [p])[1..] == pairs[1..] + [p];
      assert Glyphs(pairs) == {pairs[0].0} + Glyphs(pairs[1..]) by {
        assert pairs == [pairs[0]] + pairs[1..];
      }
      SpelledSnoc(pairs[1..], p, c);
    }
  }

  /** Replacing the next glyph of the table in the expansion by the earlier entries gives
      the expansion by the table extended with it. */
  lemma {:induction false} ExpandSnoc(s: string, pairs: seq<(char, string)>, p: (char, string))
    requires AsciiReplacements(pairs + [p])
    ensures ReplaceChar(Expand(s, pairs), p.0, p.1) == Expand(s, pairs + [p])
  {
    if s != [] {
      assert AsciiReplacements(pairs) by {
        assert forall q :: q in pairs ==> q in pairs + [p];
      }
      assert p in pairs + [p];
      var head := Spelled(pairs, s[0]);
      ReplaceCharAppend(head, Expand(s[1..], pairs), p.0, p.1);
      ExpandSnoc(s[1..], pairs, p);
      SpelledShape(pairs, s[0]);
      SpelledSnoc(pairs, p, s[0]);
      if s[0] in Glyphs(pairs) {
        assert p.0 !in head;
        ReplaceCharAbsent(head, p.0, p.1);
      } else {
        assert head == [s[0]];
        assert ReplaceChar(head, p.0, p.1) == (if s[0] == p.0 then p.1 else [s[0]]) + ReplaceChar([], p.0, p.1);
      }
    }
  }

  lemma {:induction false} ExpandNothing(s: string)
    ensures Expand(s, []) == s
  {
    if s != [] {
      ExpandNothing(s[1..]);
    }
  }

  /** The replacement loop spells every glyph of the table out and leaves every other
      character as it is. */
  lemma {:induction false} ReplaceFractionsIsExpand(s: string, pairs: seq<(char, string)>)
    requires AsciiReplacements(pairs)
    ensures ReplaceFractions(s, pairs) == Expand(s, pairs)
  {
    if pairs == [] {
      ExpandNothing(s);
    } else {
      var init, p := pairs[..|pairs| - 1], pairs[|pairs| - 1];
      assert pairs == init + [p];
      assert AsciiReplacements(init) by {
        assert forall q :: q in init ==> q in pairs;
      }
      ReplaceFractionsIsExpand(s, init);
      ExpandSnoc(s, init, p);
      var t := ReplaceFractions(s, init);
      if p.0 !in t {
        ReplaceCharAbsent(t, p.0, p.1);
      }
    }
  }

  /** The expansion holds no glyph of the table. */
  lemma {:induction false} ExpandHasNoGlyph(s: string, pairs: seq<(char, string)>)
    requires AsciiReplacements(pairs)
    ensures forall c :: c in Expand(s, pairs) ==> c !in Glyphs(pairs)
  {
    if s != [] {
      ExpandHasNoGlyph(s[1..], pairs);
      SpelledShape(pairs, s[0]);
      forall c | c in Spelled(pairs, s[0]) ensures c !in Glyphs(pairs) {
        SpelledShape(pairs, c);
      }
    }
  }

  /** A character that is neither a glyph nor part of a replacement is in the expansion
      exactly when it is in the text. */
  lemma {:induction false} ExpandMembership(s: string, pairs: seq<(char, string)>, c: char)
    requires AsciiReplacements(pairs) && c !in Glyphs(pairs) && c as int >= 128
    ensures c in Expand(s, pairs) <==> c in s
  {
    if s != [] {
      ExpandMembership(s[1..], pairs, c);
      SpelledShape(pairs, s[0]);
      assert s == [s[0]] + s[1..];
    }
  }

  /** A text without glyphs is its own expansion. */
  lemma {:induction false} ExpandIdentity(s: string, pairs: seq<(char, string)>)
    requires AsciiReplacements(pairs)
    requires forall c :: c in s ==> c !in Glyphs(pairs)
    ensures Expand(s, pairs) == s
  {
    if s != [] {
      assert s[0] in s;
      SpelledShape(pairs, s[0]);
      assert forall c :: c in s[1..] ==> c in s;
      ExpandIdentity(s[1..], pairs);
    }
  }

  /** A glyph later in the table is untouched by the earlier replacements: it is in the
      text at its turn exactly when it was in the original. */
  lemma LaterGlyphUntouched(text: string, pairs: seq<(char, string)>, k: nat)
    requires AsciiReplacements(pairs) && k < |pairs|
    requires pairs[k].0 !in Glyphs(pairs[..k])
    ensures pairs[k].0 in ReplaceFractions(text, pairs[..k]) <==> pairs[k].0 in text
  {
    assert pairs[k] in pairs;
    assert AsciiReplacements(pairs[..k]) by {
      assert forall q :: q in pairs[..k] ==> q in pairs;
    }
    ReplaceFractionsIsExpand(text, pairs[..k]);
    ExpandMembership(text, pairs[..k], pairs[k].0);
  }

  /** The characters that stand in for glyphs. */
  function Replacements(pairs: seq<(char, string)>): set<char> {
    set p, c | p in pairs && c in p.1 :: c
  }

  /** Characters other than glyphs and their replacements survive the expansion, in
      order. */
  lemma {:induction false} ExpandKeeps(s: string, pairs: seq<(char, string)>, keep: char -> bool)
    requires AsciiReplacements(pairs)
    requires forall c :: keep(c) ==> c !in Glyphs(pairs) && c !in Replacements(pairs)
    ensures Kept(Expand(s, pairs), keep) == Kept(s, keep)
  {
    if s != [] {
      var head := Spelled(pairs, s[0]);
      KeptAppend(head, Expand(s[1..], pairs), keep);
      ExpandKeeps(s[1..], pairs, keep);
      SpelledShape(pairs, s[0]);
      if s[0] in Glyphs(pairs) {
        SpelledIsReplacement(pairs, s[0]);
        KeptNone(head, keep);
      }
    }
  }

  lemma {:induction false} SpelledIsReplacement(pairs: seq<(char, string)>, c: char)
    requires c in Glyphs(pairs)
    ensures forall x :: x in Spelled(pairs, c) ==> x in Replacements(pairs)
  {
    assert pairs == [pairs[0]] + pairs[1..];
    if pairs[0].0 != c {
      assert Glyphs(pairs) == {pairs[0].0} + Glyphs(pairs[1..]);
      SpelledIsReplacement(pairs[1..], c);
      assert forall q :: q in pairs[1..] ==> q in pairs;
    } else {
      assert pairs[0] in pairs;
    }
  }

  lemma {:induction false} DashesKeep(s: string, keep: char -> bool)
    requires forall c :: keep(c) ==> !IsDash(c) && c != '-'
    ensures Kept(NormalizeDashes(s), keep) == Kept(s, keep)
  {
    if s != [] {
      DashesKeep(s[1..], keep);
    }
  }

  lemma {:induction false} DashesIdentity(s: string)
    requires forall c :: c in s ==> !IsDash(c)
    ensures NormalizeDashes(s) == s
  {
    if s != [] {
      assert s[0] in s;
      assert forall c :: c in s[1..] ==> c in s;
      DashesIdentity(s[1..]);
    }
  }

  /** The shape of the cleaned text: no glyph of the table and no dash variant remains,
      and every run of spaces and tabs is a single space; any other whitespace, newlines
      included, stays. */
  lemma FixedShape(text: string)
    ensures forall c :: c in FixedPdfSymbols(text) ==> c !in Glyphs(FractionMap) && !IsDash(c)
    ensures RunsCollapsed(FixedPdfSymbols(text), IsBlankChar)
  {
    if text != [] {
      FractionMapIsAscii();
      var e := ReplaceFractions(text, FractionMap);
      ReplaceFractionsIsExpand(text, FractionMap);
      ExpandHasNoGlyph(text, FractionMap);
      var d := NormalizeDashes(e);
      assert forall c :: c in d ==> c !in Glyphs(FractionMap) && !IsDash(c) by {
        forall c | c in d ensures c !in Glyphs(FractionMap) && !IsDash(c) {
          var i :| 0 <= i < |d| && d[i] == c;
          assert e[i] in e;
          SpelledShape(FractionMap, '-');
        }
      }
      CollapseRunsAddsOnlySpaces(d, IsBlankChar);
      SpelledShape(FractionMap, ' ');
      CollapseRunsCollapsed(d, IsBlankChar);
    } else {
      assert forall c :: c !in FixedPdfSymbols(text);
    }
  }

  /** The replacement loop is the per-character spelling of `FRACTION_MAP`: every glyph
      becomes its ASCII fraction, every other character stays. */
  lemma FixSpellsFractions(text: string)
    requires text != []
    ensures FixedPdfSymbols(text) == CollapseBlanks(NormalizeDashes(Expand(text, FractionMap)))
  {
    FractionMapIsAscii();
    ReplaceFractionsIsExpand(text, FractionMap);
  }

  /** Every character that is not a glyph, a digit or slash of a replacement, a dash,
      a hyphen, a space or a tab survives, in order: in particular every newline. */
  lemma FixKeeps(text: string, keep: char -> bool)
    requires forall c :: keep(c) ==> c !in Glyphs(FractionMap) && c !in Replacements(FractionMap)
    requires forall c :: keep(c) ==> !IsDash(c) && c != '-' && !IsBlankChar(c)
    ensures Kept(FixedPdfSymbols(text), keep) == Kept(text, keep)
  {
    if text != [] {
      FractionMapIsAscii();
      var e := ReplaceFractions(text, FractionMap);
      ReplaceFractionsIsExpand(text, FractionMap);
      ExpandKeeps(text, FractionMap, keep);
      DashesKeep(e, keep);
      CollapseRunsKeeps(NormalizeDashes(e), IsBlankChar, keep);
    }
  }

  /** Newlines are never touched: the text's line structure is kept. */
  lemma FixKeepsNewlines(text: string)
    ensures Kept(FixedPdfSymbols(text), IsNewline) == Kept(text, IsNewline)
  {
    assert '\n' !in Replacements(FractionMap);
    FixKeeps(text, IsNewline);
  }

  /** `fix_pdf_symbols` is idempotent. */
  lemma FixIdempotent(text: string)
    ensures FixedPdfSymbols(FixedPdfSymbols(text)) == FixedPdfSymbols(text)
  {
    var u := FixedPdfSymbols(text);
    if u != [] {
      FixedShape(text);
      FractionMapIsAscii();
      ReplaceFractionsIsExpand(u, FractionMap);
      ExpandIdentity(u, FractionMap);
      DashesIdentity(u);
      CollapseRunsIdentity(u, IsBlankChar);
    }
  }

  // ---------------------------------------------------------------------------------
  // merge_split_tokens / recover_fraction_lines

  /** `\b<lead>\s+<tail>` at position `i` of `s`: the length of the match, 0 when there is
      none. The word boundary looks at the character before `i` in `s` itself; the
      whitespace run is maximal, since `tail` does not start with whitespace. */
  function SplitTokenAt(s: string, i: nat, lead: char, tail: string): (n: nat)
    requires i <= |s|
    ensures n == 0 || (n >= 2 + |tail| && i + n <= |s|)
  {
    if i < |s| && s[i] == lead && (i == 0 || !IsWordChar(s[i - 1])) then
      var spaces := RunLength(s[i + 1..], IsSpace);
      if spaces >= 1 && OccursAt(s, tail, i + 1 + spaces) then 1 + spaces + |tail| else 0
    else 0
  }

  /** `re.sub(r"\b<lead>\s+<tail>", rep, s)` from position `i` on: a left-to-right scan
      replacing each non-overlapping match. A replacement no longer than the shortest
      match never lengthens the text. */
  function SubSplitFrom(s: string, i: nat, lead: char, tail: string, rep: string): (r: string)
    requires i <= |s|
    ensures |rep| <= 2 + |tail| ==> |r| <= |s| - i
    decreases |s| - i
  {
    if i == |s| then []
    else
      var n := SplitTokenAt(s, i, lead, tail);
      if n > 0 then rep + SubSplitFrom(s, i + n, lead, tail, rep)
      else [s[i]] + SubSplitFrom(s, i + 1, lead, tail, rep)
  }

  function SubSplit(s: string, lead: char, tail: string, rep: string): string {
    SubSplitFrom(s, 0, lead, tail, rep)
  }

  /** `merge_split_tokens`: "1 1/4\"" to "1¼\"", "1 1/2\"" to "1½\"", "3 4\"" to "¾\"". */
  function MergeSplitTokens(text: string): string {
    var t := SubSplit(text, '1', "1/4\"", "1\U{00BC}\"");
    var t := SubSplit(t, '1', "1/2\"", "1\U{00BD}\"");
    SubSplit(t, '3', "4\"", "\U{00BE}\"")
  }

  /** `recover_fraction_lines`: the same three substitutions. */
  function RecoverFractionLines(text: string): string {
    var t := SubSplit(text, '1', "1/4\"", "1\U{00BC}\"");
    var t := SubSplit(t, '1', "1/2\"", "1\U{00BD}\"");
    SubSplit(t, '3', "4\"", "\U{00BE}\"")
  }

  /** Where the pattern matches nowhere, the text is unchanged. */
  lemma {:induction false} SubSplitNoMatch(s: string, i: nat, lead: char, tail: string, rep: string)
    requires i <= |s| && forall j :: i <= j < |s| ==> SplitTokenAt(s, j, lead, tail) == 0
    ensures SubSplitFrom(s, i, lead, tail, rep) == s[i..]
    decreases |s| - i
  {
    if i < |s| {
      SubSplitNoMatch(s, i + 1, lead, tail, rep);
      assert s[i..] == [s[i]] + s[i + 1..];
    }
  }

  /** Without the leading digit the pattern cannot match. */
  lemma NoLeadNoMatch(s: string, lead: char, tail: string, rep: string)
    requires lead !in s
    ensures SubSplit(s, lead, tail, rep) == s
  {
    forall j | 0 <= j < |s| ensures SplitTokenAt(s, j, lead, tail) == 0 {
      assert s[j] in s;
    }
    SubSplitNoMatch(s, 0, lead, tail, rep);
  }

  /** The merge never lengthens the text, and leaves text without the digits 1 and 3
      alone. */
  lemma MergeSplitTokensShrinks(text: string)
    ensures |MergeSplitTokens(text)| <= |text|
    ensures '1' !in text && '3' !in text ==> MergeSplitTokens(text) == text
  {
    var t1 := SubSplit(text, '1', "1/4\"", "1\U{00BC}\"");
    var t2 := SubSplit(t1, '1', "1/2\"", "1\U{00BD}\"");
    if '1' !in text && '3' !in text {
      NoLeadNoMatch(text, '1', "1/4\"", "1\U{00BC}\"");
      NoLeadNoMatch(t1, '1', "1/2\"", "1\U{00BD}\"");
      NoLeadNoMatch(t2, '3', "4\"", "\U{00BE}\"");
    }
  }

  /** `recover_fraction_lines` and `merge_split_tokens` agree on every text. */
  lemma RecoverIsMerge(text: string)
    ensures RecoverFractionLines(text) == MergeSplitTokens(text)
  {
  }

  lemma SpelledAscii(c: char)
    requires (c as int) < 128
    ensures Spelled(FractionMap, c) == [c]
  {
    FractionMapIsAscii();
    SpelledShape(FractionMap, c);
  }

  /** The spelling of a split "1 ½\"". */
  lemma SplitHalfExpands()
    ensures Expand("1 \U{00BD}\"", FractionMap) == "1 1/2\""
  {
    var s := "1 \U{00BD}\"";
    SpelledAscii('1');
    SpelledAscii(' ');
    SpelledAscii('"');
    assert Spelled(FractionMap, '\U{00BD}') == "1/2";
    assert Expand(s[4..], FractionMap) == [];
    assert Expand(s[3..], FractionMap) == "\"";
    assert Expand(s[2..], FractionMap) == "1/2\"";
    assert Expand(s[1..], FractionMap) == " 1/2\"";
  }

  lemma SpelledHalfHasNoDash()
    ensures NormalizeDashes("1 1/2\"") == "1 1/2\""
  {
    var t := "1 1/2\"";
    assert NormalizeDashes(t[5..]) == "\"";
    assert NormalizeDashes(t[4..]) == "2\"";
    assert NormalizeDashes(t[3..]) == "/2\"";
    assert NormalizeDashes(t[2..]) == "1/2\"";
    assert NormalizeDashes(t[1..]) == " 1/2\"";
  }

  lemma SpelledHalfHasNoBlankRun()
    ensures CollapseBlanks("1 1/2\"") == "1 1/2\""
  {
    var t := "1 1/2\"";
    assert CollapseRuns(t[6..], IsBlankChar) == [];
    assert t[5..][1..] == t[6..];
    assert CollapseRuns(t[5..], IsBlankChar) == "\"";
    assert CollapseRuns(t[4..], IsBlankChar) == "2\"";
    assert CollapseRuns(t[3..], IsBlankChar) == "/2\"";
    assert CollapseRuns(t[2..], IsBlankChar) == "1/2\"";
    assert RunLength(t[1..], IsBlankChar) == 1;
    assert CollapseRuns(t[1..], IsBlankChar) == " 1/2\"";
  }

  /** `fix_pdf_symbols` spells a split "1 ½\"" out as "1 1/2\"". */
  lemma FixSpellsSplitHalf()
    ensures FixedPdfSymbols("1 \U{00BD}\"") == "1 1/2\""
  {
    FixSpellsFractions("1 \U{00BD}\"");
    SplitHalfExpands();
    SpelledHalfHasNoDash();
    SpelledHalfHasNoBlankRun();
  }

  /** The quarter pattern does not match "1 1/2\"". */
  lemma QuarterMissesHalf()
    ensures SubSplit("1 1/2\"", '1', "1/4\"", "1\U{00BC}\"") == "1 1/2\""
  {
    var t := "1 1/2\"";
    forall j | 0 <= j < |t| ensures SplitTokenAt(t, j, '1', "1/4\"") == 0 {
      if j == 0 {
        assert RunLength(t[1..], IsSpace) == 1;
        assert !OccursAt(t, "1/4\"", 2) by { assert t[4] != "1/4\""[2]; }
      }
    }
    SubSplitNoMatch(t, 0, '1', "1/4\"", "1\U{00BC}\"");
  }

  /** The half pattern matches all of "1 1/2\"". */
  lemma HalfJoinsHalf()
    ensures SubSplit("1 1/2\"", '1', "1/2\"", "1\U{00BD}\"") == "1\U{00BD}\""
  {
    var t := "1 1/2\"";
    assert RunLength(t[1..], IsSpace) == 1;
    assert OccursAt(t, "1/2\"", 2);
    assert SplitTokenAt(t, 0, '1', "1/2\"") == 6;
  }

  /** `merge_split_tokens` joins "1 1/2\"" back into "1½\"": after `fix_pdf_symbols` has
      spelled the glyph out, the merge brings it back. */
  lemma MergeJoinsSplitHalf()
    ensures MergeSplitTokens("1 1/2\"") == "1\U{00BD}\""
  {
    QuarterMissesHalf();
    HalfJoinsHalf();
    var u := "1\U{00BD}\"";
    assert '3' !in u;
    NoLeadNoMatch(u, '3', "4\"", "\U{00BE}\"");
  }

  /** The word boundary matters: in "11 1/4\"" neither "1" starts a match. */
  lemma BoundaryBlocksMerge()
    ensures SubSplit("11 1/4\"", '1', "1/4\"", "1\U{00BC}\"") == "11 1/4\""
  {
    var t := "11 1/4\"";
    forall j | 0 <= j < |t| ensures SplitTokenAt(t, j, '1', "1/4\"") == 0 {
      if j == 0 {
        assert RunLength(t[1..], IsSpace) == 0;
      }
    }
    SubSplitNoMatch(t, 0, '1', "1/4\"", "1\U{00BC}\"");
  }

  // ---------------------------------------------------------------------------------
  // preprocess_text

  /** `preprocess_text`: the PDF fixes, the merge of split fractions, the bullet and
      line-break rewrites (`middle`), then the blank runs collapsed and the ends
      stripped. */
  function PreprocessText(text: string, middle: string -> string): string {
    Strip(CollapseBlanks(middle(MergeSplitTokens(FixedPdfSymbols(text)))))
  }

  /** The cleaned text has no whitespace at either end, no tab, and no two spaces
      together, whatever the middle rewrites do. */
  lemma PreprocessedShape(text: string, middle: string -> string)
    ensures var r := PreprocessText(text, middle);
      (r == [] || (!IsSpace(r[0]) && !IsSpace(r[|r| - 1]))) &&
      '\t' !in r && forall i :: 0 <= i && i + 1 < |r| ==> !(r[i] == ' ' && r[i + 1] == ' ')
  {
    var c := CollapseBlanks(middle(MergeSplitTokens(FixedPdfSymbols(text))));
    CollapseRunsCollapsed(middle(MergeSplitTokens(FixedPdfSymbols(text))), IsBlankChar);
    var a, b := StripIsSlice(c);
    RunsCollapsedSlice(c, a, b, IsBlankChar);
  }
}
