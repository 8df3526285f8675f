/** Neighbour merging of retrieval results (main/retrieval/rerankers/merge_utils.py): each
    result text is located in the list of chunks, the distinct positions are visited in
    ascending order, and every position not yet covered emits the "\n"-joined window of
    chunks around it.

    With proximity merging the source starts `last_end` at -1, so a first window that
    begins at position 0 or 1 gets the slice start -1, which Python reads as the last
    position: that window loses its text. The model keeps the code as written (the
    method and `corrected == false`) next to the evidently intended reading
    (`corrected == true`, proximity merging only after a first window). */
module MergeUtils {
  import opened Wrappers
  import opened PyStr
  import opened PySeq

  /** `lst.index(x)`: the first position holding `x`; `None` stands for the ValueError
      raised when `x` is absent. */
  function IndexOf(s: seq<string>, x: string): (r: Option<nat>)
    ensures r.Some? ==> r.value < |s| && s[r.value] == x && forall j :: 0 <= j < r.value ==> s[j] != x
    ensures r.None? <==> x !in s
  {
    if s == [] then None
    else if s[0] == x then Some(0)
    else match IndexOf(s[1..], x)
      case None => None
      case Some(i) => Some(i + 1)
  }

  /** The positions of the result texts found among the chunks, in result order; a text
      that is absent is skipped. */
  function Found(results: seq<(string, real)>, chunks: seq<string>): (r: seq<nat>)
    ensures |r| <= |results|
    ensures forall i :: 0 <= i < |r| ==> r[i] < |chunks|
  {
    if results == [] then []
    else
      var last := results[|results| - 1];
      Found(results[..|results| - 1], chunks) + (match IndexOf(chunks, last.0) case None => [] case Some(i) => [i])
  }

  /** Position `i` is found exactly when some result's text first occurs there. */
  lemma {:induction false} FoundMember(results: seq<(string, real)>, chunks: seq<string>, i: nat)
    ensures i in Found(results, chunks) <==>
      exists k :: 0 <= k < |results| && IndexOf(chunks, results[k].0) == Some(i)
    decreases |results|
  {
    if results != [] {
      FoundMember(results[..|results| - 1], chunks, i);
      FoundLast(results, chunks, i);
      SomeResultLast(results, results[..|results| - 1], chunks, i);
    }
  }

  /** The last result adds its own position, if its text is found, to those of the
      results before it. */
  lemma FoundLast(results: seq<(string, real)>, chunks: seq<string>, i: nat)
    requires results != []
    ensures i in Found(results, chunks) <==>
      i in Found(results[..|results| - 1], chunks) || IndexOf(chunks, results[|results| - 1].0) == Some(i)
  {
  }

  /** Some result's text first occurs at `i` exactly when the last one's does or one
      before it does. */
  lemma SomeResultLast(results: seq<(string, real)>, init: seq<(string, real)>, chunks: seq<string>, i: nat)
    requires results != [] && init == results[..|results| - 1]
    ensures (exists k :: 0 <= k < |results| && IndexOf(chunks, results[k].0) == Some(i)) <==>
      (exists k :: 0 <= k < |init| && IndexOf(chunks, init[k].0) == Some(i)) ||
      IndexOf(chunks, results[|results| - 1].0) == Some(i)
  {
    var n := |results| - 1;
    if exists k :: 0 <= k < |results| && IndexOf(chunks, results[k].0) == Some(i) {
      var k :| 0 <= k < |results| && IndexOf(chunks, results[k].0) == Some(i);
      if k < n {
        assert init[k] == results[k];
      }
    }
    if exists k :: 0 <= k < |init| && IndexOf(chunks, init[k].0) == Some(i) {
      var k :| 0 <= k < |init| && IndexOf(chunks, init[k].0) == Some(i);
      assert results[k] == init[k];
    }
  }

  /** A position is found exactly when some result's text first occurs there. */
  lemma FoundMembership(results: seq<(string, real)>, chunks: seq<string>)
    ensures forall i :: i in Found(results, chunks) <==>
      exists k :: 0 <= k < |results| && IndexOf(chunks, results[k].0) == Some(i)
  {
    forall i: nat ensures i in Found(results, chunks) <==>
      exists k :: 0 <= k < |results| && IndexOf(chunks, results[k].0) == Some(i)
    {
      FoundMember(results, chunks, i);
    }
  }

  /** `sorted(set(s))` for a set of positions below `n`: the members in ascending order. */
  function Ascending(s: set<nat>, n: nat): (r: seq<nat>)
    ensures forall i :: i in r <==> i < n && i in s
    ensures forall a, b :: 0 <= a < b < |r| ==> r[a] < r[b]
    ensures s == {} ==> r == []
    ensures |r| <= n
  {
    if n == 0 then []
    else
      var front := Ascending(s, n - 1);
      assert forall a :: 0 <= a < |front| ==> front[a] in front;
      front + (if n - 1 in s then [n - 1] else [])
  }

  /** The centres the merge visits: every position found, once, in ascending order. */
  function Centres(results: seq<(string, real)>, chunks: seq<string>): (r: seq<nat>)
    ensures forall i :: i in r <==> i in Found(results, chunks)
    ensures forall a, b :: 0 <= a < b < |r| ==> r[a] < r[b]
    ensures forall i :: i in r ==> i < |chunks|
    ensures |r| <= |chunks|
  {
    Ascending(set i | i in Found(results, chunks), |chunks|)
  }

  /** `range(start, end)` as a set. */
  function Range(start: int, end: int): (r: set<int>)
    ensures forall j :: j in r <==> start <= j < end
    decreases end - start
  {
    if start >= end then {} else Range(start, end - 1) + {end - 1}
  }

  /** The merge loop's variables: the passages so far, the covered positions and the end
      of the last window. */
  datatype MergeState = MergeState(merged: seq<string>, used: set<int>, lastEnd: int)

  const Initial := MergeState([], {}, -1)

  /** A window's start. As written, proximity merging pulls the start back to `last_end`
      whenever it lies within two positions of it, also while `last_end` is still -1;
      corrected, only once a window exists. */
  function WindowStart(idx: int, w: int, prox: bool, lastEnd: int, corrected: bool): int {
    var start := Max(0, idx - w);
    if prox && start <= lastEnd + 2 && (!corrected || lastEnd >= 0) then Min(start, lastEnd) else start
  }

  /** One iteration of the merge loop: a covered centre is skipped; any other emits its
      window and covers it. */
  function MergeStep(chunks: seq<string>, w: int, prox: bool, corrected: bool, st: MergeState, idx: int): MergeState {
    if idx in st.used then st
    else
      var start := WindowStart(idx, w, prox, st.lastEnd, corrected);
      var end := Min(|chunks|, idx + w + 1);
      MergeState(st.merged + [Join("\n", Slice(chunks, start, end))], st.used + Range(start, end), end)
  }

  /** The merge loop over `centres`. */
  function MergeFold(chunks: seq<string>, w: int, prox: bool, corrected: bool, st: MergeState,
                     centres: seq<int>): MergeState
  {
    if centres == [] then st
    else MergeStep(chunks, w, prox, corrected, MergeFold(chunks, w, prox, corrected, st, centres[..|centres| - 1]),
                   centres[|centres| - 1])
  }

  /** `merge_adjacent_chunks(top_results, all_chunks, window_size, proximity_merge)`, as
      written (`corrected == false`) or corrected. */
  function MergeAdjacent(results: seq<(string, real)>, chunks: seq<string>, w: int, prox: bool,
                         corrected: bool): seq<string>
  {
    MergeFold(chunks, w, prox, corrected, Initial, Centres(results, chunks)).merged
  }

  /** `merge_adjacent_chunks`, as written. */
  method MergeAdjacentChunks(results: seq<(string, real)>, chunks: seq<string>, w: int, prox: bool)
      returns (merged: seq<string>)
    ensures merged == MergeAdjacent(results, chunks, w, prox, false)
    ensures |merged| <= |Centres(results, chunks)|
    ensures results == [] ==> merged == []
  {
    var ranked := RankedIndices(results, chunks);
    merged := MergeWindows(chunks, w, prox, ranked);
    MergeCount(chunks, w, prox, false, Initial, ranked);
  }

  /** The first half of `merge_adjacent_chunks`: the positions of the result texts,
      sorted and without duplicates. */
  method RankedIndices(results: seq<(string, real)>, chunks: seq<string>) returns (ranked: seq<nat>)
    ensures ranked == Centres(results, chunks)
  {
    var rankedIndices: seq<nat> := [];
    for k := 0 to |results|
      invariant rankedIndices == Found(results[..k], chunks)
    {
      assert results[..k + 1][..k] == results[..k];
      var idx := IndexOf(chunks, results[k].0);
      if idx.None? {
        continue;
      }
      rankedIndices := rankedIndices + [idx.value];
    }
    assert results[..|results|] == results;
    ranked := Ascending(set i | i in rankedIndices, |chunks|);
  }

  /** The second half of `merge_adjacent_chunks`: the loop over the centres. */
  method MergeWindows(chunks: seq<string>, w: int, prox: bool, ranked: seq<nat>) returns (merged: seq<string>)
    ensures merged == MergeFold(chunks, w, prox, false, Initial, ranked).merged
  {
    merged := [];
    var used: set<int> := {};
    var lastEnd := -1;
    for p := 0 to |ranked|
      invariant MergeFold(chunks, w, prox, false, Initial, ranked[..p]) == MergeState(merged, used, lastEnd)
    {
      MergeFoldSnoc(chunks, w, prox, false, Initial, ranked, p);
      merged, used, lastEnd := MergeCentre(chunks, w, prox, ranked[p], merged, used, lastEnd);
    }
    assert ranked[..|ranked|] == ranked;
  }

  /** One iteration of the loop over the centres: a covered centre is skipped, any other
      emits its window and covers it. */
  method MergeCentre(chunks: seq<string>, w: int, prox: bool, idx: int,
                     merged0: seq<string>, used0: set<int>, lastEnd0: int)
      returns (merged: seq<string>, used: set<int>, lastEnd: int)
    ensures MergeState(merged, used, lastEnd) == MergeStep(chunks, w, prox, false, MergeState(merged0, used0, lastEnd0), idx)
  {
    merged, used, lastEnd := merged0, used0, lastEnd0;
    if idx in used {
      return;
    }
    var start := Max(0, idx - w);
    var end := Min(|chunks|, idx + w + 1);
    if prox && start <= lastEnd + 2 {
      start := Min(start, lastEnd);
    }
    assert start == WindowStart(idx, w, prox, lastEnd, false);
    lastEnd := end;
    var neighbors := Slice(chunks, start, end);
    merged := merged + [Join("\n", neighbors)];
    used := used + Range(start, end);
  }

  /** The loop over the first `p + 1` centres is the loop over the first `p` and one step. */
  lemma MergeFoldSnoc(chunks: seq<string>, w: int, prox: bool, corrected: bool, st: MergeState,
                      centres: seq<int>, p: nat)
    requires p < |centres|
    ensures MergeFold(chunks, w, prox, corrected, st, centres[..p + 1]) ==
      MergeStep(chunks, w, prox, corrected, MergeFold(chunks, w, prox, corrected, st, centres[..p]), centres[p])
  {
    assert centres[..p + 1][..p] == centres[..p];
  }

  /** Each centre emits at most one passage, and earlier passages are kept. */
  lemma {:induction false} MergeCount(chunks: seq<string>, w: int, prox: bool, corrected: bool, st: MergeState,
                                      centres: seq<int>)
    ensures var r := MergeFold(chunks, w, prox, corrected, st, centres).merged;
      |st.merged| <= |r| <= |st.merged| + |centres| && r[..|st.merged|] == st.merged
  {
    if centres != [] {
      MergeCount(chunks, w, prox, corrected, st, centres[..|centres| - 1]);
    }
  }

  /** Covered positions are never uncovered. */
  lemma {:induction false} UsedGrows(chunks: seq<string>, w: int, prox: bool, corrected: bool, st: MergeState,
                                     centres: seq<int>)
    ensures st.used <= MergeFold(chunks, w, prox, corrected, st, centres).used
  {
    if centres != [] {
      UsedGrows(chunks, w, prox, corrected, st, centres[..|centres| - 1]);
    }
  }

  /** Centres that are already covered emit nothing and change nothing. */
  lemma {:induction false} CoveredCentresSkipped(chunks: seq<string>, w: int, prox: bool, corrected: bool,
                                                 st: MergeState, centres: seq<int>)
    requires forall c :: c in centres ==> c in st.used
    ensures MergeFold(chunks, w, prox, corrected, st, centres) == st
  {
    if centres != [] {
      assert forall c :: c in centres[..|centres| - 1] ==> c in centres;
      CoveredCentresSkipped(chunks, w, prox, corrected, st, centres[..|centres| - 1]);
      assert centres[|centres| - 1] in centres;
    }
  }

  /** The plain window around centre `c`: `all_chunks[max(0, c - w):min(len, c + w + 1)]`, joined. */
  function PlainWindow(chunks: seq<string>, w: int, c: int): string {
    Join("\n", Slice(chunks, Max(0, c - w), Min(|chunks|, c + w + 1)))
  }

  /** For a centre in the list and a non-negative window, the plain window is the run of
      chunks from `w` before the centre to `w` after it, clipped to the list. */
  lemma PlainWindowIsRun(chunks: seq<string>, w: int, c: int)
    requires w >= 0 && 0 <= c < |chunks|
    ensures Max(0, c - w) <= c < Min(|chunks|, c + w + 1) <= |chunks|
    ensures PlainWindow(chunks, w, c) == Join("\n", chunks[Max(0, c - w)..Min(|chunks|, c + w + 1)])
  {
  }

  /** Without proximity merging every passage is the plain window around one of the centres. */
  lemma {:induction false} PlainWindows(chunks: seq<string>, w: int, corrected: bool, st: MergeState,
                                        centres: seq<int>)
    ensures var r := MergeFold(chunks, w, false, corrected, st, centres).merged;
      |st.merged| <= |r| && forall t :: t in r[|st.merged|..] ==> exists c :: c in centres && t == PlainWindow(chunks, w, c)
  {
    MergeCount(chunks, w, false, corrected, st, centres);
    if centres != [] {
      var init, last := centres[..|centres| - 1], centres[|centres| - 1];
      PlainWindows(chunks, w, corrected, st, init);
      MergeCount(chunks, w, false, corrected, st, init);
      var st0 := MergeFold(chunks, w, false, corrected, st, init);
      var r := MergeFold(chunks, w, false, corrected, st, centres).merged;
      assert r == MergeStep(chunks, w, false, corrected, st0, last).merged;
      PlainStep(chunks, w, corrected, st0, last);
      forall t | t in r[|st.merged|..] ensures exists c :: c in centres && t == PlainWindow(chunks, w, c) {
        SnocTail(st0.merged, r, PlainWindow(chunks, w, last), |st.merged|, t);
        if t == PlainWindow(chunks, w, last) {
          assert last in centres;
        } else {
          var c :| c in init && t == PlainWindow(chunks, w, c);
          assert c in centres;
        }
      }
    }
  }

  /** Without proximity merging a step appends nothing, or the plain window around its centre. */
  lemma PlainStep(chunks: seq<string>, w: int, corrected: bool, st: MergeState, idx: int)
    ensures var r := MergeStep(chunks, w, false, corrected, st, idx).merged;
      r == st.merged || r == st.merged + [PlainWindow(chunks, w, idx)]
  {
  }

  /** A member of the tail of `r0`, or of `r0` grown by `x`, from position `a` on. */
  lemma SnocTail(r0: seq<string>, r: seq<string>, x: string, a: nat, t: string)
    requires a <= |r0| && (r == r0 || r == r0 + [x]) && t in r[a..]
    ensures t in r0[a..] || t == x
  {
    if r != r0 {
      assert r[a..] == r0[a..] + [x];
    }
  }

  /** Without proximity merging the correction changes nothing. */
  lemma {:induction false} CorrectionOnlyAffectsProximity(chunks: seq<string>, w: int, st: MergeState,
                                                          centres: seq<int>)
    ensures MergeFold(chunks, w, false, true, st, centres) == MergeFold(chunks, w, false, false, st, centres)
  {
    if centres != [] {
      CorrectionOnlyAffectsProximity(chunks, w, st, centres[..|centres| - 1]);
    }
  }

  /** `t` is the joined text of a run of chunks that includes position `c`. */
  predicate HoldsCentre(chunks: seq<string>, t: string, c: int) {
    exists lo, hi :: 0 <= lo <= c < hi <= |chunks| && t == Join("\n", chunks[lo..hi])
  }

  /** Corrected, with a non-negative window, every passage of the merge is the joined text
      of a run of chunks around a position that one of the results names. */
  lemma MergedPassagesAreRuns(results: seq<(string, real)>, chunks: seq<string>, w: int, prox: bool)
    requires w >= 0
    ensures forall t :: t in MergeAdjacent(results, chunks, w, prox, true) ==>
      exists c :: c in Found(results, chunks) && HoldsCentre(chunks, t, c)
  {
    var centres := Centres(results, chunks);
    CorrectedPassagesHoldCentres(chunks, w, prox, Initial, centres);
    var r := MergeAdjacent(results, chunks, w, prox, true);
    assert r[|Initial.merged|..] == r;
  }

  /** Corrected, a centre not yet covered emits one passage, holding that centre. */
  lemma CorrectedStepHoldsCentre(chunks: seq<string>, w: int, prox: bool, st: MergeState, idx: int)
    requires w >= 0 && 0 <= idx < |chunks| && idx !in st.used
    ensures var r := MergeStep(chunks, w, prox, true, st, idx).merged;
      |r| == |st.merged| + 1 && r[..|st.merged|] == st.merged && HoldsCentre(chunks, r[|r| - 1], idx)
  {
    var lo := WindowStart(idx, w, prox, st.lastEnd, true);
    var hi := Min(|chunks|, idx + w + 1);
    assert 0 <= lo <= idx < hi <= |chunks|;
    assert Slice(chunks, lo, hi) == chunks[lo..hi];
    var r := MergeStep(chunks, w, prox, true, st, idx).merged;
    assert r == st.merged + [Join("\n", chunks[lo..hi])];
  }

  /** Corrected, every passage is the joined text of a run of chunks around one of the
      centres, with or without proximity merging. */
  lemma {:induction false} CorrectedPassagesHoldCentres(chunks: seq<string>, w: int, prox: bool, st: MergeState,
                                                        centres: seq<int>)
    requires w >= 0 && forall c :: c in centres ==> 0 <= c < |chunks|
    ensures var r := MergeFold(chunks, w, prox, true, st, centres).merged;
      |st.merged| <= |r| &&
      forall t :: t in r[|st.merged|..] ==> exists c :: c in centres && HoldsCentre(chunks, t, c)
  {
    MergeCount(chunks, w, prox, true, st, centres);
    if centres != [] {
      var init, last := centres[..|centres| - 1], centres[|centres| - 1];
      assert forall c :: c in init ==> c in centres;
      CorrectedPassagesHoldCentres(chunks, w, prox, st, init);
      MergeCount(chunks, w, prox, true, st, init);
      var s0 := MergeFold(chunks, w, prox, true, st, init);
      var r0 := s0.merged;
      var r := MergeFold(chunks, w, prox, true, st, centres).merged;
      assert r == MergeStep(chunks, w, prox, true, s0, last).merged;
      assert last in centres;
      if last in s0.used {
        assert r == r0;
      } else {
        CorrectedStepHoldsCentre(chunks, w, prox, s0, last);
        assert r[|st.merged|..] == r0[|st.merged|..] + [r[|r| - 1]];
        forall t | t in r[|st.merged|..] ensures exists c :: c in centres && HoldsCentre(chunks, t, c) {
          if t == r[|r| - 1] {
            assert HoldsCentre(chunks, t, last);
          } else {
            assert t in r0[|st.merged|..];
          }
        }
      }
    }
  }

  lemma JoinThree(a: string, b: string, c: string)
    ensures Join("\n", [a, b, c]) == a + "\n" + b + "\n" + c
  {
    assert [a, b, c][1..] == [b, c] && [b, c][1..] == [c];
    assert Join("\n", [c]) == c;
    assert Join("\n", [b, c]) == b + "\n" + c;
  }

  /** Two centres one position apart with window 1 emit two overlapping passages: the
      centre 5 is not covered by the window [2, 5) of centre 3. */
  lemma OverlappingWindows()
    ensures MergeFold(["a", "b", "c", "d", "e", "f", "g"], 1, false, false, Initial, [3, 5]).merged
      == ["c\nd\ne", "e\nf\ng"]
  {
    var chunks := ["a", "b", "c", "d", "e", "f", "g"];
    assert [3, 5][..1] == [3] && [3][..0] == [];
    assert chunks[2..5] == ["c", "d", "e"] && chunks[4..7] == ["e", "f", "g"];
    JoinThree("c", "d", "e");
    JoinThree("e", "f", "g");
    assert "c" + "\n" + "d" + "\n" + "e" == "c\nd\ne";
    var s1 := MergeFold(chunks, 1, false, false, Initial, [3]);
    assert s1 == MergeStep(chunks, 1, false, false, Initial, 3);
    assert WindowStart(3, 1, false, -1, false) == 2;
    assert Slice(chunks, 2, 5) == ["c", "d", "e"];
    assert s1.merged == ["c\nd\ne"];
    assert s1 == MergeState(["c\nd\ne"], Range(2, 5), 5);
    assert 5 !in s1.used;
    assert "e" + "\n" + "f" + "\n" + "g" == "e\nf\ng";
    assert MergeFold(chunks, 1, false, false, Initial, [3, 5]) == MergeStep(chunks, 1, false, false, s1, 5);
    assert Slice(chunks, 4, 7) == ["e", "f", "g"];
  }

  /** Centres 3, 4, 5 and 9 with window 1 give three passages: 4 is covered by the window
      of 3, but 5 is not. */
  lemma ThreePassagesForFourCentres()
    ensures MergeFold(["a", "b", "c", "d", "e", "f", "g", "h", "i", "j", "k"], 1, false, false, Initial,
                      [3, 4, 5, 9]).merged == ["c\nd\ne", "e\nf\ng", "i\nj\nk"]
  {
    FourCentresLast(["a", "b", "c", "d", "e", "f", "g", "h", "i", "j", "k"]);
  }

  /** Centre 9 is not covered and emits the window i, j, k. */
  lemma FourCentresLast(chunks: seq<string>)
    requires chunks == ["a", "b", "c", "d", "e", "f", "g", "h", "i", "j", "k"]
    ensures MergeFold(chunks, 1, false, false, Initial, [3, 4, 5, 9]).merged == ["c\nd\ne", "e\nf\ng", "i\nj\nk"]
  {
    var cs := [3, 4, 5, 9];
    FourCentresThird(chunks);
    MergeFoldSnoc(chunks, 1, false, false, Initial, cs, 3);
    assert cs[..4] == cs && cs[..3] == [3, 4, 5];
    assert 9 !in Range(2, 5) + Range(4, 7);
    JoinThree("i", "j", "k");
    assert "i" + "\n" + "j" + "\n" + "k" == "i\nj\nk";
    assert Slice(chunks, 8, 11) == ["i", "j", "k"];
  }

  /** Centre 3 emits the window c, d, e. */
  lemma FourCentresFirst(chunks: seq<string>)
    requires chunks == ["a", "b", "c", "d", "e", "f", "g", "h", "i", "j", "k"]
    ensures MergeFold(chunks, 1, false, false, Initial, [3]) == MergeState(["c\nd\ne"], Range(2, 5), 5)
  {
    MergeFoldSnoc(chunks, 1, false, false, Initial, [3], 0);
    assert [3][..1] == [3] && [3][..0] == [];
    JoinThree("c", "d", "e");
    assert "c" + "\n" + "d" + "\n" + "e" == "c\nd\ne";
    assert Slice(chunks, 2, 5) == ["c", "d", "e"];
  }

  /** Centre 4 is already covered and changes nothing. */
  lemma FourCentresSecond(chunks: seq<string>)
    requires chunks == ["a", "b", "c", "d", "e", "f", "g", "h", "i", "j", "k"]
    ensures MergeFold(chunks, 1, false, false, Initial, [3, 4]) == MergeState(["c\nd\ne"], Range(2, 5), 5)
  {
    FourCentresFirst(chunks);
    MergeFoldSnoc(chunks, 1, false, false, Initial, [3, 4], 1);
    assert [3, 4][..2] == [3, 4] && [3, 4][..1] == [3];
    assert 4 in Range(2, 5);
  }

  /** Centre 5 is not covered and emits the window e, f, g. */
  lemma FourCentresThird(chunks: seq<string>)
    requires chunks == ["a", "b", "c", "d", "e", "f", "g", "h", "i", "j", "k"]
    ensures MergeFold(chunks, 1, false, false, Initial, [3, 4, 5]) ==
      MergeState(["c\nd\ne", "e\nf\ng"], Range(2, 5) + Range(4, 7), 7)
  {
    FourCentresSecond(chunks);
    MergeFoldSnoc(chunks, 1, false, false, Initial, [3, 4, 5], 2);
    assert [3, 4, 5][..3] == [3, 4, 5] && [3, 4, 5][..2] == [3, 4];
    assert 5 !in Range(2, 5);
    JoinThree("e", "f", "g");
    assert "e" + "\n" + "f" + "\n" + "g" == "e\nf\ng";
    assert Slice(chunks, 4, 7) == ["e", "f", "g"];
  }

  /** The single result "a" over the chunks a, b, c, d is centred on position 0. */
  lemma SingleResultCentre()
    ensures Centres([("a", 1.0)], ["a", "b", "c", "d"]) == [0]
  {
    var chunks := ["a", "b", "c", "d"];
    var results := [("a", 1.0)];
    assert IndexOf(chunks, "a") == Some(0);
    assert results[..0] == [];
    assert Found(results, chunks) == [0];
    var found: set<nat> := set i | i in Found(results, chunks);
    assert found == {0};
    assert Ascending(found, 1) == [0];
    assert Ascending(found, 2) == [0];
    assert Ascending(found, 3) == [0];
    assert Ascending(found, 4) == [0];
  }

  /** As written, proximity merging empties a first window that starts at position 0:
      for the chunks a, b, c, d and the single result "a" with window 1, the slice start
      becomes -1, the slice `[-1:2]` is empty and the only passage is "", which holds no
      chunk at all. The corrected merge returns the window "a\nb". */
  lemma ProximityEmptiesFirstWindow()
    ensures MergeAdjacent([("a", 1.0)], ["a", "b", "c", "d"], 1, true, false) == [""]
    ensures MergeAdjacent([("a", 1.0)], ["a", "b", "c", "d"], 1, true, true) == ["a\nb"]
  {
    var chunks := ["a", "b", "c", "d"];
    var results := [("a", 1.0)];
    SingleResultCentre();
    assert [0][..0] == [];
    assert WindowStart(0, 1, true, -1, false) == -1;
    assert Slice(chunks, -1, 2) == [];
    assert WindowStart(0, 1, true, -1, true) == 0;
    assert Slice(chunks, 0, 2) == ["a", "b"];
    assert ["a", "b"][1..] == ["b"];
    assert Join("\n", ["a", "b"]) == "a" + "\n" + "b" == "a\nb";
  }
}
