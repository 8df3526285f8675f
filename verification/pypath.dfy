/** The two POSIX `os.path` functions the core computes paths with. */
module PyPath {
  import opened PyStr

  /** `os.path.join(a, b)`: an absolute `b` replaces `a`; otherwise one `/` separates them
      unless `a` is empty or already ends with one. */
  function PathJoin(a: string, b: string): (r: string)
    ensures StartsWith(b, "/") ==> r == b
    ensures !StartsWith(b, "/") ==> EndsWith(r, b)
  {
    if StartsWith(b, "/") then b
    else if a == [] || EndsWith(a, "/") then a + b
    else a + "/" + b
  }

  /** `p.rfind(c)`: the last index of `c` in `p`, or -1. */
  function RFind(p: string, c: char): (k: int)
    ensures -1 <= k < |p|
    ensures k >= 0 ==> p[k] == c
    ensures forall i :: k < i < |p| ==> p[i] != c
  {
    if p == [] then -1
    else if p[|p| - 1] == c then |p| - 1
    else RFind(p[..|p| - 1], c)
  }

  /** `os.path.splitext(p)[0]`: the path without its extension. An extension is the part
      from the last `.` of the final component on, provided that component has some
      character other than `.` before it (so `.bashrc` has none). */
  function SplitExtRoot(p: string): (root: string)
    ensures root <= p
  {
    var sepIndex := RFind(p, '/');
    var dotIndex := RFind(p, '.');
    if dotIndex > sepIndex && exists k :: sepIndex < k < dotIndex && p[k] != '.' then p[..dotIndex]
    else p
  }

  /** A path named `<stem>.index` whose stem ends in an ordinary character keeps its stem
      as the root, so `root + ".index"` is the path itself. */
  lemma IndexSuffixRoot(stem: string)
    requires stem != [] && stem[|stem| - 1] != '/' && stem[|stem| - 1] != '.'
    ensures SplitExtRoot(stem + ".index") == stem
  {
    var p := stem + ".index";
    var sepIndex := RFind(p, '/');
    var dotIndex := RFind(p, '.');
    assert p[|stem|] == '.';
    assert dotIndex == |stem| by {
      forall i | |stem| < i < |p| ensures p[i] != '.' {
        assert p[i] == ".index"[i - |stem|];
      }
    }
    assert sepIndex < |stem| - 1 by {
      forall i | |stem| - 1 <= i < |p| ensures p[i] != '/' {
        if i == |stem| - 1 { assert p[i] == stem[|stem| - 1]; }
        else { assert p[i] == ".index"[i - |stem|]; }
      }
    }
    assert p[|stem| - 1] != '.';
    assert p[..dotIndex] == stem;
  }
}
