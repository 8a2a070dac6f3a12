/**
  The pure string helpers of the description generator: cutting a step to its first
  line, turning the line breaks of a label into ", ", replacing parentheses, and taking
  the bare file name of a given-story path. Java's `replaceAll` calls are written out
  as character-level sequence functions.
 */
module LineText {

  /** True when `c` occurs nowhere in `s`. */
  predicate Free(s: string, c: char) {
    forall i :: 0 <= i < |s| ==> s[i] != c
  }

  /** Index of the first `c` in `s`, or `|s|` when there is none. */
  function IndexOf(s: string, c: char): (k: nat)
    ensures k <= |s|
    ensures Free(s[..k], c)
    ensures k < |s| ==> s[k] == c
  {
    if s == [] then 0
    else if s[0] == c then 0
    else 1 + IndexOf(s[1..], c)
  }

  /** The part of a step before its first line feed (`stripLinebreaks`). */
  function StripLinebreaks(s: string): (r: string)
    ensures r <= s
    ensures Free(r, '\n')
    ensures |r| < |s| ==> s[|r|] == '\n'
    ensures Free(s, '\n') ==> r == s
  {
    s[..IndexOf(s, '\n')]
  }

  /** `replaceAll("\r", "\n")`. */
  function CarriageReturnsToLineFeeds(s: string): (r: string)
    ensures |r| == |s|
    ensures forall i :: 0 <= i < |s| ==> r[i] == (if s[i] == '\r' then '\n' else s[i])
  {
    if s == [] then []
    else [if s[0] == '\r' then '\n' else s[0]] + CarriageReturnsToLineFeeds(s[1..])
  }

  /** `replaceAll("\n{2,}", "\n")`: every run of two or more line feeds becomes one. */
  function CollapseLineFeeds(s: string): (r: string)
    ensures |r| <= |s|
    ensures Free(s, '\r') ==> Free(r, '\r')
    ensures Free(s, '\n') ==> r == s
  {
    if |s| >= 2 && s[0] == '\n' && s[1] == '\n' then CollapseLineFeeds(s[1..])
    else if s == [] then []
    else [s[0]] + CollapseLineFeeds(s[1..])
  }

  /** `replaceAll("\n", ", ")`. */
  function LineFeedsToCommas(s: string): (r: string)
    ensures Free(r, '\n')
    ensures Free(s, '\r') ==> Free(r, '\r')
    ensures Free(s, '\n') ==> r == s
  {
    if s == [] then []
    else (if s[0] == '\n' then ", " else [s[0]]) + LineFeedsToCommas(s[1..])
  }

  /** `replaceLinebreaks`: the three replacements in the source's order. */
  function ReplaceLinebreaks(s: string): (r: string)
    ensures Free(r, '\r') && Free(r, '\n')
    ensures Free(s, '\r') && Free(s, '\n') ==> r == s
  {
    LineFeedsToCommas(CollapseLineFeeds(CarriageReturnsToLineFeeds(s)))
  }

  /** `replaceAll("[\\(\\)]", "|")`. */
  function ReplaceParentheses(s: string): (r: string)
    ensures |r| == |s|
    ensures Free(r, '(') && Free(r, ')')
    ensures forall i :: 0 <= i < |s| ==> r[i] == (if s[i] == '(' || s[i] == ')' then '|' else s[i])
    ensures Free(s, '(') && Free(s, ')') ==> r == s
  {
    if s == [] then []
    else [if s[0] == '(' || s[0] == ')' then '|' else s[0]] + ReplaceParentheses(s[1..])
  }

  /** The text `getJunitSafeString` hands to the uniquifier. */
  function SafeText(s: string): (r: string)
    ensures Free(r, '(') && Free(r, ')') && Free(r, '\r') && Free(r, '\n')
  {
    ReplaceParentheses(ReplaceLinebreaks(s))
  }

  /** Position just after the last `/` of `path`, or 0 when it has none (`lastIndexOf("/") + 1`). */
  function NameStart(path: string): (k: nat)
    ensures k <= |path|
    ensures Free(path[k..], '/')
    ensures k > 0 ==> path[k - 1] == '/'
  {
    if path == [] then 0
    else if path[|path| - 1] == '/' then |path|
    else NameStart(path[..|path| - 1])
  }

  /** True when the name part is non-empty and made of `#` only. */
  predicate OnlyHashes(name: string) {
    name != [] && forall i :: 0 <= i < |name| ==> name[i] == '#'
  }

  /**
    A path for which `split("#")[0]` exists: Java's `split` drops trailing empty pieces,
    so a name part made only of `#` yields an empty array and the index throws.
   */
  predicate WellFormedPath(path: string) {
    !OnlyHashes(path[NameStart(path)..])
  }

  /** `getFilename`: the text after the last `/` and before the first `#` after it. */
  function GetFilename(path: string): (r: string)
    requires WellFormedPath(path)
    ensures Free(r, '/') && Free(r, '#')
    ensures r <= path[NameStart(path)..]
    ensures NameStart(path) + |r| < |path| ==> path[NameStart(path) + |r|] == '#'
  {
    var name := path[NameStart(path)..];
    name[..IndexOf(name, '#')]
  }

  /** `s` with every `c` removed. */
  function Without(s: string, c: char): string {
    if s == [] then [] else (if s[0] == c then [] else [s[0]]) + Without(s[1..], c)
  }

  /** True when no two adjacent characters of `s` are both line feeds. */
  predicate NoDoubleLineFeed(s: string) {
    forall i :: 0 <= i < |s| - 1 ==> !(s[i] == '\n' && s[i + 1] == '\n')
  }

  /**
    Collapsing keeps every character other than a line feed, in order, leaves no two
    line feeds adjacent, has a line feed exactly when the input has one, and starts with
    the input's first character.
   */
  lemma {:induction false} CollapseLineFeedsMeaning(s: string)
    ensures Without(CollapseLineFeeds(s), '\n') == Without(s, '\n')
    ensures NoDoubleLineFeed(CollapseLineFeeds(s))
    ensures Free(CollapseLineFeeds(s), '\n') <==> Free(s, '\n')
    ensures s != [] ==> CollapseLineFeeds(s) != [] && CollapseLineFeeds(s)[0] == s[0]
  {
    if s == [] {
    } else if |s| >= 2 && s[0] == '\n' && s[1] == '\n' {
      CollapseLineFeedsMeaning(s[1..]);
      assert Without(s, '\n') == Without(s[1..], '\n');
      assert !Free(s, '\n') && !Free(s[1..], '\n');
    } else {
      CollapseLineFeedsMeaning(s[1..]);
      var r := CollapseLineFeeds(s);
      var t := CollapseLineFeeds(s[1..]);
      assert r == [s[0]] + t;
      assert r[1..] == t;
      assert Without(r, '\n') == (if s[0] == '\n' then [] else [s[0]]) + Without(t, '\n');
      forall i | 0 <= i < |r| - 1 ensures !(r[i] == '\n' && r[i + 1] == '\n') {
        if i > 0 {
          assert r[i] == t[i - 1] && r[i + 1] == t[i];
        } else if s[0] == '\n' {
          assert |s| >= 2 && s[1] != '\n';
          assert r[1] == t[0] == s[1];
        }
      }
      if Free(r, '\n') {
        forall i | 0 <= i < |s| ensures s[i] != '\n' {
          if i > 0 {
            assert Free(t, '\n') by {
              forall j | 0 <= j < |t| ensures t[j] != '\n' { assert r[j + 1] == t[j]; }
            }
            assert s[1..][i - 1] == s[i];
          } else {
            assert r[0] == s[0];
          }
        }
      }
      if Free(s, '\n') {
        assert r == s;
      }
    }
  }

  lemma AppendAssociates<T>(a: seq<T>, b: seq<T>, c: seq<T>)
    ensures a + b + c == a + (b + c)
  {
  }

  /** True when `c` is a carriage return or a line feed. */
  predicate IsBreak(c: char) {
    c == '\r' || c == '\n'
  }

  /** Replacing carriage returns works character by character, so it distributes over `+`. */
  lemma CarriageReturnsAppend(x: string, y: string)
    ensures CarriageReturnsToLineFeeds(x + y) == CarriageReturnsToLineFeeds(x) + CarriageReturnsToLineFeeds(y)
  {
    var r := CarriageReturnsToLineFeeds(x + y);
    var t := CarriageReturnsToLineFeeds(x) + CarriageReturnsToLineFeeds(y);
    assert |r| == |t|;
    forall i | 0 <= i < |r| ensures r[i] == t[i] {
      if i < |x| {
        assert (x + y)[i] == x[i];
      } else {
        assert (x + y)[i] == y[i - |x|];
      }
    }
  }

  /** Collapsing splits at a point that does not follow a line feed. */
  lemma {:induction false} CollapseAppend(x: string, z: string)
    requires x == [] || x[|x| - 1] != '\n'
    ensures CollapseLineFeeds(x + z) == CollapseLineFeeds(x) + CollapseLineFeeds(z)
  {
    if x == [] {
      assert x + z == z && CollapseLineFeeds(x) == [];
    } else if |x| == 1 {
      assert x[1..] == [] && x[1..] + z == z;
      assert CollapseLineFeeds(x[1..]) == [];
      CollapseCons(x, z);
    } else {
      assert x[1..][|x| - 2] == x[|x| - 1];
      CollapseAppend(x[1..], z);
      CollapseCons(x, z);
    }
  }

  /** The step of `CollapseAppend`: from the split of `x[1..] + z` to the split of `x + z`. */
  lemma CollapseCons(x: string, z: string)
    requires x != [] && x[|x| - 1] != '\n'
    requires CollapseLineFeeds(x[1..] + z) == CollapseLineFeeds(x[1..]) + CollapseLineFeeds(z)
    ensures CollapseLineFeeds(x + z) == CollapseLineFeeds(x) + CollapseLineFeeds(z)
  {
    var t := x[1..];
    assert (x + z)[0] == x[0] && (x + z)[1..] == t + z;
    if |x| >= 2 && x[0] == '\n' && x[1] == '\n' {
      assert (x + z)[1] == x[1];
      assert CollapseLineFeeds(x + z) == CollapseLineFeeds(t + z);
    } else {
      assert |x| == 1 ==> x[0] != '\n';
      assert CollapseLineFeeds(x + z) == [x[0]] + CollapseLineFeeds(t + z);
      assert CollapseLineFeeds(x) == [x[0]] + CollapseLineFeeds(t);
      AppendAssociates([x[0]], CollapseLineFeeds(t), CollapseLineFeeds(z));
    }
  }

  /** A run of line feeds followed by something else collapses to a single line feed. */
  lemma {:induction false} CollapseRun(n: string, y: string)
    requires n != [] && forall i :: 0 <= i < |n| ==> n[i] == '\n'
    requires y == [] || y[0] != '\n'
    ensures CollapseLineFeeds(n + y) == "\n" + CollapseLineFeeds(y)
  {
    assert (n + y)[0] == '\n';
    if |n| == 1 {
      assert (n + y)[1..] == y;
    } else {
      CollapseRun(n[1..], y);
      assert (n + y)[1] == '\n';
      assert (n + y)[1..] == n[1..] + y;
    }
  }

  /** Replacing line feeds works character by character, so it distributes over `+`. */
  lemma {:induction false} LineFeedsToCommasAppend(x: string, y: string)
    ensures LineFeedsToCommas(x + y) == LineFeedsToCommas(x) + LineFeedsToCommas(y)
  {
    if x == [] {
      assert x + y == y;
    } else {
      var h := if x[0] == '\n' then ", " else [x[0]];
      LineFeedsToCommasAppend(x[1..], y);
      assert (x + y)[0] == x[0] && (x + y)[1..] == x[1..] + y;
      assert LineFeedsToCommas(x + y) == h + (LineFeedsToCommas(x[1..]) + LineFeedsToCommas(y));
      AppendAssociates(h, LineFeedsToCommas(x[1..]), LineFeedsToCommas(y));
    }
  }

  /** A lone line feed becomes ", ". */
  lemma LineFeedToComma()
    ensures LineFeedsToCommas("\n") == ", "
  {
    assert "\n"[1..] == [];
  }

  /** A run of line feeds between a text not ending in one and a text not starting with one. */
  lemma CollapseJoin(x: string, n: string, z: string)
    requires x == [] || x[|x| - 1] != '\n'
    requires n != [] && forall i :: 0 <= i < |n| ==> n[i] == '\n'
    requires z == [] || z[0] != '\n'
    ensures CollapseLineFeeds(x + (n + z)) == CollapseLineFeeds(x) + ("\n" + CollapseLineFeeds(z))
  {
    CollapseAppend(x, n + z);
    CollapseRun(n, z);
  }

  /** A single line feed between two texts becomes ", ". */
  lemma CommasJoin(x: string, z: string)
    ensures LineFeedsToCommas(x + ("\n" + z)) == LineFeedsToCommas(x) + ", " + LineFeedsToCommas(z)
  {
    LineFeedsToCommasAppend(x, "\n" + z);
    LineFeedsToCommasAppend("\n", z);
    LineFeedToComma();
  }

  /** Replacing carriage returns around a run of line breaks. */
  lemma CarriageReturnsJoin(a: string, sep: string, b: string)
    requires sep != [] && forall i :: 0 <= i < |sep| ==> IsBreak(sep[i])
    requires a == [] || !IsBreak(a[|a| - 1])
    requires b == [] || !IsBreak(b[0])
    ensures var ca := CarriageReturnsToLineFeeds(a);
      var cs := CarriageReturnsToLineFeeds(sep);
      var cb := CarriageReturnsToLineFeeds(b);
      && CarriageReturnsToLineFeeds(a + sep + b) == ca + (cs + cb)
      && (ca == [] || ca[|ca| - 1] != '\n')
      && cs != [] && (forall i :: 0 <= i < |cs| ==> cs[i] == '\n')
      && (cb == [] || cb[0] != '\n')
  {
    var ca := CarriageReturnsToLineFeeds(a);
    var cs := CarriageReturnsToLineFeeds(sep);
    var cb := CarriageReturnsToLineFeeds(b);
    assert CarriageReturnsToLineFeeds(a + sep + b) == ca + (cs + cb) by {
      CarriageReturnsAppend(a + sep, b);
      CarriageReturnsAppend(a, sep);
      assert (ca + cs) + cb == ca + (cs + cb);
    }
    assert ca == [] || ca[|ca| - 1] != '\n' by {
      if a != [] {
        assert ca[|a| - 1] == (if a[|a| - 1] == '\r' then '\n' else a[|a| - 1]);
      }
    }
    assert cb == [] || cb[0] != '\n' by {
      if b != [] {
        assert cb[0] == (if b[0] == '\r' then '\n' else b[0]);
      }
    }
    forall i | 0 <= i < |cs| ensures cs[i] == '\n' {
      assert IsBreak(sep[i]);
    }
  }

  /**
    Any run of line breaks between two texts becomes a single ", ": `replaceLinebreaks`
    of `a + sep + b`, with `sep` a non-empty run of carriage returns and line feeds that
    `a` does not end in and `b` does not start with, is the two texts' own replacements
    joined by ", ".
   */
  lemma ReplaceLinebreaksJoin(a: string, sep: string, b: string)
    requires sep != [] && forall i :: 0 <= i < |sep| ==> IsBreak(sep[i])
    requires a == [] || !IsBreak(a[|a| - 1])
    requires b == [] || !IsBreak(b[0])
    ensures ReplaceLinebreaks(a + sep + b) == ReplaceLinebreaks(a) + ", " + ReplaceLinebreaks(b)
  {
    var ca := CarriageReturnsToLineFeeds(a);
    var cs := CarriageReturnsToLineFeeds(sep);
    var cb := CarriageReturnsToLineFeeds(b);
    CarriageReturnsJoin(a, sep, b);
    CollapseJoin(ca, cs, cb);
    CommasJoin(CollapseLineFeeds(ca), CollapseLineFeeds(cb));
  }

  /** The safe-text transform is idempotent: its output has nothing left to replace. */
  lemma SafeTextIdempotent(s: string)
    ensures SafeText(SafeText(s)) == SafeText(s)
  {
  }

  /** `IndexOf` is the first occurrence: any position meeting its contract is it. */
  lemma IndexOfIsFirst(s: string, c: char, k: nat)
    requires k <= |s| && Free(s[..k], c) && (k < |s| ==> s[k] == c)
    ensures IndexOf(s, c) == k
  {
  }

  /** `NameStart` is just after the last `/`: any position meeting its contract is it. */
  lemma NameStartIsAfterLastSlash(path: string, k: nat)
    requires k <= |path| && Free(path[k..], '/') && (k > 0 ==> path[k - 1] == '/')
    ensures NameStart(path) == k
  {
  }

  /** A path with directories and a fragment: both are dropped. */
  lemma GetFilenameExample()
    ensures WellFormedPath("dir/sub/story.story#frag")
    ensures GetFilename("dir/sub/story.story#frag") == "story.story"
  {
    var path := "dir/sub/story.story#frag";
    NameStartIsAfterLastSlash(path, 8);
    var name := path[8..];
    assert name == "story.story#frag";
    IndexOfIsFirst(name, '#', 11);
    assert name[..11] == "story.story";
  }
}
