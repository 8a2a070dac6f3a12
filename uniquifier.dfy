/**
  The label uniquifier (`DescriptionTextUniquefier`). Its Java class is not part of this
  model; what the generator relies on is its contract: the label it returns for a text
  is the text itself the first time, and some label never returned before (extending
  the text) every later time. `UniqueLabel` is one function meeting that contract:
  it appends a marker character until the label is fresh.
 */
module Uniquifier {

  /** The character appended to a label that has already been issued. */
  const Marker: char := '\U{200B}'  // a zero-width space

  /** The labels of `issued` at least as long as `text`. */
  function LongerThan(issued: set<string>, text: string): set<string> {
    set s | s in issued && |s| >= |text|
  }

  /** The label the uniquifier returns for `text` after it has issued `issued`. */
  function UniqueLabel(issued: set<string>, text: string): (r: string)
    ensures r !in issued
    ensures text <= r
    ensures text !in issued ==> r == text
    decreases LongerThan(issued, text)
  {
    if text !in issued then text
    else
      var next := text + [Marker];
      assert text in LongerThan(issued, text) && text !in LongerThan(issued, next);
      UniqueLabel(issued, next)
  }

  /** The labels successive calls return for `texts`, starting from `issued`. */
  function IssueAll(issued: set<string>, texts: seq<string>): seq<string> {
    if texts == [] then []
    else
      var n := |texts| - 1;
      var pre := IssueAll(issued, texts[..n]);
      pre + [UniqueLabel(issued + set i | 0 <= i < |pre| :: pre[i], texts[n])]
  }

  /**
    However often the same text is handed over, every call returns a label different
    from all labels returned before it, and each label extends its text.
   */
  lemma {:induction false} IssuedLabelsDistinct(issued: set<string>, texts: seq<string>)
    ensures |IssueAll(issued, texts)| == |texts|
    ensures forall i :: 0 <= i < |texts| ==> IssueAll(issued, texts)[i] !in issued
    ensures forall i :: 0 <= i < |texts| ==> texts[i] <= IssueAll(issued, texts)[i]
    ensures forall i, j :: 0 <= i < j < |texts| ==> IssueAll(issued, texts)[i] != IssueAll(issued, texts)[j]
  {
    if texts != [] {
      var n := |texts| - 1;
      IssuedLabelsDistinct(issued, texts[..n]);
      var pre := IssueAll(issued, texts[..n]);
      var seen := issued + set i | 0 <= i < |pre| :: pre[i];
      var r := IssueAll(issued, texts);
      assert r == pre + [UniqueLabel(seen, texts[n])];
      forall i | 0 <= i < n ensures r[i] != r[n] {
        assert pre[i] in seen;
      }
      forall i | 0 <= i < n ensures texts[i] <= r[i] {
        assert texts[..n][i] == texts[i];
      }
    }
  }

  class DescriptionTextUniquefier {
    /** The labels returned so far. */
    var strings: set<string>

    constructor ()
      ensures strings == {}
    {
      strings := {};
    }

    /** `getUniqueDescription`: returns a fresh label for `text` and records it. */
    method GetUniqueDescription(text: string) returns (r: string)
      modifies this
      ensures r == UniqueLabel(old(strings), text)
      ensures strings == old(strings) + {r}
    {
      r := text;
      while r in strings
        invariant UniqueLabel(strings, r) == UniqueLabel(strings, text)
        decreases LongerThan(strings, r)
      {
        assert r in LongerThan(strings, r) && r !in LongerThan(strings, r + [Marker]);
        r := r + [Marker];
      }
      strings := strings + {r};
    }
  }
}
