/** How the export turns a tagging's person link into a person id:
    `href.split("/")[-1]`, the text after the last `/` of the link. */
module Paths {

  /** Python's `s.split(sep)` for a one-character separator: the pieces between
      separators, in order, always at least one (`"".split("/") == [""]`). */
  function Split(s: string, sep: char): (parts: seq<string>)
    ensures |parts| >= 1
    decreases |s|
  {
    if |s| == 0 then [""]
    else
      var init := Split(s[..|s| - 1], sep);
      var c := s[|s| - 1];
      if c == sep then init + [""]
      else init[..|init| - 1] + [init[|init| - 1] + [c]]
  }

  /** No piece of a split contains the separator. */
  lemma {:induction false} SplitPiecesAreSeparatorFree(s: string, sep: char)
    ensures forall i :: 0 <= i < |Split(s, sep)| ==> sep !in Split(s, sep)[i]
    decreases |s|
  {
    if |s| > 0 {
      var init := s[..|s| - 1];
      var c := s[|s| - 1];
      SplitPiecesAreSeparatorFree(init, sep);
      var p := Split(init, sep);
      if c != sep {
        var q := p[..|p| - 1] + [p[|p| - 1] + [c]];
        assert Split(s, sep) == q;
        forall i | 0 <= i < |q| ensures sep !in q[i] {
          if i < |p| - 1 { assert q[i] == p[i]; }
        }
      }
    }
  }

  /** Python's `sep.join(parts)`. */
  function Join(parts: seq<string>, sep: char): string
    requires |parts| >= 1
  {
    if |parts| == 1 then parts[0]
    else Join(parts[..|parts| - 1], sep) + [sep] + parts[|parts| - 1]
  }

  /** A new empty last piece adds one separator to the join. */
  lemma JoinNewPiece(p: seq<string>, sep: char)
    requires |p| >= 1
    ensures Join(p + [""], sep) == Join(p, sep) + [sep]
  {
    var q := p + [""];
    assert q[..|q| - 1] == p;
  }

  /** Extending the last piece extends the join. */
  lemma JoinExtendLast(p: seq<string>, c: char, sep: char)
    requires |p| >= 1
    ensures Join(p[..|p| - 1] + [p[|p| - 1] + [c]], sep) == Join(p, sep) + [c]
  {
    var q := p[..|p| - 1] + [p[|p| - 1] + [c]];
    if |p| > 1 {
      assert q[..|q| - 1] == p[..|p| - 1];
    }
  }

  /** Joining the pieces of a split gives back the original string. */
  lemma {:induction false} JoinSplit(s: string, sep: char)
    ensures Join(Split(s, sep), sep) == s
    decreases |s|
  {
    if |s| > 0 {
      var init := s[..|s| - 1];
      var c := s[|s| - 1];
      JoinSplit(init, sep);
      assert s == init + [c];
      if c == sep {
        JoinNewPiece(Split(init, sep), sep);
      } else {
        JoinExtendLast(Split(init, sep), c, sep);
      }
    }
  }

  /** A trailing separator opens a new, empty piece. */
  lemma SplitAfterSeparator(t: string, sep: char)
    ensures Split(t + [sep], sep) == Split(t, sep) + [""]
  {
    var s := t + [sep];
    assert s[..|s| - 1] == t;
  }

  /** A trailing non-separator extends the last piece. */
  lemma SplitAfterPlainChar(t: string, c: char, sep: char)
    requires c != sep
    ensures var p := Split(t, sep);
            Split(t + [c], sep) == p[..|p| - 1] + [p[|p| - 1] + [c]]
  {
    var s := t + [c];
    assert s[..|s| - 1] == t;
  }

  /** Appending text without a separator extends the last piece only. */
  lemma {:induction false} SplitAppendPlain(t: string, u: string, sep: char)
    requires sep !in u
    ensures var p := Split(t, sep);
            Split(t + u, sep) == p[..|p| - 1] + [p[|p| - 1] + u]
    decreases |u|
  {
    var p := Split(t, sep);
    if |u| == 0 {
      assert t + u == t;
      assert p[|p| - 1] + u == p[|p| - 1];
      assert p == p[..|p| - 1] + [p[|p| - 1]];
    } else {
      var u' := u[..|u| - 1];
      var c := u[|u| - 1];
      assert c in u;
      SplitAppendPlain(t, u', sep);
      assert t + u == (t + u') + [c];
      SplitAfterPlainChar(t + u', c, sep);
      var q := Split(t + u', sep);
      assert q == p[..|p| - 1] + [p[|p| - 1] + u'];
      assert q[..|q| - 1] == p[..|p| - 1];
      assert q[|q| - 1] + [c] == p[|p| - 1] + u;
    }
  }

  /** Splitting the join of separator-free pieces gives back the pieces. */
  lemma {:induction false} SplitJoin(parts: seq<string>, sep: char)
    requires |parts| >= 1
    requires forall i :: 0 <= i < |parts| ==> sep !in parts[i]
    ensures Split(Join(parts, sep), sep) == parts
    decreases |parts|
  {
    var last := parts[|parts| - 1];
    if |parts| == 1 {
      SplitAppendPlain("", last, sep);
      assert "" + last == last;
    } else {
      var init := parts[..|parts| - 1];
      var j := Join(init, sep);
      SplitJoin(init, sep);
      SplitAfterSeparator(j, sep);
      SplitAppendPlain(j + [sep], last, sep);
      assert (init + [""])[..|init|] == init;
      assert "" + last == last;
      assert parts == init + [last];
    }
  }

  /** The last piece of a split: the suffix after the final separator. */
  lemma {:induction false} LastPieceIsSuffix(s: string, sep: char)
    ensures var p := Split(s, sep); var id := p[|p| - 1];
            && |id| <= |s|
            && s[|s| - |id|..] == id
            && (|id| < |s| ==> s[|s| - |id| - 1] == sep)
    decreases |s|
  {
    if |s| > 0 {
      var init := s[..|s| - 1];
      var c := s[|s| - 1];
      assert s == init + [c];
      LastPieceIsSuffix(init, sep);
      var p := Split(init, sep);
      var id := p[|p| - 1];
      if c == sep {
        SplitAfterSeparator(init, sep);
      } else {
        SplitAfterPlainChar(init, c, sep);
        assert s[|s| - |id| - 1..] == init[|init| - |id|..] + [c];
        if |id| + 1 < |s| {
          assert s[|s| - (|id| + 1) - 1] == init[|init| - |id| - 1];
        }
      }
    }
  }

  /** `href.split("/")[-1]`: the person id at the end of a person link. */
  function LastSegment(href: string): (id: string)
    ensures '/' !in id
    ensures |id| <= |href| && href[|href| - |id|..] == id
  {
    SplitPiecesAreSeparatorFree(href, '/');
    LastPieceIsSuffix(href, '/');
    var parts := Split(href, '/');
    parts[|parts| - 1]
  }

  /** The last segment is a `/`-free suffix of the link that is either the
      whole link or follows a `/`; a link without `/` is its own last segment. */
  lemma LastSegmentIsSuffix(href: string)
    ensures var id := LastSegment(href);
            && '/' !in id
            && |id| <= |href| && href[|href| - |id|..] == id
            && (|id| < |href| ==> href[|href| - |id| - 1] == '/')
            && ('/' !in href ==> id == href)
  {
    LastPieceIsSuffix(href, '/');
    SplitPiecesAreSeparatorFree(href, '/');
  }

  /** The properties of `LastSegmentIsSuffix` pin the last segment down: any
      `/`-free suffix that is the whole link or follows a `/` is it. */
  lemma LastSegmentUnique(href: string, id: string)
    requires '/' !in id
    requires |id| <= |href| && href[|href| - |id|..] == id
    requires |id| < |href| ==> href[|href| - |id| - 1] == '/'
    ensures id == LastSegment(href)
  {
    LastSegmentIsSuffix(href);
    var r := LastSegment(href);
    assert forall k :: 0 <= k < |r| ==> r[k] == href[|href| - |r| + k];
    assert forall k :: 0 <= k < |id| ==> id[k] == href[|href| - |id| + k];
    assert |r| == |id|;
  }
}
