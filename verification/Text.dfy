/** The name normalisation of the export script: `clean_name`, which is
    Python's `name.replace("  ", " ").strip()`. The module models the two
    string primitives it is built from — a single left-to-right pass of
    `str.replace` on a two-space pattern, and `str.strip()` with no
    argument — and proves what that composition does and does not promise. */
module Text {

  /** Python's `str.isspace` for one character, which is the test `str.strip()`
      applies when called without arguments: the ASCII controls TAB to CR and
      FS to US, SPACE, NEL, NO-BREAK SPACE, and the Unicode space separators
      and line/paragraph separators. */
  predicate IsSpace(c: char) {
    || ('\t' <= c <= '\r')
    || ('\U{1C}' <= c <= '\U{1F}')
    || c == ' '
    || c == '\U{85}'
    || c == '\U{A0}'
    || c == '\U{1680}'
    || ('\U{2000}' <= c <= '\U{200A}')
    || c == '\U{2028}'
    || c == '\U{2029}'
    || c == '\U{202F}'
    || c == '\U{205F}'
    || c == '\U{3000}'
  }

  /** Every character of `s` is whitespace. */
  ghost predicate AllSpace(s: string) {
    forall i :: 0 <= i < |s| ==> IsSpace(s[i])
  }

  /** `s` neither begins nor ends with whitespace: what `strip()` guarantees. */
  predicate IsTrimmed(s: string) {
    |s| == 0 || (!IsSpace(s[0]) && !IsSpace(s[|s| - 1]))
  }

  /** `s` begins with `n` U+0020 spaces. */
  predicate StartsWithSpaces(s: string, n: nat) {
    n <= |s| && forall k :: 0 <= k < n ==> s[k] == ' '
  }

  /** `s` contains a run of `n` consecutive U+0020 spaces somewhere:
      `HasSpaceRun(s, 2)` is Python's `"  " in s`. */
  predicate HasSpaceRun(s: string, n: nat)
    decreases |s|
  {
    if |s| < n then false
    else StartsWithSpaces(s, n) || HasSpaceRun(s[1..], n)
  }

  // ---------------------------------------------------------------------
  // str.strip()
  // ---------------------------------------------------------------------

  /** Number of whitespace characters `strip()` removes from the front of `s`. */
  function LeadingSpaces(s: string): (k: nat)
    ensures k <= |s|
    ensures AllSpace(s[..k])
    ensures k < |s| ==> !IsSpace(s[k])
  {
    if |s| > 0 && IsSpace(s[0]) then
      var k' := LeadingSpaces(s[1..]);
      assert forall i :: 1 <= i < k' + 1 ==> s[i] == s[1..][i - 1];
      k' + 1
    else 0
  }

  /** Number of whitespace characters `strip()` removes from the back of `s`. */
  function TrailingSpaces(s: string): (k: nat)
    ensures k <= |s|
    ensures AllSpace(s[|s| - k..])
    ensures k < |s| ==> !IsSpace(s[|s| - 1 - k])
  {
    if |s| > 0 && IsSpace(s[|s| - 1]) then
      var init := s[..|s| - 1];
      var k' := TrailingSpaces(init);
      assert forall i :: |s| - 1 - k' <= i < |s| - 1 ==> s[i] == init[i];
      k' + 1
    else 0
  }

  /** `lo`/`hi` cut `s` into an all-whitespace head, a trimmed middle and an
      all-whitespace tail: the shape of a `strip()` result. */
  ghost predicate StripBounds(s: string, lo: int, hi: int) {
    && 0 <= lo <= hi <= |s|
    && AllSpace(s[..lo])
    && AllSpace(s[hi..])
    && IsTrimmed(s[lo..hi])
  }

  /** Python's `s.strip()`: remove leading, then trailing, whitespace. */
  function Strip(s: string): (r: string)
    ensures IsTrimmed(r)
    ensures |r| <= |s|
  {
    var lo := LeadingSpaces(s);
    var t := s[lo..];
    var k := TrailingSpaces(t);
    assert t[..|t| - k] == s[lo..|s| - k];
    s[lo..|s| - k]
  }

  /** `Strip(s)` is the middle of a head/middle/tail cut of `s`. */
  lemma StripCut(s: string) returns (lo: int, hi: int)
    ensures StripBounds(s, lo, hi) && Strip(s) == s[lo..hi]
  {
    lo := LeadingSpaces(s);
    var t := s[lo..];
    var k := TrailingSpaces(t);
    hi := |s| - k;
    assert s[hi..] == t[|t| - k..];
    assert s[lo..hi] == t[..|t| - k];
  }

  /** The head/middle/tail cut of `StripBounds` is unique. */
  lemma StripBoundsUnique(s: string, lo: int, hi: int, lo': int, hi': int)
    requires StripBounds(s, lo, hi) && StripBounds(s, lo', hi')
    ensures s[lo..hi] == s[lo'..hi']
  {
    forall i | 0 <= i < lo ensures IsSpace(s[i]) { assert s[..lo][i] == s[i]; }
    forall i | 0 <= i < lo' ensures IsSpace(s[i]) { assert s[..lo'][i] == s[i]; }
    forall i | hi <= i < |s| ensures IsSpace(s[i]) { assert s[hi..][i - hi] == s[i]; }
    forall i | hi' <= i < |s| ensures IsSpace(s[i]) { assert s[hi'..][i - hi'] == s[i]; }
    // a non-empty middle starts at the first and ends at the last non-space
    if lo < hi {
      assert s[lo..hi][0] == s[lo] && s[lo..hi][hi - lo - 1] == s[hi - 1];
    }
    if lo' < hi' {
      assert s[lo'..hi'][0] == s[lo'] && s[lo'..hi'][hi' - lo' - 1] == s[hi' - 1];
    }
  }

  /** Any cut of `s` into whitespace / trimmed middle / whitespace yields `Strip(s)`:
      together with `Strip`'s contract this characterises `strip()` exactly. */
  lemma StripUnique(s: string, lo: int, hi: int)
    requires StripBounds(s, lo, hi)
    ensures Strip(s) == s[lo..hi]
  {
    var lo', hi' := StripCut(s);
    StripBoundsUnique(s, lo, hi, lo', hi');
  }

  /** `strip()` leaves a string unchanged exactly when it is already trimmed. */
  lemma StripNoOp(s: string)
    ensures Strip(s) == s <==> IsTrimmed(s)
  {
    if IsTrimmed(s) {
      assert s[..0] == [] && s[|s|..] == [] && s[0..|s|] == s;
      StripUnique(s, 0, |s|);
    }
  }

  // ---------------------------------------------------------------------
  // str.replace("  ", " ")
  // ---------------------------------------------------------------------

  /** Python's `s.replace("  ", " ")`: one left-to-right scan that replaces each
      non-overlapping occurrence of two spaces by one space. */
  function CollapseDoubleSpaces(s: string): (r: string)
    ensures |r| <= |s|
  {
    if |s| >= 2 && s[0] == ' ' && s[1] == ' ' then
      " " + CollapseDoubleSpaces(s[2..])
    else if |s| == 0 then
      ""
    else
      [s[0]] + CollapseDoubleSpaces(s[1..])
  }

  /** The pass changes its input exactly when the input contains `"  "`, and
      then it makes it strictly shorter. */
  lemma {:induction false} CollapseChangesIffDoubleSpace(s: string)
    ensures HasSpaceRun(s, 2) <==> |CollapseDoubleSpaces(s)| < |s|
    ensures !HasSpaceRun(s, 2) <==> CollapseDoubleSpaces(s) == s
    decreases |s|
  {
    if |s| >= 2 && s[0] == ' ' && s[1] == ' ' {
      assert StartsWithSpaces(s, 2);
    } else if |s| > 0 {
      CollapseChangesIffDoubleSpace(s[1..]);
      assert !StartsWithSpaces(s, 2);
      assert s == [s[0]] + s[1..];
    }
  }

  /** The string with every U+0020 removed. */
  function WithoutSpaces(s: string): string {
    if |s| == 0 then ""
    else if s[0] == ' ' then WithoutSpaces(s[1..])
    else [s[0]] + WithoutSpaces(s[1..])
  }

  /** The collapse pass deletes spaces and nothing else: every other character
      survives, in order. */
  lemma {:induction false} CollapseKeepsNonSpaces(s: string)
    ensures WithoutSpaces(CollapseDoubleSpaces(s)) == WithoutSpaces(s)
  {
    if |s| >= 2 && s[0] == ' ' && s[1] == ' ' {
      CollapseKeepsNonSpaces(s[2..]);
      var rest := CollapseDoubleSpaces(s[2..]);
      assert (" " + rest)[1..] == rest;
      assert s[1..][1..] == s[2..];
    } else if |s| > 0 {
      CollapseKeepsNonSpaces(s[1..]);
      assert ([s[0]] + CollapseDoubleSpaces(s[1..]))[1..] == CollapseDoubleSpaces(s[1..]);
    }
  }

  /** The result of the pass begins with a space exactly when its input does. */
  lemma CollapseFirstSpace(s: string)
    ensures StartsWithSpaces(CollapseDoubleSpaces(s), 1) <==> StartsWithSpaces(s, 1)
  {
    var r := CollapseDoubleSpaces(s);
    if |s| >= 2 && s[0] == ' ' && s[1] == ' ' {
      assert r[0] == ' ';
    } else if |s| > 0 {
      assert r[0] == s[0];
    }
  }

  /** The single pass does not remove every double space: the result contains
      `"  "` exactly when the input contains three spaces in a row. */
  lemma {:induction false} CollapseLeavesDoubleIffTriple(s: string)
    ensures HasSpaceRun(CollapseDoubleSpaces(s), 2) <==> HasSpaceRun(s, 3)
    decreases |s|
  {
    var r := CollapseDoubleSpaces(s);
    if |s| >= 2 && s[0] == ' ' && s[1] == ' ' {
      var rest := s[2..];
      var r' := CollapseDoubleSpaces(rest);
      CollapseLeavesDoubleIffTriple(rest);
      CollapseFirstSpace(rest);
      assert r == " " + r';
      assert r[1..] == r';
      assert s[1..][1..] == rest;
      // both sides reduce to: rest begins with a space, or rest has a triple
      assert HasSpaceRun(r, 2) <==> StartsWithSpaces(r', 1) || HasSpaceRun(r', 2);
      assert HasSpaceRun(s[1..], 3) <==> StartsWithSpaces(rest, 2) || HasSpaceRun(rest, 3);
      assert HasSpaceRun(s, 3) <==> StartsWithSpaces(rest, 1) || HasSpaceRun(rest, 3);
    } else if |s| > 0 {
      var r' := CollapseDoubleSpaces(s[1..]);
      CollapseLeavesDoubleIffTriple(s[1..]);
      CollapseFirstSpace(s[1..]);
      assert r == [s[0]] + r';
      assert r[1..] == r';
      assert !StartsWithSpaces(s, 3);
      assert r[0] == s[0];
      if s[0] == ' ' {
        assert !StartsWithSpaces(s[1..], 1);
        assert !StartsWithSpaces(r', 1);
      }
      assert !StartsWithSpaces(r, 2);
      assert HasSpaceRun(r, 2) <==> HasSpaceRun(r', 2);
      assert HasSpaceRun(s, 3) <==> HasSpaceRun(s[1..], 3);
    }
  }

  /** A run of `n` spaces inside a slice is a run inside the whole string. */
  lemma {:induction false} SpaceRunInPrefix(s: string, j: nat, n: nat)
    requires j <= |s|
    ensures HasSpaceRun(s[..j], n) ==> HasSpaceRun(s, n)
    decreases |s|
  {
    if HasSpaceRun(s[..j], n) && !StartsWithSpaces(s[..j], n) {
      assert s[..j][1..] == s[1..][..j - 1];
      SpaceRunInPrefix(s[1..], j - 1, n);
    }
  }

  lemma {:induction false} SpaceRunInSuffix(s: string, i: nat, n: nat)
    requires i <= |s|
    ensures HasSpaceRun(s[i..], n) ==> HasSpaceRun(s, n)
    decreases i
  {
    if i > 0 {
      assert s[i..] == s[1..][i - 1..];
      SpaceRunInSuffix(s[1..], i - 1, n);
    }
  }

  lemma SpaceRunInSlice(s: string, lo: nat, hi: nat, n: nat)
    requires lo <= hi <= |s|
    ensures HasSpaceRun(s[lo..hi], n) ==> HasSpaceRun(s, n)
  {
    assert s[lo..hi] == s[lo..][..hi - lo];
    SpaceRunInPrefix(s[lo..], hi - lo, n);
    SpaceRunInSuffix(s, lo, n);
  }

  /** Three spaces in a row contain two spaces in a row. */
  lemma {:induction false} TripleHasDouble(s: string)
    ensures HasSpaceRun(s, 3) ==> HasSpaceRun(s, 2)
    decreases |s|
  {
    if |s| >= 3 && !StartsWithSpaces(s, 3) {
      TripleHasDouble(s[1..]);
    }
  }

  // ---------------------------------------------------------------------
  // clean_name
  // ---------------------------------------------------------------------

  /** `clean_name(name)`: collapse one pass of double spaces, then strip. */
  function CleanName(name: string): (r: string)
    ensures IsTrimmed(r)
    ensures |r| <= |name|
  {
    Strip(CollapseDoubleSpaces(name))
  }

  /** `clean_name` returns its argument unchanged exactly when the argument is
      already trimmed and has no double space. */
  lemma CleanNameFixedPoint(s: string)
    ensures CleanName(s) == s <==> IsTrimmed(s) && !HasSpaceRun(s, 2)
  {
    CollapseChangesIffDoubleSpace(s);
    if !HasSpaceRun(s, 2) {
      StripNoOp(s);
    }
  }

  /** Applying `clean_name` a second time changes nothing exactly when the
      first result has no double space left. */
  lemma CleanNameTwiceIff(s: string)
    ensures CleanName(CleanName(s)) == CleanName(s) <==> !HasSpaceRun(CleanName(s), 2)
  {
    CleanNameFixedPoint(CleanName(s));
  }

  /** `clean_name` is idempotent on every name with no three spaces in a row. */
  lemma CleanNameIdempotentWithoutTripleSpace(s: string)
    requires !HasSpaceRun(s, 3)
    ensures CleanName(CleanName(s)) == CleanName(s)
  {
    var c := CollapseDoubleSpaces(s);
    CollapseLeavesDoubleIffTriple(s);
    assert !HasSpaceRun(c, 2);
    var lo, hi := StripCut(c);
    SpaceRunInSlice(c, lo, hi, 2);
    assert !HasSpaceRun(CleanName(s), 2);
    CleanNameTwiceIff(s);
  }

  /** On a name with no double space, `clean_name` is plain `strip()`, and it is
      idempotent. */
  lemma CleanNameWithoutDoubleSpace(s: string)
    requires !HasSpaceRun(s, 2)
    ensures CleanName(s) == Strip(s)
    ensures CleanName(CleanName(s)) == CleanName(s)
  {
    TripleHasDouble(s);
    CollapseChangesIffDoubleSpace(s);
    CleanNameIdempotentWithoutTripleSpace(s);
  }

  // ---------------------------------------------------------------------
  // clean_name on two words
  // ---------------------------------------------------------------------

  /** A non-empty run of non-whitespace characters, such as "Jane". */
  predicate IsWord(w: string) {
    |w| > 0 && forall i :: 0 <= i < |w| ==> !IsSpace(w[i])
  }

  /** The pass moves over a prefix without spaces unchanged. */
  lemma {:induction false} CollapseAfterSpacelessPrefix(a: string, b: string)
    requires forall i :: 0 <= i < |a| ==> a[i] != ' '
    ensures CollapseDoubleSpaces(a + b) == a + CollapseDoubleSpaces(b)
    decreases |a|
  {
    if |a| > 0 {
      var s := a + b;
      assert s[0] == a[0];
      assert s[1..] == a[1..] + b;
      CollapseAfterSpacelessPrefix(a[1..], b);
      assert a == [a[0]] + a[1..];
    } else {
      assert a + b == b;
    }
  }

  /** " Jane  Doe " becomes "Jane Doe": the double space is collapsed and the
      outer spaces are stripped. */
  lemma CleanNameSpacedWords(a: string, b: string)
    requires IsWord(a) && IsWord(b)
    ensures CleanName(" " + a + "  " + b + " ") == a + " " + b
  {
    var s := " " + a + "  " + b + " ";
    assert s == " " + (a + ("  " + (b + " ")));
    CollapseAfterSpacelessPrefix(b, " ");
    assert CollapseDoubleSpaces("  " + (b + " ")) == " " + CollapseDoubleSpaces(b + " ") by {
      assert ("  " + (b + " "))[2..] == b + " ";
    }
    CollapseAfterSpacelessPrefix(a, "  " + (b + " "));
    assert CollapseDoubleSpaces(s) == " " + CollapseDoubleSpaces(a + ("  " + (b + " "))) by {
      assert s[1..] == a + ("  " + (b + " "));
    }
    var c := CollapseDoubleSpaces(s);
    assert c == " " + (a + " " + b) + " ";
    var m := a + " " + b;
    assert c[1..|c| - 1] == m;
    assert m[0] == a[0] && m[|m| - 1] == b[|b| - 1];
    StripUnique(c, 1, |c| - 1);
  }

  /** "Jane  Doe" becomes "Jane Doe". */
  lemma CleanNameDoubleSpacedWords(a: string, b: string)
    requires IsWord(a) && IsWord(b)
    ensures CleanName(a + "  " + b) == a + " " + b
  {
    assert a + "  " + b == a + ("  " + b);
    CollapseAfterSpacelessPrefix(a, "  " + b);
    assert CollapseDoubleSpaces("  " + b) == " " + CollapseDoubleSpaces(b) by {
      assert ("  " + b)[2..] == b;
    }
    CollapseAfterSpacelessPrefix(b, "");
    assert b + "" == b;
    var c := CollapseDoubleSpaces(a + "  " + b);
    assert c == a + " " + b;
    assert c[0] == a[0] && c[|c| - 1] == b[|b| - 1];
    StripNoOp(c);
  }

  /** The pass turns three spaces between words into two. */
  lemma CollapseTripleSpacedWords(a: string, b: string)
    requires IsWord(a) && IsWord(b)
    ensures CollapseDoubleSpaces(a + "   " + b) == a + "  " + b
  {
    assert a + "   " + b == a + ("   " + b);
    CollapseAfterSpacelessPrefix(a, "   " + b);
    assert CollapseDoubleSpaces("   " + b) == " " + CollapseDoubleSpaces(" " + b) by {
      assert ("   " + b)[2..] == " " + b;
    }
    CollapseAfterSpacelessPrefix(b, "");
    assert b + "" == b;
    assert CollapseDoubleSpaces(" " + b) == " " + b by {
      assert (" " + b)[1..] == b;
      assert (" " + b)[1] == b[0];
    }
  }

  /** "Jane   Doe" (three spaces) becomes "Jane  Doe": one pass leaves a double
      space behind, so a second application changes the result again and
      `clean_name` is not idempotent. */
  lemma CleanNameTripleSpacedWords(a: string, b: string)
    requires IsWord(a) && IsWord(b)
    ensures CleanName(a + "   " + b) == a + "  " + b
    ensures CleanName(CleanName(a + "   " + b)) == a + " " + b
    ensures CleanName(CleanName(a + "   " + b)) != CleanName(a + "   " + b)
  {
    CollapseTripleSpacedWords(a, b);
    var c := a + "  " + b;
    assert c[0] == a[0] && c[|c| - 1] == b[|b| - 1];
    StripNoOp(c);
    CleanNameDoubleSpacedWords(a, b);
  }
}
