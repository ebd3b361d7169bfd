/*
  Input clean-up and the small lookups around it
  (deployment/utils/text_processing.py:11-21, 60-61, 148-184).

  Whitespace is Python's: the code points for which str.isspace holds,
  which are also the ones the regular expression \s matches. The regular
  expression class \w is Unicode-dependent and is a parameter, `isWord`.
*/
module Cleaning {
  import opened Replace
  import opened Orthography

  // ---------------------------------------------------------------------
  // Whitespace

  /** Python's whitespace: tab to carriage return, the four information
      separators, space, next line, no-break space, Ogham space mark, the
      en quad to hair space block, line and paragraph separators, narrow
      no-break space, medium mathematical space, ideographic space. */
  predicate IsSpace(c: char)
  {
    (9 <= c as int <= 13) || (0x1c <= c as int <= 0x20) || c as int == 0x85 || c as int == 0xa0 ||
    c as int == 0x1680 || (0x2000 <= c as int <= 0x200a) || c as int == 0x2028 || c as int == 0x2029 ||
    c as int == 0x202f || c as int == 0x205f || c as int == 0x3000
  }

  /** The text with every whitespace character taken out. */
  function Visible(s: string): string
    decreases |s|
  {
    if |s| == 0 then [] else (if IsSpace(s[0]) then [] else [s[0]]) + Visible(s[1..])
  }

  lemma {:induction false} VisibleConcat(a: string, b: string)
    ensures Visible(a + b) == Visible(a) + Visible(b)
    decreases |a|
  {
    if |a| == 0 {
      assert a + b == b;
    } else {
      assert (a + b)[1..] == a[1..] + b;
      VisibleConcat(a[1..], b);
    }
  }

  predicate AllSpace(s: string)
  {
    forall k | 0 <= k < |s| :: IsSpace(s[k])
  }

  lemma {:induction false} VisibleOfSpace(s: string)
    requires AllSpace(s)
    ensures Visible(s) == []
    decreases |s|
  {
    if |s| > 0 {
      assert forall k | 0 <= k < |s| - 1 :: s[1..][k] == s[k + 1];
      VisibleOfSpace(s[1..]);
    }
  }

  /** The only whitespace in `s` is the plain space, never two in a row. */
  predicate SingleSpaced(s: string)
  {
    (forall k | 0 <= k < |s| :: IsSpace(s[k]) ==> s[k] == ' ') && NoPair(s, ' ', ' ')
  }

  /** re.sub(r"\s+", " ", s): every run of whitespace becomes one space.
      What is not whitespace is kept in order, and the result is single
      spaced; it starts with whitespace exactly when the text does. */
  function CollapseWhitespace(s: string): (r: string)
    ensures |r| <= |s|
    ensures Visible(r) == Visible(s)
    ensures SingleSpaced(r)
    ensures |s| > 0 ==> |r| > 0 && (IsSpace(r[0]) <==> IsSpace(s[0]))
    ensures |s| > 0 && !IsSpace(s[0]) ==> r[0] == s[0]
    decreases |s|
  {
    if |s| == 0 then []
    else if IsSpace(s[0]) && |s| > 1 && IsSpace(s[1]) then
      CollapseWhitespace(s[1..])
    else
      var rest := CollapseWhitespace(s[1..]);
      var head := if IsSpace(s[0]) then " " else [s[0]];
      CollapseKeepsVisible(s, head, rest);
      CollapseKeepsSpacing(s, head, rest);
      head + rest
  }

  /** The inductive step of CollapseWhitespace, for what is visible. */
  lemma CollapseKeepsVisible(s: string, head: string, rest: string)
    requires |s| > 0 && head == (if IsSpace(s[0]) then " " else [s[0]])
    requires Visible(rest) == Visible(s[1..])
    ensures Visible(head + rest) == Visible(s)
  {
    VisibleConcat(head, rest);
    VisibleConcat([s[0]], s[1..]);
    assert s == [s[0]] + s[1..];
  }

  /** The inductive step of CollapseWhitespace, for the spacing. */
  lemma CollapseKeepsSpacing(s: string, head: string, rest: string)
    requires |s| > 0 && head == (if IsSpace(s[0]) then " " else [s[0]])
    requires SingleSpaced(rest) && |rest| <= |s| - 1
    requires |s| > 1 ==> |rest| > 0 && (IsSpace(rest[0]) <==> IsSpace(s[1]))
    requires IsSpace(s[0]) && |s| > 1 ==> !IsSpace(s[1])
    ensures SingleSpaced(head + rest)
  {
    NoPairConcat(head, rest, ' ', ' ');
    forall k | 0 <= k < |head + rest| && IsSpace((head + rest)[k]) ensures (head + rest)[k] == ' ' {
      if k > 0 {
        assert (head + rest)[k] == rest[k - 1];
      }
    }
  }

  /** The number of whitespace characters `s` starts with. */
  function LeadingSpaces(s: string): (n: nat)
    ensures n <= |s| && AllSpace(s[..n])
    ensures n == |s| || !IsSpace(s[n])
    decreases |s|
  {
    if |s| > 0 && IsSpace(s[0]) then
      var n := LeadingSpaces(s[1..]);
      assert s[..n + 1] == [s[0]] + s[1..][..n];
      n + 1
    else 0
  }

  /** The length of `s` without the whitespace it ends with. */
  function TrailingStart(s: string): (n: nat)
    ensures n <= |s| && AllSpace(s[n..])
    ensures n == 0 || !IsSpace(s[n - 1])
    decreases |s|
  {
    if |s| > 0 && IsSpace(s[|s| - 1]) then
      var n := TrailingStart(s[..|s| - 1]);
      assert s[n..] == s[..|s| - 1][n..] + [s[|s| - 1]];
      n
    else |s|
  }

  /** str.strip(): leading and trailing whitespace removed. The result is
      the slice after the leading whitespace, and only whitespace follows
      it. */
  function Strip(s: string): (r: string)
    ensures |r| == 0 || (!IsSpace(r[0]) && !IsSpace(r[|r| - 1]))
    ensures LeadingSpaces(s) + |r| <= |s|
    ensures r == s[LeadingSpaces(s)..LeadingSpaces(s) + |r|]
    ensures AllSpace(s[LeadingSpaces(s) + |r|..])
  {
    var i := LeadingSpaces(s);
    var t := s[i..];
    var j := TrailingStart(t);
    assert t[j..] == s[i + j..];
    s[i..i + j]
  }

  /** Dropping whitespace from either end keeps what is visible. */
  lemma DropSpacesKeepsVisible(s: string, i: int, j: int)
    requires 0 <= i <= j <= |s|
    requires AllSpace(s[..i]) && AllSpace(s[j..])
    ensures Visible(s[i..j]) == Visible(s)
  {
    var head, mid, tail := s[..i], s[i..j], s[j..];
    assert s == head + (mid + tail);
    VisibleOfSpace(head);
    VisibleOfSpace(tail);
    VisibleConcat(mid, tail);
    VisibleConcat(head, mid + tail);
  }

  /** A slice of single-spaced text is single spaced. */
  lemma SliceSingleSpaced(s: string, i: int, j: int)
    requires 0 <= i <= j <= |s| && SingleSpaced(s)
    ensures SingleSpaced(s[i..j])
  {
    assert forall k | 0 <= k < j - i :: s[i..j][k] == s[i + k];
  }

  /** The first step of clean_text: whitespace runs become single spaces
      and the ends are trimmed. What is not whitespace is kept in order;
      what whitespace is left is single spaces between other characters. */
  function NormalizeSpaces(text: string): (r: string)
    ensures Visible(r) == Visible(text)
    ensures SingleSpaced(r)
    ensures |r| == 0 || (r[0] != ' ' && r[|r| - 1] != ' ')
  {
    var collapsed := CollapseWhitespace(text);
    var r := Strip(collapsed);
    NormalizeStep(collapsed, r);
    r
  }

  /** Stripping a collapsed text. */
  lemma NormalizeStep(collapsed: string, r: string)
    requires SingleSpaced(collapsed) && r == Strip(collapsed)
    ensures Visible(r) == Visible(collapsed) && SingleSpaced(r)
  {
    var i := LeadingSpaces(collapsed);
    var j := i + |r|;
    assert r == collapsed[i..j] && AllSpace(collapsed[..i]) && AllSpace(collapsed[j..]);
    DropSpacesKeepsVisible(collapsed, i, j);
    SliceSingleSpaced(collapsed, i, j);
  }

  /** The leading whitespace ends at the first non-space character. */
  lemma LeadingSpacesAt(s: string, m: nat)
    requires m <= |s|
    requires forall k | 0 <= k < m :: IsSpace(s[k])
    requires m == |s| || !IsSpace(s[m])
    ensures LeadingSpaces(s) == m
  {
    AllSpaceSlice(s, 0, LeadingSpaces(s));
  }

  /** The stripped text ends after the last non-space character. */
  lemma StripEndAt(s: string, e: nat)
    requires LeadingSpaces(s) < e <= |s|
    requires forall k | e <= k < |s| :: IsSpace(s[k])
    requires !IsSpace(s[e - 1])
    ensures LeadingSpaces(s) + |Strip(s)| == e
  {
    var n := LeadingSpaces(s);
    var r := Strip(s);
    var f := n + |r|;
    AllSpaceSuffix(s, f);
    SliceLast(s, n, f, r);
    LastNonSpace(s, n, f, e);
  }

  /** Every character of an all-space suffix is whitespace. */
  lemma AllSpaceSuffix(s: string, f: nat)
    requires f <= |s| && AllSpace(s[f..])
    ensures forall k | f <= k < |s| :: IsSpace(s[k])
  {
    forall k | f <= k < |s| ensures IsSpace(s[k]) {
      assert s[f..][k - f] == s[k];
    }
  }

  /** A non-empty slice ends with the character before its end. */
  lemma SliceLast(s: string, n: nat, f: nat, r: string)
    requires n <= f <= |s| && r == s[n..f]
    ensures f > n ==> r[|r| - 1] == s[f - 1]
  {
  }

  /** Two positions after which only whitespace follows, each preceded by
      a non-space character, are the same position. */
  lemma LastNonSpace(s: string, n: nat, f: nat, e: nat)
    requires n < e <= |s| && n <= f <= |s|
    requires forall k | e <= k < |s| :: IsSpace(s[k])
    requires !IsSpace(s[e - 1])
    requires forall k | f <= k < |s| :: IsSpace(s[k])
    requires f > n ==> !IsSpace(s[f - 1])
    ensures f == e
  {
  }

  /** Every character of an all-space slice is whitespace. */
  lemma AllSpaceSlice(s: string, i: nat, j: nat)
    requires i <= j <= |s| && AllSpace(s[i..j])
    ensures forall k | i <= k < j :: IsSpace(s[k])
  {
    forall k | i <= k < j ensures IsSpace(s[k]) {
      assert s[i..j][k - i] == s[k];
    }
  }

  /** Strip finds the one split of `s` into whitespace, a middle that
      neither starts nor ends with whitespace, and whitespace. */
  lemma StripUnique(s: string, a: string, t: string, b: string)
    requires s == a + t + b && AllSpace(a) && AllSpace(b)
    requires |t| == 0 || (!IsSpace(t[0]) && !IsSpace(t[|t| - 1]))
    ensures Strip(s) == t
  {
    var e := |a| + |t|;
    assert forall k | 0 <= k < |a| :: IsSpace(s[k]) by {
      forall k | 0 <= k < |a| ensures IsSpace(s[k]) { assert s[k] == a[k]; }
    }
    assert forall k | e <= k < |s| :: IsSpace(s[k]) by {
      forall k | e <= k < |s| ensures IsSpace(s[k]) { assert s[k] == b[k - e]; }
    }
    if |t| == 0 {
      LeadingSpacesAt(s, |s|);
    } else {
      assert s[|a|] == t[0] && s[e - 1] == t[|t| - 1];
      LeadingSpacesAt(s, |a|);
      StripEndAt(s, e);
      assert s[|a|..e] == t;
    }
  }

  /** Two runs of whitespace make one. */
  lemma AllSpaceConcat(x: string, y: string)
    requires AllSpace(x) && AllSpace(y)
    ensures AllSpace(x + y)
  {
    forall k | 0 <= k < |x + y| ensures IsSpace((x + y)[k]) {
      if k >= |x| { assert (x + y)[k] == y[k - |x|]; }
    }
  }

  /** A text is what comes before a slice, the slice, and what comes
      after it. */
  lemma ThreeSlices(s: string, n: nat, t: string)
    requires n + |t| <= |s| && t == s[n..n + |t|]
    ensures s == s[..n] + t + s[n + |t|..]
  {
  }

  /** Padding a three-part text adds to its outer parts. Stated on its
      own to keep the proof of StripIgnoresPadding small. */
  lemma Regroup(p: string, a: string, t: string, b: string, q: string)
    ensures p + (a + t + b) + q == (p + a) + t + (b + q)
  {
  }

  /** Whitespace around a text does not change what Strip returns. */
  lemma StripIgnoresPadding(s: string, pre: string, post: string)
    requires AllSpace(pre) && AllSpace(post)
    ensures Strip(pre + s + post) == Strip(s)
  {
    var n := LeadingSpaces(s);
    var t := Strip(s);
    var a, b := s[..n], s[n + |t|..];
    ThreeSlices(s, n, t);
    Regroup(pre, a, t, b, post);
    AllSpaceConcat(pre, a);
    AllSpaceConcat(b, post);
    StripUnique(pre + s + post, pre + a, t, b + post);
  }

  /** No whitespace at all. */
  predicate NoSpace(s: string)
  {
    forall k | 0 <= k < |s| :: !IsSpace(s[k])
  }

  /** A text without whitespace is left as it is by the collapse. */
  lemma {:induction false} CollapseNoSpace(s: string)
    requires NoSpace(s)
    ensures CollapseWhitespace(s) == s
    decreases |s|
  {
    if |s| > 0 {
      assert NoSpace(s[1..]) by {
        forall k | 0 <= k < |s| - 1 ensures !IsSpace(s[1..][k]) {
          assert s[1..][k] == s[k + 1];
        }
      }
      CollapseNoSpace(s[1..]);
      assert !IsSpace(s[0]);
    }
  }

  /** A whitespace run at the start, followed by a non-space character or
      by nothing, becomes one space. */
  lemma {:induction false} CollapseRun(w: string, b: string)
    requires AllSpace(w) && |w| > 0
    requires |b| == 0 || !IsSpace(b[0])
    ensures CollapseWhitespace(w + b) == " " + CollapseWhitespace(b)
    decreases |w|
  {
    var s := w + b;
    assert s[0] == w[0] && s[1..] == w[1..] + b;
    if |w| == 1 {
      assert w[1..] + b == b;
      assert |s| > 1 ==> s[1] == b[0];
    } else {
      assert s[1] == w[1];
      assert AllSpace(w[1..]) by {
        forall k | 0 <= k < |w| - 1 ensures IsSpace(w[1..][k]) {
          assert w[1..][k] == w[k + 1];
        }
      }
      CollapseRun(w[1..], b);
    }
  }

  /** What CollapseWhitespace writes for the first character of `s`: a
      space that another space follows writes nothing, any other space one
      plain space, and any other character itself. */
  function CollapseHead(s: string): string
    requires |s| > 0
  {
    if IsSpace(s[0]) && |s| > 1 && IsSpace(s[1]) then [] else if IsSpace(s[0]) then " " else [s[0]]
  }

  /** CollapseWhitespace, one character at a time. */
  lemma CollapseCons(s: string)
    requires |s| > 0
    ensures CollapseWhitespace(s) == CollapseHead(s) + CollapseWhitespace(s[1..])
  {
  }

  /** A text that ends in a non-space character, or is empty, collapses
      on its own when more text follows it. */
  lemma {:induction false} CollapsePrefix(a: string, t: string)
    requires |a| == 0 || !IsSpace(a[|a| - 1])
    ensures CollapseWhitespace(a + t) == CollapseWhitespace(a) + CollapseWhitespace(t)
    decreases |a|
  {
    if |a| == 0 {
      assert a + t == t;
    } else {
      var tail := a[1..];
      TailOfJoin(a, t);
      CollapsePrefix(tail, t);
      SameHead(a, t);
      CollapseCons(a + t);
      CollapseCons(a);
      Associate(CollapseHead(a), CollapseWhitespace(tail), CollapseWhitespace(t));
    }
  }

  /** Dropping the first character of a joined text drops it from the
      first part, which still ends as it did. */
  lemma TailOfJoin(a: string, t: string)
    requires |a| > 0
    ensures (a + t)[1..] == a[1..] + t
    ensures |a| == 1 || a[1..][|a| - 2] == a[|a| - 1]
  {
  }

  /** The first character is written the same way whatever follows a
      text that ends in a non-space character. */
  lemma SameHead(a: string, t: string)
    requires |a| > 0 && !IsSpace(a[|a| - 1])
    ensures CollapseHead(a + t) == CollapseHead(a)
  {
    assert (a + t)[0] == a[0];
    if |a| > 1 {
      assert (a + t)[1] == a[1];
    }
  }

  /** re.sub(r"\s+", " ", ...) on a whole whitespace run between two
      texts: the run becomes one space, and each side is collapsed on its
      own. */
  lemma CollapseSplit(a: string, w: string, b: string)
    requires AllSpace(w) && |w| > 0
    requires |a| == 0 || !IsSpace(a[|a| - 1])
    requires |b| == 0 || !IsSpace(b[0])
    ensures CollapseWhitespace(a + w + b) == CollapseWhitespace(a) + " " + CollapseWhitespace(b)
  {
    var t := w + b;
    Associate(a, w, b);
    CollapsePrefix(a, t);
    CollapseRun(w, b);
    Associate(CollapseWhitespace(a), " ", CollapseWhitespace(b));
  }

  /** Regrouping three texts. Stated on its own to keep the proofs of
      CollapseSplit and CollapsePrefix small. */
  lemma Associate(a: string, w: string, b: string)
    ensures a + w + b == a + (w + b)
  {
  }

  /** A text ending in a non-space character collapses to one ending in
      that character. */
  lemma {:induction false} CollapseEnd(s: string)
    requires |s| > 0 && !IsSpace(s[|s| - 1])
    ensures |CollapseWhitespace(s)| > 0
    ensures CollapseWhitespace(s)[|CollapseWhitespace(s)| - 1] == s[|s| - 1]
    decreases |s|
  {
    if |s| > 1 {
      assert s[1..][|s| - 2] == s[|s| - 1];
      CollapseEnd(s[1..]);
    }
  }

  /** A text that ends in a non-space character is its leading whitespace
      followed by its stripped form. */
  lemma StripOfTextEnd(x: string)
    requires |x| > 0 && !IsSpace(x[|x| - 1])
    ensures |Strip(x)| > 0
    ensures x == x[..LeadingSpaces(x)] + Strip(x)
  {
    var n := LeadingSpaces(x);
    var r := Strip(x);
    AllSpaceSlice(x, 0, n);
    StripEndAt(x, |x|);
    SliceToEnd(x, n, r);
  }

  /** A text is its prefix followed by the slice from there to its end. */
  lemma SliceToEnd(x: string, n: nat, r: string)
    requires n + |r| == |x| && r == x[n..n + |r|]
    ensures x == x[..n] + r
  {
  }

  /** A text that starts with a non-space character is its stripped form
      followed by whitespace. */
  lemma StripOfTextStart(y: string)
    requires |y| > 0 && !IsSpace(y[0])
    ensures |Strip(y)| > 0
    ensures y == Strip(y) + y[|Strip(y)|..] && AllSpace(y[|Strip(y)|..])
  {
    LeadingSpacesAt(y, 0);
    assert y[0..] == y;
    assert Strip(y) == y[..|Strip(y)|];
  }

  /** Stripping two texts joined by one space, where neither side has
      whitespace next to that space, strips each. */
  lemma StripJoin(x: string, y: string)
    requires |x| > 0 && !IsSpace(x[|x| - 1])
    requires |y| > 0 && !IsSpace(y[0])
    ensures Strip(x + " " + y) == Strip(x) + " " + Strip(y)
  {
    var sx, sy := Strip(x), Strip(y);
    StripOfTextEnd(x);
    StripOfTextStart(y);
    var lead, tail := x[..LeadingSpaces(x)], y[|sy|..];
    assert x + " " + y == lead + sx + " " + sy + tail;
    StripOfParts(lead, sx, sy, tail);
  }

  /** Whitespace, two texts joined by a space, whitespace: the two texts
      are what Strip finds when the first starts and the second ends with
      a non-space character. */
  lemma StripOfParts(lead: string, sx: string, sy: string, tail: string)
    requires AllSpace(lead) && AllSpace(tail)
    requires |sx| > 0 && !IsSpace(sx[0])
    requires |sy| > 0 && !IsSpace(sy[|sy| - 1])
    ensures Strip(lead + sx + " " + sy + tail) == sx + " " + sy
  {
    var middle := sx + " " + sy;
    assert lead + sx + " " + sy + tail == lead + middle + tail;
    assert middle[0] == sx[0] && middle[|middle| - 1] == sy[|sy| - 1];
    StripUnique(lead + middle + tail, lead, middle, tail);
  }

  /** A text without whitespace passes the first step of clean_text
      unchanged. */
  lemma NormalizeNoSpace(s: string)
    requires NoSpace(s)
    ensures NormalizeSpaces(s) == s
  {
    CollapseNoSpace(s);
    assert s == [] + s + [];
    StripUnique(s, [], s, []);
  }

  /** The first step of clean_text on a whole whitespace run between two
      texts: the run becomes one space when there is text on both sides,
      and disappears at either end. */
  lemma NormalizeSplit(a: string, w: string, b: string)
    requires AllSpace(w) && |w| > 0
    requires |a| == 0 || !IsSpace(a[|a| - 1])
    requires |b| == 0 || !IsSpace(b[0])
    ensures NormalizeSpaces(a + w + b) ==
      if |a| == 0 then NormalizeSpaces(b)
      else if |b| == 0 then NormalizeSpaces(a)
      else NormalizeSpaces(a) + " " + NormalizeSpaces(b)
  {
    CollapseSplit(a, w, b);
    var x, y := CollapseWhitespace(a), CollapseWhitespace(b);
    if |a| == 0 {
      StripAfterSpace(x, y);
    } else if |b| == 0 {
      StripBeforeSpace(x, y);
    } else {
      CollapseEnd(a);
      StripJoin(x, y);
    }
  }

  /** With nothing before the space, Strip drops it. */
  lemma StripAfterSpace(x: string, y: string)
    requires |x| == 0
    ensures Strip(x + " " + y) == Strip(y)
  {
    assert x + " " + y == " " + y + [];
    StripIgnoresPadding(y, " ", []);
  }

  /** With nothing after the space, Strip drops it. */
  lemma StripBeforeSpace(x: string, y: string)
    requires |y| == 0
    ensures Strip(x + " " + y) == Strip(x)
  {
    assert x + " " + y == [] + x + " ";
    StripIgnoresPadding(x, [], " ");
  }

  /** Two words with one space between them stay as they are. */
  lemma WordsKeepTheirSpace(x: string, y: string)
    requires |x| > 0 && |y| > 0 && NoSpace(x) && NoSpace(y)
    ensures NormalizeSpaces(x + " " + y) == x + " " + y
  {
    NormalizeSplit(x, " ", y);
    NormalizeNoSpace(x);
    NormalizeNoSpace(y);
  }

  // ---------------------------------------------------------------------
  // Old Romanian î inside a word

  /** The î at position `k` of `s` stands between two word characters;
      `afterWord` says whether the character before `s` is one. */
  predicate InnerIAt(s: string, k: int, afterWord: bool, isWord: char -> bool)
    requires 0 <= k < |s|
  {
    s[k] == 'î' && (if k == 0 then afterWord else isWord(s[k - 1])) && k + 1 < |s| && isWord(s[k + 1])
  }

  /** The scan behind ModernizeInnerI: each î between word characters
      becomes â, everything else is copied. */
  function ModernizeScan(s: string, afterWord: bool, isWord: char -> bool): (r: string)
    ensures |r| == |s|
    ensures forall k | 0 <= k < |s| :: r[k] == (if InnerIAt(s, k, afterWord, isWord) then 'â' else s[k])
    decreases |s|
  {
    if |s| == 0 then []
    else
      var c := if InnerIAt(s, 0, afterWord, isWord) then 'â' else s[0];
      var rest := ModernizeScan(s[1..], isWord(s[0]), isWord);
      ScanStep(s, afterWord, isWord, c, rest);
      [c] + rest
  }

  /** The inductive step of ModernizeScan. */
  lemma ScanStep(s: string, afterWord: bool, isWord: char -> bool, c: char, rest: string)
    requires |s| > 0 && c == (if InnerIAt(s, 0, afterWord, isWord) then 'â' else s[0])
    requires |rest| == |s| - 1
    requires forall k | 0 <= k < |s| - 1 ::
      rest[k] == (if InnerIAt(s[1..], k, isWord(s[0]), isWord) then 'â' else s[1..][k])
    ensures forall k | 0 <= k < |s| ::
      ([c] + rest)[k] == (if InnerIAt(s, k, afterWord, isWord) then 'â' else s[k])
  {
    forall k | 1 <= k < |s|
      ensures ([c] + rest)[k] == (if InnerIAt(s, k, afterWord, isWord) then 'â' else s[k])
    {
      assert ([c] + rest)[k] == rest[k - 1];
      assert InnerIAt(s[1..], k - 1, isWord(s[0]), isWord) == InnerIAt(s, k, afterWord, isWord);
    }
  }

  /** re.sub(r"(?<=\w)î(?=\w)", "â", text): an î with a word character on
      both sides becomes â; the neighbours are read in the original text,
      so in "aîîb" both î change. Every other character is kept. */
  function ModernizeInnerI(text: string, isWord: char -> bool): (r: string)
    ensures |r| == |text|
    ensures forall k | 0 <= k < |text| ::
      r[k] == (if text[k] == 'î' && 0 < k < |text| - 1 && isWord(text[k - 1]) && isWord(text[k + 1])
               then 'â' else text[k])
  {
    ModernizeScan(text, false, isWord)
  }

  // ---------------------------------------------------------------------
  // Replacement tables of clean_text

  /** s and t with cedilla. */
  predicate Cedilla(c: char)
  {
    c == 'Ş' || c == 'ş' || c == 'Ţ' || c == 'ţ'
  }

  /** A Romanian step: a cedilla letter to its comma-below form. */
  type CedillaRule = r: Rule | |r.pat| == 1 && Cedilla(r.pat[0]) && |r.rep| == 1 && CommaBelow(r.rep[0])
    witness Rule("ş", "ș")

  const RON_RULES: seq<CedillaRule> := [
    Rule("Ş", "Ș"), Rule("ş", "ș"), Rule("Ţ", "Ț"), Rule("ţ", "ț")
  ]

  /** The characters clean_text removes or rewrites for every language:
      em dash, ellipsis, asterisk, angle brackets, the curly quotes,
      no-break space and the byte order mark. */
  predicate Stray(c: char)
  {
    c == '—' || c == '…' || c == '*' || c == '<' || c == '>' ||
    c == '„' || c == '”' || c == '“' || c == '\U{00A0}' || c == '\U{FEFF}'
  }

  /** A step for every language: a stray character to a hyphen, dots, a
      straight double quote, or nothing. */
  type PunctuationRule = r: Rule |
    |r.pat| == 1 && Stray(r.pat[0]) && forall c <- r.rep :: c == '-' || c == '.' || c == '"'
    witness Rule("*", "")

  const SYMBOL_RULES: seq<PunctuationRule> := [
    Rule("—", "-"), Rule("…", "..."), Rule("*", ""), Rule("<", ""), Rule(">", "")
  ]

  /** Curly quotes to straight ones; ” appears twice. */
  const QUOTE_RULES: seq<PunctuationRule> := [
    Rule("„", "\""), Rule("”", "\""), Rule("“", "\""), Rule("”", "\"")
  ]

  const INVISIBLE_RULES: seq<PunctuationRule> := [
    Rule("\U{00A0}", ""), Rule("\U{FEFF}", "")
  ]

  const PUNCTUATION_RULES: seq<PunctuationRule> := SYMBOL_RULES + QUOTE_RULES + INVISIBLE_RULES

  /** A pass over punctuation steps leaves none of their characters
      behind and brings in no character but hyphen, dot and double quote. */
  lemma PunctuationPass(s: string, rules: seq<PunctuationRule>)
    ensures WellFormed(rules)
    ensures forall r <- rules :: r.pat[0] !in ApplyRules(s, rules)
    ensures forall c <- ApplyRules(s, rules) :: c in s || c == '-' || c == '.' || c == '"'
  {
    assert ShortPatterns(rules);
    forall r <- rules, r' <- rules ensures Inert(r'.rep, r.pat) {
      assert Stray(r.pat[0]);
    }
    ApplyRulesRemovesAll(s, rules);
    forall c | c in ApplyRules(s, rules) && c !in s ensures c == '-' || c == '.' || c == '"' {
      ApplyRulesChars(s, rules, c);
    }
  }

  /** The comma-below letters the Romanian steps write. */
  predicate CommaBelow(c: char)
  {
    c == 'Ș' || c == 'ș' || c == 'Ț' || c == 'ț'
  }

  /** A pass over Romanian steps leaves none of their letters behind and
      brings in nothing but comma-below letters. */
  lemma CedillaPass(s: string, rules: seq<CedillaRule>)
    ensures WellFormed(rules)
    ensures forall r <- rules :: r.pat[0] !in ApplyRules(s, rules)
    ensures forall c <- ApplyRules(s, rules) :: c in s || CommaBelow(c)
  {
    assert ShortPatterns(rules);
    forall r <- rules, r' <- rules ensures Inert(r'.rep, r.pat) {
      assert r'.rep == [r'.rep[0]];
    }
    ApplyRulesRemovesAll(s, rules);
    forall c | c in ApplyRules(s, rules) && c !in s ensures CommaBelow(c) {
      ApplyRulesChars(s, rules, c);
      var r :| r in rules && c in r.rep;
      assert r.rep == [r.rep[0]];
    }
  }

  /** Every cedilla letter has a Romanian step. */
  lemma CedillaCovered(c: char)
    requires Cedilla(c)
    ensures exists r <- RON_RULES :: r.pat[0] == c
  {
    if c == 'Ş' { assert RON_RULES[0].pat[0] == c; }
    else if c == 'ş' { assert RON_RULES[1].pat[0] == c; }
    else if c == 'Ţ' { assert RON_RULES[2].pat[0] == c; }
    else { assert RON_RULES[3].pat[0] == c; }
  }

  /** Every stray character has a punctuation step. */
  lemma StrayCovered(c: char)
    requires Stray(c)
    ensures exists r <- PUNCTUATION_RULES :: r.pat[0] == c
  {
    var r: Rule;
    if c == '—' { r := SYMBOL_RULES[0]; }
    else if c == '…' { r := SYMBOL_RULES[1]; }
    else if c == '*' { r := SYMBOL_RULES[2]; }
    else if c == '<' { r := SYMBOL_RULES[3]; }
    else if c == '>' { r := SYMBOL_RULES[4]; }
    else if c == '„' { r := QUOTE_RULES[0]; }
    else if c == '”' { r := QUOTE_RULES[1]; }
    else if c == '“' { r := QUOTE_RULES[2]; }
    else if c == '\U{00A0}' { r := INVISIBLE_RULES[0]; }
    else { r := INVISIBLE_RULES[1]; }
    assert r in PUNCTUATION_RULES && r.pat[0] == c;
  }

  /** The punctuation steps leave no stray character. */
  lemma PunctuationRemovesStray(s: string)
    ensures forall c <- ApplyRules(s, PUNCTUATION_RULES) :: !Stray(c)
  {
    PunctuationPass(s, PUNCTUATION_RULES);
    forall c | Stray(c) ensures c !in ApplyRules(s, PUNCTUATION_RULES) {
      StrayCovered(c);
    }
  }

  /** The comma-below letter of a cedilla letter; every other character
      is its own. */
  function CommaOf(c: char): char
  {
    if c == 'Ş' then 'Ș' else if c == 'ş' then 'ș' else if c == 'Ţ' then 'Ț' else if c == 'ţ' then 'ț' else c
  }

  /** The Romanian steps work letter by letter: each cedilla letter
      becomes its own comma-below letter and nothing else changes. */
  lemma RonStepsSwapCedillas(s: string)
    ensures WellFormed(RON_RULES)
    ensures |ApplyRules(s, RON_RULES)| == |s|
    ensures forall k | 0 <= k < |s| :: ApplyRules(s, RON_RULES)[k] == CommaOf(s[k])
    ensures ApplyRules(s, RON_RULES) == CommaForm(s)
  {
    ApplyRulesCharForChar(s, RON_RULES);
    forall k | 0 <= k < |s| ensures TableImage(s[k], RON_RULES) == CommaOf(s[k]) {
      RonImage(s[k]);
    }
    assert ApplyRules(s, RON_RULES) == CommaForm(s);
  }

  /** The four Romanian steps on one character. */
  lemma RonImage(c: char)
    ensures CharForChar(RON_RULES) && TableImage(c, RON_RULES) == CommaOf(c)
  {
    var rules: seq<Rule> := RON_RULES;
    assert rules[1..][1..][1..][1..] == [];
    var c1 := if c == 'Ş' then 'Ș' else c;
    var c2 := if c1 == 'ş' then 'ș' else c1;
    var c3 := if c2 == 'Ţ' then 'Ț' else c2;
    var c4 := if c3 == 'ţ' then 'ț' else c3;
    assert TableImage(c, rules) == TableImage(c1, rules[1..]);
    assert TableImage(c1, rules[1..]) == TableImage(c2, rules[1..][1..]);
    assert TableImage(c2, rules[1..][1..]) == TableImage(c3, rules[1..][1..][1..]);
    assert TableImage(c3, rules[1..][1..][1..]) == c4;
  }

  /** The Romanian steps leave no cedilla letter. */
  lemma RonRemovesCedillas(s: string)
    ensures forall c <- ApplyRules(s, RON_RULES) :: !Cedilla(c)
  {
    CedillaPass(s, RON_RULES);
    forall c | Cedilla(c) ensures c !in ApplyRules(s, RON_RULES) {
      CedillaCovered(c);
    }
  }

  /** Text settled under Cunia steps stays free of the letters those
      steps replace when all that is brought in is hyphens, dots and
      double quotes. */
  lemma PunctuationKeepsSettled(s: string, t: string, rules: seq<CuniaRule>)
    requires Settled(s, rules)
    requires forall c <- t :: c in s || c == '-' || c == '.' || c == '"'
    ensures forall q <- rules | |q.pat| == 1 :: q.pat[0] !in t
  {
    forall q <- rules | |q.pat| == 1 ensures q.pat[0] !in t {
      assert !Plain(q.pat[0]) && Absent(s, q.pat);
    }
  }

  // ---------------------------------------------------------------------
  // clean_text

  /** The punctuation steps of clean_text: no stray character is left,
      and nothing is brought in but hyphens, dots and double quotes. */
  function PunctuationSteps(text: string): (r: string)
    ensures forall c <- r :: !Stray(c)
    ensures forall c <- r :: c in text || c == '-' || c == '.' || c == '"'
  {
    PunctuationPass(text, PUNCTUATION_RULES);
    PunctuationRemovesStray(text);
    ApplyRules(text, PUNCTUATION_RULES)
  }

  /** The replacements of clean_text for "ron": the cedilla letters become
      comma-below letters, then the punctuation steps. Neither a cedilla
      letter nor a stray character is left. */
  function RomanianReplacements(text: string): (r: string)
    ensures forall c <- r :: !Stray(c) && !Cedilla(c)
    ensures r == PunctuationSteps(CommaForm(text))
  {
    RonRemovesCedillas(text);
    RonStepsSwapCedillas(text);
    PunctuationSteps(ApplyRules(text, RON_RULES))
  }

  /** The text with each cedilla letter in its comma-below form. */
  function CommaForm(text: string): (r: string)
    ensures |r| == |text|
  {
    seq(|text|, k requires 0 <= k < |text| => CommaOf(text[k]))
  }

  /** The replacements of clean_text for any other code: the conversion
      to Cunia, then the punctuation steps. No stray character is left and
      no letter a Cunia step replaces. */
  function CuniaReplacements(text: string): (r: string)
    ensures forall c <- r :: !Stray(c)
    ensures NoCuniaLetter(r)
  {
    var converted := ConvertToCunia(text);
    var r := PunctuationSteps(converted);
    PunctuationKeepsSettled(converted, r, CUNIA_RULES);
    r
  }

  /** The replacements of clean_text, on text whose spaces and î are
      already dealt with. */
  function CleanReplacements(text: string, lang: string): (r: string)
    ensures forall c <- r :: !Stray(c)
    ensures lang == "ron" ==> forall c <- r :: !Cedilla(c)
    ensures lang != "ron" ==> NoCuniaLetter(r)
    ensures lang == "ron" ==> r == PunctuationSteps(CommaForm(text))
    ensures lang != "ron" ==> r == PunctuationSteps(ConvertToCunia(text))
  {
    if lang == "ron" then RomanianReplacements(text) else CuniaReplacements(text)
  }

  /** Text without cedilla letters passes the Romanian steps unchanged. */
  lemma CedillaFreeUnchanged(s: string, rules: seq<CedillaRule>)
    requires forall c <- s :: !Cedilla(c)
    ensures WellFormed(rules) && ApplyRules(s, rules) == s
  {
    assert ShortPatterns(rules) && WellFormed(rules);
    forall r <- rules ensures Absent(s, r.pat) {
      assert Cedilla(r.pat[0]);
    }
    ApplyRulesAbsentIsIdentity(s, rules);
  }

  /** Text without stray characters passes punctuation steps unchanged. */
  lemma StrayFreeUnchanged(s: string, rules: seq<PunctuationRule>)
    requires forall c <- s :: !Stray(c)
    ensures WellFormed(rules) && ApplyRules(s, rules) == s
  {
    assert ShortPatterns(rules) && WellFormed(rules);
    forall r <- rules ensures Absent(s, r.pat) {
      assert Stray(r.pat[0]);
    }
    ApplyRulesAbsentIsIdentity(s, rules);
  }

  /** Removing the asterisk between two spaces keeps both spaces. */
  lemma StarRemoved(x: string, y: string)
    requires '*' !in x && '*' !in y
    ensures ReplaceAll(x + " * " + y, "*", "") == x + "  " + y
  {
    ReplaceCharConcat(x + " * ", y, '*', "");
    ReplaceCharConcat(x, " * ", '*', "");
    ReplaceAbsentIsIdentity(x, "*", "");
    ReplaceAbsentIsIdentity(y, "*", "");
    assert ReplaceAll("b", "*", "") == "b";
    assert ReplaceAll(" ", "*", "") == " ";
    assert ReplaceAll("* ", "*", "") == " ";
    assert ReplaceAll(" * ", "*", "") == "  ";
  }

  /** Punctuation steps around the asterisk step: when the steps before
      it find none of their characters and the asterisk step leaves no
      stray character, the pass is the asterisk step alone. */
  lemma OnlyStarStep(s: string, pre: seq<PunctuationRule>, post: seq<PunctuationRule>)
    requires forall r <- pre :: r.pat[0] !in s
    requires forall c <- ReplaceAll(s, "*", "") :: !Stray(c)
    ensures WellFormed(pre + [Rule("*", "")] + post)
    ensures ApplyRules(s, pre + [Rule("*", "")] + post) == ReplaceAll(s, "*", "")
  {
    var star: seq<PunctuationRule> := [Rule("*", "")];
    var t := ReplaceAll(s, "*", "");
    assert WellFormed(pre) && WellFormed(star) && WellFormed(post);
    assert ShortPatterns(pre);
    forall r <- pre ensures Absent(s, r.pat) { }
    ApplyRulesAbsentIsIdentity(s, pre);
    ApplyRulesAppend(s, pre, star);
    assert ApplyRules(s, star) == ApplyRules(t, []);
    StrayFreeUnchanged(t, post);
    ApplyRulesAppend(s, pre + star, post);
  }

  /** The punctuation steps split around the asterisk step. Stated on
      its own to keep the proof of PunctuationOnStar small. */
  lemma PunctuationAroundStar()
    ensures PUNCTUATION_RULES ==
      [Rule("—", "-"), Rule("…", "...")] + [Rule("*", "")] + (SYMBOL_RULES[3..] + QUOTE_RULES + INVISIBLE_RULES)
  {
  }

  /** Around a lone asterisk, the text holds no stray character but the
      asterisk, and none once it is removed. */
  lemma StarTextChars(x: string, y: string)
    requires forall c <- x :: !Stray(c)
    requires forall c <- y :: !Stray(c)
    ensures '—' !in x + " * " + y && '…' !in x + " * " + y
    ensures forall c <- x + "  " + y :: !Stray(c)
  {
    assert forall c <- x + " * " + y :: c in x || c in y || c == ' ' || c == '*';
    assert forall c <- x + "  " + y :: c in x || c in y || c == ' ';
  }

  /** The punctuation steps on a lone asterisk between two words. */
  lemma PunctuationOnStar(x: string, y: string)
    requires forall c <- x :: !Stray(c)
    requires forall c <- y :: !Stray(c)
    ensures WellFormed(PUNCTUATION_RULES)
    ensures ApplyRules(x + " * " + y, PUNCTUATION_RULES) == x + "  " + y
  {
    var s := x + " * " + y;
    StarTextChars(x, y);
    StarRemoved(x, y);
    var pre: seq<PunctuationRule> := [Rule("—", "-"), Rule("…", "...")];
    OnlyStarStep(s, pre, SYMBOL_RULES[3..] + QUOTE_RULES + INVISIBLE_RULES);
    PunctuationAroundStar();
  }

  /** A lone asterisk between two words: clean_text collapses the spaces
      first and only then removes the asterisk, so its two spaces remain
      and the output holds a double space. */
  lemma RemovedStarLeavesDoubleSpace(x: string, y: string)
    requires forall c <- x :: !Stray(c) && !Cedilla(c)
    requires forall c <- y :: !Stray(c) && !Cedilla(c)
    ensures CleanReplacements(x + " * " + y, "ron") == x + "  " + y
  {
    var s := x + " * " + y;
    assert forall c <- s :: c in x || c in y || c == ' ' || c == '*';
    CedillaFreeUnchanged(s, RON_RULES);
    PunctuationOnStar(x, y);
  }

  /** clean_text: spaces normalised, inner î modernised, the language
      step, then the punctuation steps. No stray character survives; for
      "ron" no cedilla letter survives, for any other code no letter a
      Cunia step replaces. */
  function CleanText(text: string, lang: string, isWord: char -> bool): (r: string)
    ensures forall c <- r :: !Stray(c)
    ensures lang == "ron" ==> forall c <- r :: !Cedilla(c)
    ensures lang != "ron" ==> NoCuniaLetter(r)
  {
    CleanReplacements(ModernizeInnerI(NormalizeSpaces(text), isWord), lang)
  }

  // ---------------------------------------------------------------------
  // post_process and get_language_code

  /** The marker the translation model emits for a character it does not
      know. */
  const UNKNOWN_MARKER := "<unk>"

  /** post_process: every unknown-token marker becomes a hyphen. */
  function PostProcess(text: string): (r: string)
    ensures !Occurs(r, UNKNOWN_MARKER)
    ensures r == text <==> !Occurs(text, UNKNOWN_MARKER)
  {
    ReplaceRemovesDisjoint(text, UNKNOWN_MARKER, "-");
    var r := ReplaceAll(text, UNKNOWN_MARKER, "-");
    if Occurs(text, UNKNOWN_MARKER) then r
    else
      ReplaceWithoutOccurrence(text, UNKNOWN_MARKER, "-");
      r
  }

  datatype Option<T> = None | Some(value: T)

  /** VALID_LANGUAGES: the names a language may be given by, in English,
      Romanian and Aromanian, and the code of each. */
  const VALID_LANGUAGES: map<string, string> := map[
    "Romanian" := "ron", "Română" := "ron", "Romãnã" := "ron",
    "Aromanian" := "rup", "Aromână" := "rup", "Armãnã" := "rup",
    "English" := "eng", "Engleză" := "eng", "Inglezã" := "eng"
  ]

  /** One of the three codes the service knows. */
  predicate KnownCode(code: string)
  {
    code == "ron" || code == "rup" || code == "eng"
  }

  /** get_language_code: the code of the name once surrounding whitespace
      is stripped, and nothing for a name that is not listed. */
  function GetLanguageCode(language: string): (r: Option<string>)
    ensures r.Some? <==> Strip(language) in VALID_LANGUAGES
    ensures r.Some? ==> KnownCode(r.value)
  {
    var name := Strip(language);
    if name in VALID_LANGUAGES then Some(VALID_LANGUAGES[name]) else None
  }

  /** Every listed name is recognised as it stands. */
  lemma ListedNamesRecognised(name: string)
    requires name in VALID_LANGUAGES
    ensures GetLanguageCode(name) == Some(VALID_LANGUAGES[name])
  {
    StripUnique(name, [], name, []);
  }

  /** Whitespace around a name does not change its code. */
  lemma LanguagePaddingIgnored(language: string, pre: string, post: string)
    requires AllSpace(pre) && AllSpace(post)
    ensures GetLanguageCode(pre + language + post) == GetLanguageCode(language)
  {
    StripIgnoresPadding(language, pre, post);
  }
}
