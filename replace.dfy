/** Literal replace-all passes, as Python's str.replace performs them.

    A pass is a table of rules applied one after the other; each rule
    replaces every non-overlapping occurrence of its pattern, scanning
    left to right.  All patterns used by the converter are one or two
    characters long, and the lemmas here say when a pass leaves none of
    its patterns behind and when it changes nothing at all.
 */
module Replace {

  /** One literal replacement step: every `pat` becomes `rep`. */
  datatype Rule = Rule(pat: string, rep: string)

  /** str.replace(pat, rep) for a non-empty pattern. */
  function ReplaceAll(s: string, pat: string, rep: string): string
    requires |pat| > 0
    decreases |s|
  {
    if |s| < |pat| then s
    else if s[..|pat|] == pat then rep + ReplaceAll(s[|pat|..], pat, rep)
    else [s[0]] + ReplaceAll(s[1..], pat, rep)
  }

  /** A table whose every pattern is non-empty. */
  predicate WellFormed(rules: seq<Rule>)
  {
    forall r <- rules :: |r.pat| > 0
  }

  /** The table's rules applied in order, each to the previous one's output. */
  function ApplyRules(s: string, rules: seq<Rule>): string
    requires WellFormed(rules)
    decreases |rules|
  {
    if |rules| == 0 then s
    else ApplyRules(ReplaceAll(s, rules[0].pat, rules[0].rep), rules[1..])
  }

  /** No `a` immediately followed by `b` anywhere in `s`. */
  predicate NoPair(s: string, a: char, b: char)
  {
    forall k :: 0 <= k < |s| - 1 ==> !(s[k] == a && s[k + 1] == b)
  }

  /** A one- or two-character pattern does not occur in `s`. */
  predicate Absent(s: string, p: string)
    requires 1 <= |p| <= 2
  {
    if |p| == 1 then p[0] !in s else NoPair(s, p[0], p[1])
  }

  /** Writing `rep` can never create an occurrence of `q`: for a single
      character, `rep` does not contain it; for a pair, `rep` is non-empty,
      does not contain the pair, and cannot complete the pair with the text
      on either side of it. */
  predicate Inert(rep: string, q: string)
    requires 1 <= |q| <= 2
  {
    if |q| == 1 then q[0] !in rep
    else |rep| > 0 && rep[0] != q[1] && rep[|rep| - 1] != q[0] && NoPair(rep, q[0], q[1])
  }

  // ---------------------------------------------------------------------
  // Facts about a single ReplaceAll

  /** Every character of the output comes from the input or from `rep`. */
  lemma {:induction false} CharsOfReplace(s: string, pat: string, rep: string, c: char)
    requires |pat| > 0
    requires c in ReplaceAll(s, pat, rep)
    ensures c in s || c in rep
    decreases |s|
  {
    if |s| < |pat| {
    } else if s[..|pat|] == pat {
      var rest := ReplaceAll(s[|pat|..], pat, rep);
      if c !in rep {
        assert c in rest;
        CharsOfReplace(s[|pat|..], pat, rep, c);
      }
    } else {
      var rest := ReplaceAll(s[1..], pat, rep);
      if c != s[0] {
        assert c in rest;
        CharsOfReplace(s[1..], pat, rep, c);
      }
    }
  }

  /** A single-character pattern is gone from the output unless `rep` writes it. */
  lemma {:induction false} ReplaceRemovesChar(s: string, c: char, rep: string)
    requires c !in rep
    ensures c !in ReplaceAll(s, [c], rep)
    decreases |s|
  {
    if |s| < 1 {
    } else if s[..1] == [c] {
      ReplaceRemovesChar(s[1..], c, rep);
    } else {
      ReplaceRemovesChar(s[1..], c, rep);
    }
  }

  /** A single-character pattern never straddles a join, so replacing
      it in two texts put together replaces it in each. */
  lemma {:induction false} ReplaceCharConcat(a: string, b: string, c: char, rep: string)
    ensures ReplaceAll(a + b, [c], rep) == ReplaceAll(a, [c], rep) + ReplaceAll(b, [c], rep)
    decreases |a|
  {
    if |a| > 0 {
      assert (a + b)[..1] == a[..1] && (a + b)[1..] == a[1..] + b;
      ReplaceCharConcat(a[1..], b, c, rep);
    } else {
      assert a + b == b;
    }
  }

  /** Replacing one character by one character keeps the length and
      changes exactly the positions that held it. */
  lemma {:induction false} ReplaceCharByChar(s: string, c: char, d: char)
    ensures |ReplaceAll(s, [c], [d])| == |s|
    ensures forall k | 0 <= k < |s| :: ReplaceAll(s, [c], [d])[k] == (if s[k] == c then d else s[k])
    decreases |s|
  {
    if |s| > 0 {
      var rest := ReplaceAll(s[1..], [c], [d]);
      ReplaceCharByChar(s[1..], c, d);
      var head := if s[0] == c then d else s[0];
      assert s[..1] == [c] <==> s[0] == c;
      assert ReplaceAll(s, [c], [d]) == [head] + rest;
      forall k | 1 <= k < |s|
        ensures ([head] + rest)[k] == (if s[k] == c then d else s[k])
      {
        assert s[1..][k - 1] == s[k];
      }
    }
  }

  /** Every rule of the table turns one character into one character. */
  predicate CharForChar(rules: seq<Rule>)
  {
    forall r <- rules :: |r.pat| == 1 && |r.rep| == 1
  }

  /** What a character-for-character table turns a single character
      into: each rule in turn, on the previous rule's output. */
  function TableImage(c: char, rules: seq<Rule>): char
    requires CharForChar(rules)
    decreases |rules|
  {
    if |rules| == 0 then c
    else TableImage(if c == rules[0].pat[0] then rules[0].rep[0] else c, rules[1..])
  }

  /** A character-for-character table works position by position: the
      length is kept and each character becomes its TableImage. */
  lemma {:induction false} ApplyRulesCharForChar(s: string, rules: seq<Rule>)
    requires CharForChar(rules)
    ensures WellFormed(rules)
    ensures |ApplyRules(s, rules)| == |s|
    ensures forall k | 0 <= k < |s| :: ApplyRules(s, rules)[k] == TableImage(s[k], rules)
    decreases |rules|
  {
    if |rules| > 0 {
      var r := rules[0];
      assert r.pat == [r.pat[0]] && r.rep == [r.rep[0]];
      var t := ReplaceAll(s, r.pat, r.rep);
      ReplaceCharByChar(s, r.pat[0], r.rep[0]);
      ApplyRulesCharForChar(t, rules[1..]);
      assert ApplyRules(s, rules) == ApplyRules(t, rules[1..]);
    }
  }

  /** The output of a non-empty input starts with the input's first
      character or with `rep`. */
  lemma {:induction false} FirstOfReplace(s: string, pat: string, rep: string)
    requires |pat| > 0 && |rep| > 0 && |s| > 0
    ensures |ReplaceAll(s, pat, rep)| > 0
    ensures ReplaceAll(s, pat, rep)[0] == s[0] || ReplaceAll(s, pat, rep)[0] == rep[0]
  {
  }

  lemma NoPairConcat(x: string, y: string, a: char, b: char)
    requires NoPair(x, a, b) && NoPair(y, a, b)
    requires |x| == 0 || |y| == 0 || !(x[|x| - 1] == a && y[0] == b)
    ensures NoPair(x + y, a, b)
  {
    var z := x + y;
    forall k | 0 <= k < |z| - 1
      ensures !(z[k] == a && z[k + 1] == b)
    {
      if k < |x| - 1 {
        assert z[k] == x[k] && z[k + 1] == x[k + 1];
      } else if k == |x| - 1 {
        assert z[k] == x[|x| - 1] && z[k + 1] == y[0];
      } else {
        assert z[k] == y[k - |x|] && z[k + 1] == y[k - |x| + 1];
      }
    }
  }

  /** A pair absent from the input stays absent when `rep` cannot create it. */
  lemma {:induction false} ReplaceKeepsPairAbsent(s: string, pat: string, rep: string, a: char, b: char)
    requires |pat| > 0
    requires NoPair(s, a, b) && Inert(rep, [a, b])
    ensures NoPair(ReplaceAll(s, pat, rep), a, b)
    decreases |s|
  {
    if |s| < |pat| {
    } else if s[..|pat|] == pat {
      var t := s[|pat|..];
      assert NoPair(t, a, b) by {
        forall k | 0 <= k < |t| - 1 ensures !(t[k] == a && t[k + 1] == b) {
          assert t[k] == s[k + |pat|] && t[k + 1] == s[k + |pat| + 1];
        }
      }
      ReplaceKeepsPairAbsent(t, pat, rep, a, b);
      NoPairConcat(rep, ReplaceAll(t, pat, rep), a, b);
    } else {
      var t := s[1..];
      assert NoPair(t, a, b) by {
        forall k | 0 <= k < |t| - 1 ensures !(t[k] == a && t[k + 1] == b) {
          assert t[k] == s[k + 1] && t[k + 1] == s[k + 2];
        }
      }
      ReplaceKeepsPairAbsent(t, pat, rep, a, b);
      if |t| > 0 {
        FirstOfReplace(t, pat, rep);
      }
      NoPairConcat([s[0]], ReplaceAll(t, pat, rep), a, b);
    }
  }

  /** A two-character pattern is gone from the output when `rep` cannot
      re-create it. */
  lemma {:induction false} ReplaceRemovesPair(s: string, a: char, b: char, rep: string)
    requires Inert(rep, [a, b])
    ensures NoPair(ReplaceAll(s, [a, b], rep), a, b)
    decreases |s|
  {
    var pat := [a, b];
    if |s| < 2 {
    } else if s[..2] == pat {
      var t := s[2..];
      ReplaceRemovesPair(t, a, b, rep);
      NoPairConcat(rep, ReplaceAll(t, pat, rep), a, b);
    } else {
      var t := s[1..];
      ReplaceRemovesPair(t, a, b, rep);
      FirstOfReplace(t, pat, rep);
      assert !(s[0] == a && t[0] == b);
      NoPairConcat([s[0]], ReplaceAll(t, pat, rep), a, b);
    }
  }

  /** Replacing a pattern that does not occur changes nothing. */
  lemma {:induction false} ReplaceAbsentIsIdentity(s: string, pat: string, rep: string)
    requires 1 <= |pat| <= 2 && Absent(s, pat)
    ensures ReplaceAll(s, pat, rep) == s
    decreases |s|
  {
    if |s| < |pat| {
    } else {
      if |pat| == 1 {
        assert s[0] in s;
        assert s[..1] != pat;
      } else {
        assert s[..2] != pat by { assert !(s[0] == pat[0] && s[1] == pat[1]); }
      }
      assert Absent(s[1..], pat) by {
        if |pat| == 1 {
          assert forall c :: c in s[1..] ==> c in s;
        } else {
          var t := s[1..];
          forall k | 0 <= k < |t| - 1 ensures !(t[k] == pat[0] && t[k + 1] == pat[1]) {
            assert t[k] == s[k + 1] && t[k + 1] == s[k + 2];
          }
        }
      }
      ReplaceAbsentIsIdentity(s[1..], pat, rep);
      assert [s[0]] + s[1..] == s;
    }
  }

  /** Absence of a pattern survives a replacement that cannot create it. */
  lemma ReplaceKeepsAbsent(s: string, pat: string, rep: string, q: string)
    requires |pat| > 0 && 1 <= |q| <= 2
    requires Absent(s, q) && Inert(rep, q)
    ensures Absent(ReplaceAll(s, pat, rep), q)
  {
    if |q| == 1 {
      if q[0] in ReplaceAll(s, pat, rep) {
        CharsOfReplace(s, pat, rep, q[0]);
      }
    } else {
      ReplaceKeepsPairAbsent(s, pat, rep, q[0], q[1]);
    }
  }

  /** A replacement whose output cannot re-create its own pattern leaves
      no occurrence of that pattern. */
  lemma ReplaceRemoves(s: string, pat: string, rep: string)
    requires 1 <= |pat| <= 2 && Inert(rep, pat)
    ensures Absent(ReplaceAll(s, pat, rep), pat)
  {
    if |pat| == 1 {
      assert [pat[0]] == pat;
      ReplaceRemovesChar(s, pat[0], rep);
    } else {
      assert [pat[0], pat[1]] == pat;
      ReplaceRemovesPair(s, pat[0], pat[1], rep);
    }
  }

  // ---------------------------------------------------------------------
  // Facts about a whole table

  /** Patterns of length one or two only. */
  predicate ShortPatterns(rules: seq<Rule>)
  {
    forall r <- rules :: 1 <= |r.pat| <= 2
  }

  /** No rule's replacement can re-create any rule's pattern. */
  predicate NonInterfering(rules: seq<Rule>)
    requires ShortPatterns(rules)
  {
    forall r <- rules, r' <- rules :: Inert(r'.rep, r.pat)
  }

  lemma {:induction false} ApplyRulesAppend(s: string, a: seq<Rule>, b: seq<Rule>)
    requires WellFormed(a) && WellFormed(b)
    ensures WellFormed(a + b)
    ensures ApplyRules(s, a + b) == ApplyRules(ApplyRules(s, a), b)
    decreases |a|
  {
    if |a| == 0 {
      assert a + b == b;
    } else {
      assert (a + b)[0] == a[0] && (a + b)[1..] == a[1..] + b;
      ApplyRulesAppend(ReplaceAll(s, a[0].pat, a[0].rep), a[1..], b);
    }
  }

  /** A pattern absent from the input stays absent through a table none of
      whose replacements can create it. */
  lemma {:induction false} ApplyRulesKeepsAbsent(s: string, rules: seq<Rule>, q: string)
    requires WellFormed(rules) && 1 <= |q| <= 2
    requires Absent(s, q)
    requires forall r <- rules :: Inert(r.rep, q)
    ensures Absent(ApplyRules(s, rules), q)
    decreases |rules|
  {
    if |rules| > 0 {
      assert rules[0] in rules;
      ReplaceKeepsAbsent(s, rules[0].pat, rules[0].rep, q);
      ApplyRulesKeepsAbsent(ReplaceAll(s, rules[0].pat, rules[0].rep), rules[1..], q);
    }
  }

  /** After a non-interfering table, none of its patterns occurs. */
  lemma {:induction false} ApplyRulesRemovesAll(s: string, rules: seq<Rule>)
    requires WellFormed(rules) && ShortPatterns(rules) && NonInterfering(rules)
    ensures forall r <- rules :: Absent(ApplyRules(s, rules), r.pat)
    decreases |rules|
  {
    if |rules| > 0 {
      var first := rules[0];
      var t := ReplaceAll(s, first.pat, first.rep);
      var rest := rules[1..];
      assert first in rules;
      assert forall r <- rest :: r in rules;
      ReplaceRemoves(s, first.pat, first.rep);
      ApplyRulesKeepsAbsent(t, rest, first.pat);
      ApplyRulesRemovesAll(t, rest);
      forall r <- rules ensures Absent(ApplyRules(s, rules), r.pat) {
        if r != first {
          assert r in rest;
        }
      }
    }
  }

  /** A table none of whose patterns occurs in the input changes nothing. */
  lemma {:induction false} ApplyRulesAbsentIsIdentity(s: string, rules: seq<Rule>)
    requires ShortPatterns(rules) && WellFormed(rules)
    requires forall r <- rules :: Absent(s, r.pat)
    ensures ApplyRules(s, rules) == s
    decreases |rules|
  {
    if |rules| > 0 {
      assert rules[0] in rules;
      ReplaceAbsentIsIdentity(s, rules[0].pat, rules[0].rep);
      assert forall r <- rules[1..] :: r in rules;
      ApplyRulesAbsentIsIdentity(s, rules[1..]);
    }
  }

  /** A non-interfering table is idempotent. */
  lemma ApplyRulesIdempotent(s: string, rules: seq<Rule>)
    requires WellFormed(rules) && ShortPatterns(rules) && NonInterfering(rules)
    ensures ApplyRules(ApplyRules(s, rules), rules) == ApplyRules(s, rules)
  {
    ApplyRulesRemovesAll(s, rules);
    ApplyRulesAbsentIsIdentity(ApplyRules(s, rules), rules);
  }

  /** A one-character input that no pattern of the table equals passes
      through unchanged (two-character patterns cannot match it). */
  lemma {:induction false} ApplyRulesUnmatchedChar(c: char, rules: seq<Rule>)
    requires WellFormed(rules)
    requires forall r <- rules :: r.pat != [c]
    ensures ApplyRules([c], rules) == [c]
    decreases |rules|
  {
    if |rules| > 0 {
      var r := rules[0];
      assert r in rules;
      if |r.pat| == 1 {
        assert [c][..1] != r.pat;
        assert ReplaceAll([c], r.pat, r.rep) == [c] + ReplaceAll([], r.pat, r.rep);
      }
      assert ReplaceAll([c], r.pat, r.rep) == [c];
      assert forall r <- rules[1..] :: r in rules;
      ApplyRulesUnmatchedChar(c, rules[1..]);
    }
  }

  /** A table whose replacements are all non-empty keeps a non-empty text non-empty. */
  lemma {:induction false} ApplyRulesNonEmpty(s: string, rules: seq<Rule>)
    requires WellFormed(rules) && |s| > 0
    requires forall r <- rules :: |r.rep| > 0
    ensures |ApplyRules(s, rules)| > 0
    decreases |rules|
  {
    if |rules| > 0 {
      assert rules[0] in rules;
      FirstOfReplace(s, rules[0].pat, rules[0].rep);
      assert forall r <- rules[1..] :: r in rules;
      ApplyRulesNonEmpty(ReplaceAll(s, rules[0].pat, rules[0].rep), rules[1..]);
    }
  }

  /** When the text is exactly the pattern of step j, earlier steps find
      nothing in it and later steps find nothing in step j's replacement,
      the fold returns that replacement. */
  lemma {:induction false} ApplyRulesFirstMatch(s: string, rules: seq<Rule>, j: nat)
    requires WellFormed(rules) && ShortPatterns(rules)
    requires j < |rules| && rules[j].pat == s
    requires forall i | 0 <= i < j :: Absent(s, rules[i].pat)
    requires forall i | j < i < |rules| :: Absent(rules[j].rep, rules[i].pat)
    ensures ApplyRules(s, rules) == rules[j].rep
    decreases j
  {
    assert rules[0] in rules;
    assert forall r <- rules[1..] :: r in rules;
    if j == 0 {
      var rep := rules[0].rep;
      assert ReplaceAll(s, s, rep) == rep + ReplaceAll([], s, rep) == rep;
      forall r <- rules[1..] ensures Absent(rep, r.pat) {
        var i :| 0 <= i < |rules[1..]| && rules[1..][i] == r;
        assert rules[i + 1] == r;
      }
      ApplyRulesAbsentIsIdentity(rep, rules[1..]);
    } else {
      ReplaceAbsentIsIdentity(s, rules[0].pat, rules[0].rep);
      ApplyRulesFirstMatch(s, rules[1..], j - 1);
    }
  }

  /** Every character a fold outputs comes from its input or from one of
      its replacements. */
  lemma {:induction false} ApplyRulesChars(s: string, rules: seq<Rule>, c: char)
    requires WellFormed(rules)
    requires c in ApplyRules(s, rules)
    ensures c in s || exists r <- rules :: c in r.rep
    decreases |rules|
  {
    if |rules| > 0 {
      var t := ReplaceAll(s, rules[0].pat, rules[0].rep);
      assert forall r <- rules[1..] :: r in rules;
      ApplyRulesChars(t, rules[1..], c);
      if c in t {
        CharsOfReplace(s, rules[0].pat, rules[0].rep, c);
        assert rules[0] in rules;
      }
    }
  }

  // ---------------------------------------------------------------------
  // Patterns of any length

  /** `p` occurs somewhere in `s`. */
  predicate Occurs(s: string, p: string)
  {
    exists i | 0 <= i <= |s| - |p| :: OccursAt(s, p, i)
  }

  /** `p` occurs in `s` starting at index `i`. */
  predicate OccursAt(s: string, p: string, i: int)
  {
    0 <= i && i + |p| <= |s| && s[i..i + |p|] == p
  }

  /** While the output shows no character of `rep`, it copies the input. */
  lemma {:induction false} ReplacePrefixCopied(t: string, pat: string, rep: string, m: nat)
    requires |pat| > 0 && |rep| > 0
    requires m <= |ReplaceAll(t, pat, rep)|
    requires forall k :: 0 <= k < m ==> ReplaceAll(t, pat, rep)[k] !in rep
    ensures m <= |t| && ReplaceAll(t, pat, rep)[..m] == t[..m]
    decreases m
  {
    var out := ReplaceAll(t, pat, rep);
    if m > 0 {
      assert out[0] !in rep;
      if |t| < |pat| {
      } else if t[..|pat|] == pat {
        assert false;
      } else {
        var rest := ReplaceAll(t[1..], pat, rep);
        assert out == [t[0]] + rest;
        forall k | 0 <= k < m - 1 ensures rest[k] !in rep {
          assert rest[k] == out[k + 1];
        }
        ReplacePrefixCopied(t[1..], pat, rep, m - 1);
        assert out[..m] == [t[0]] + rest[..m - 1];
      }
    }
  }

  /** Without an occurrence of its pattern, str.replace changes nothing. */
  lemma {:induction false} ReplaceWithoutOccurrence(s: string, pat: string, rep: string)
    requires |pat| > 0 && !Occurs(s, pat)
    ensures ReplaceAll(s, pat, rep) == s
    decreases |s|
  {
    if |s| >= |pat| {
      assert !OccursAt(s, pat, 0);
      if Occurs(s[1..], pat) {
        var i :| 0 <= i <= |s[1..]| - |pat| && OccursAt(s[1..], pat, i);
        assert s[i + 1..i + 1 + |pat|] == s[1..][i..i + |pat|];
        assert OccursAt(s, pat, i + 1);
      }
      ReplaceWithoutOccurrence(s[1..], pat, rep);
      assert s == [s[0]] + s[1..];
    }
  }

  /** A pattern that shares no character with its non-empty replacement
      does not occur in the output. */
  lemma {:induction false} ReplaceRemovesDisjoint(s: string, pat: string, rep: string)
    requires |pat| > 0 && |rep| > 0
    requires forall c <- rep :: c !in pat
    ensures !Occurs(ReplaceAll(s, pat, rep), pat)
    decreases |s|
  {
    if |s| < |pat| {
      assert !OccursAt(s, pat, 0);
    } else if s[..|pat|] == pat {
      var rest := ReplaceAll(s[|pat|..], pat, rep);
      ReplaceRemovesDisjoint(s[|pat|..], pat, rep);
      assert ReplaceAll(s, pat, rep) == rep + rest;
      DisjointBeforeRest(rep, rest, pat);
    } else {
      var rest := ReplaceAll(s[1..], pat, rep);
      ReplaceRemovesDisjoint(s[1..], pat, rep);
      assert ReplaceAll(s, pat, rep) == [s[0]] + rest;
      CopiedStart(s, pat, rep);
      NoOccurrenceAfterStart([s[0]] + rest, pat);
    }
  }

  /** A slice of `a + b` that lies inside `b`. */
  lemma SliceOfSecond(a: string, b: string, i: nat, len: nat)
    requires |a| <= i && i + len <= |a + b|
    ensures (a + b)[i..i + len] == b[i - |a|..i - |a| + len]
  {
  }

  /** No occurrence starts inside a replacement that shares no character
      with the pattern, nor after it in text that holds none. */
  lemma DisjointBeforeRest(rep: string, rest: string, pat: string)
    requires |pat| > 0
    requires forall c <- rep :: c !in pat
    requires !Occurs(rest, pat)
    ensures !Occurs(rep + rest, pat)
  {
    var out := rep + rest;
    forall i | 0 <= i <= |out| - |pat| ensures !OccursAt(out, pat, i) {
      if i < |rep| {
        assert rep[i] in rep && pat[0] in pat;
        assert out[i..i + |pat|][0] == rep[i];
      } else {
        SliceOfSecond(rep, rest, i, |pat|);
        assert !OccursAt(rest, pat, i - |rep|);
      }
    }
  }

  /** An occurrence not at the start of `[c] + rest` is one in `rest`. */
  lemma NoOccurrenceAfterStart(out: string, pat: string)
    requires |pat| > 0 && |out| > 0
    requires !OccursAt(out, pat, 0)
    requires !Occurs(out[1..], pat)
    ensures !Occurs(out, pat)
  {
    forall i | 1 <= i <= |out| - |pat| ensures !OccursAt(out, pat, i) {
      assert out[1..][i - 1..i - 1 + |pat|] == out[i..i + |pat|];
      assert !OccursAt(out[1..], pat, i - 1);
    }
  }

  /** When str.replace copies the first character, the output cannot start
      with the pattern: its first |pat| - 1 characters after that would be
      copied from the input, which does not start with the pattern. */
  lemma CopiedStart(s: string, pat: string, rep: string)
    requires |pat| > 0 && |rep| > 0 && |s| >= |pat| && s[..|pat|] != pat
    requires forall c <- rep :: c !in pat
    ensures !OccursAt([s[0]] + ReplaceAll(s[1..], pat, rep), pat, 0)
  {
    var rest := ReplaceAll(s[1..], pat, rep);
    var out := [s[0]] + rest;
    var m := |pat| - 1;
    if m <= |rest| && forall k | 0 <= k < m :: rest[k] == pat[k + 1] {
      forall k | 0 <= k < m ensures rest[k] !in rep {
        assert pat[k + 1] in pat;
      }
      ReplacePrefixCopied(s[1..], pat, rep, m);
      assert s[..|pat|] == [s[0]] + s[1..][..m];
      assert out[..|pat|] == [s[0]] + rest[..m];
    } else if m <= |rest| {
      var k :| 0 <= k < m && rest[k] != pat[k + 1];
      assert out[k + 1] == rest[k];
    }
  }
}
