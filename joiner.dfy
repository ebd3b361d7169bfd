/*
  smart_join_words (deployment/utils/text_processing.py:276-290): tokens
  joined with single spaces, except that punctuation sticks to the unit
  before it and a unit ending in an opening parenthesis or a hyphen takes
  the next token without a space.
*/
module Joiner {

  /** Python's string.punctuation: the ASCII punctuation characters. */
  predicate IsPunctuation(c: char)
  {
    (33 <= c as int <= 47) || (58 <= c as int <= 64) || (91 <= c as int <= 96) || (123 <= c as int <= 126)
  }

  /** A token that joins the unit before it without a space: it starts
      with punctuation other than an opening parenthesis or a hyphen. */
  predicate Clings(word: string)
    requires |word| > 0
  {
    IsPunctuation(word[0]) && word[0] != '(' && word[0] != '-'
  }

  /** A unit that takes the next token without a space: it ends in an
      opening parenthesis or a hyphen. */
  predicate Opens(unit: string)
  {
    |unit| > 0 && (unit[|unit| - 1] == '(' || unit[|unit| - 1] == '-')
  }

  /** Every token after the first is non-empty, as the source needs to
      read its first character. */
  predicate Joinable(words: seq<string>)
  {
    forall k | 0 < k < |words| :: |words[k]| > 0
  }

  /** " ".join(units). */
  function JoinWithSpace(units: seq<string>): string
    decreases |units|
  {
    if |units| == 0 then ""
    else if |units| == 1 then units[0]
    else JoinWithSpace(units[..|units| - 1]) + " " + units[|units| - 1]
  }

  /** `word` is a suffix of `unit`. */
  predicate EndsWith(unit: string, word: string)
  {
    |word| <= |unit| && unit[|unit| - |word|..] == word
  }

  /** The list `arr` that smart_join_words builds from `words`: each token
      either extends the last unit or starts a new one. The last unit ends
      with the last token, and is the first token when there is only one. */
  function Units(words: seq<string>): (units: seq<string>)
    requires Joinable(words)
    ensures |words| > 0 ==> |units| > 0
    ensures |words| == 1 ==> units == words
    ensures |words| > 0 ==> EndsWith(units[|units| - 1], words[|words| - 1])
    decreases |words|
  {
    if |words| == 0 then []
    else if |words| == 1 then [words[0]]
    else
      var prefix := words[..|words| - 1];
      var word := words[|words| - 1];
      assert Joinable(prefix);
      var arr := Units(prefix);
      var last := arr[|arr| - 1];
      if Clings(word) || Opens(last) then
        assert (last + word)[|last|..] == word;
        arr[..|arr| - 1] + [last + word]
      else
        arr + [word]
  }

  /** Whether a space goes between the `k`-th token and the next one:
      not before a clinging token, and not after a token ending in an
      opening parenthesis or a hyphen. */
  predicate SpaceBefore(words: seq<string>, k: nat)
    requires Joinable(words) && 0 < k < |words|
  {
    !Clings(words[k]) && !Opens(words[k - 1])
  }

  /** The tokens in order, each consecutive pair separated by one space
      or by nothing, as SpaceBefore says. */
  function Glued(words: seq<string>): string
    requires Joinable(words)
    decreases |words|
  {
    if |words| == 0 then ""
    else if |words| == 1 then words[0]
    else
      var prefix := words[..|words| - 1];
      assert Joinable(prefix);
      Glued(prefix) + (if SpaceBefore(words, |words| - 1) then " " else "") + words[|words| - 1]
  }

  /** Extending the last unit extends the joined text. */
  lemma JoinExtendLast(units: seq<string>, word: string)
    requires |units| > 0
    ensures JoinWithSpace(units[..|units| - 1] + [units[|units| - 1] + word]) == JoinWithSpace(units) + word
  {
    var n := |units|;
    var next := units[..n - 1] + [units[n - 1] + word];
    if n > 1 {
      assert next[..n - 1] == units[..n - 1];
    }
  }

  /** A unit ends in an opening character exactly when the token it ends
      with does, or when it is the only, empty first token. */
  lemma OpensLastUnit(words: seq<string>)
    requires Joinable(words) && |words| > 0
    ensures Opens(Units(words)[|Units(words)| - 1]) <==> Opens(words[|words| - 1])
  {
    var units := Units(words);
    var last := units[|units| - 1];
    var word := words[|words| - 1];
    if |word| > 0 {
      assert last[|last| - 1] == last[|last| - |word|..][|word| - 1] == word[|word| - 1];
    } else {
      assert |words| == 1;
    }
  }

  /** The step of UnitsJoinToGlued where the last token joins the last
      unit. */
  lemma JoinedStep(words: seq<string>)
    requires Joinable(words) && |words| > 1
    requires Joinable(words[..|words| - 1])
    requires JoinWithSpace(Units(words[..|words| - 1])) == Glued(words[..|words| - 1])
    requires !SpaceBefore(words, |words| - 1)
    ensures JoinWithSpace(Units(words)) == Glued(words)
  {
    var n := |words|;
    var prefix := words[..n - 1];
    var word := words[n - 1];
    var arr := Units(prefix);
    OpensLastUnit(prefix);
    assert prefix[n - 2] == words[n - 2];
    assert Units(words) == arr[..|arr| - 1] + [arr[|arr| - 1] + word];
    JoinExtendLast(arr, word);
    assert JoinWithSpace(Units(words)) == JoinWithSpace(arr) + word;
    NothingBetween(Glued(prefix), word);
  }

  /** Gluing with no separator is plain concatenation. Stated on its own
      to keep the proof of JoinedStep small. */
  lemma NothingBetween(a: string, b: string)
    ensures a + "" + b == a + b
  {
  }

  /** The step of UnitsJoinToGlued where the last token starts a unit. */
  lemma SpacedStep(words: seq<string>)
    requires Joinable(words) && |words| > 1
    requires Joinable(words[..|words| - 1])
    requires JoinWithSpace(Units(words[..|words| - 1])) == Glued(words[..|words| - 1])
    requires SpaceBefore(words, |words| - 1)
    ensures JoinWithSpace(Units(words)) == Glued(words)
  {
    var n := |words|;
    var prefix := words[..n - 1];
    var word := words[n - 1];
    var arr := Units(prefix);
    OpensLastUnit(prefix);
    assert prefix[n - 2] == words[n - 2];
    var next := arr + [word];
    assert Units(words) == next;
    assert next[..|next| - 1] == arr;
  }

  /** The units joined with spaces are the tokens glued as SpaceBefore
      says. */
  lemma {:induction false} UnitsJoinToGlued(words: seq<string>)
    requires Joinable(words)
    ensures JoinWithSpace(Units(words)) == Glued(words)
    decreases |words|
  {
    if |words| > 1 {
      var prefix := words[..|words| - 1];
      assert Joinable(prefix);
      UnitsJoinToGlued(prefix);
      if SpaceBefore(words, |words| - 1) {
        SpacedStep(words);
      } else {
        JoinedStep(words);
      }
    }
  }

  /** One more token: Units of the next prefix from Units of this one. */
  lemma UnitsOfNextPrefix(words: seq<string>, i: nat)
    requires Joinable(words) && i < |words|
    ensures Joinable(words[..i]) && Joinable(words[..i + 1])
    ensures i > 0 ==> |Units(words[..i])| > 0
    ensures Units(words[..i + 1]) ==
      var arr := Units(words[..i]);
      if i == 0 then [words[0]]
      else if Clings(words[i]) || Opens(arr[|arr| - 1]) then arr[..|arr| - 1] + [arr[|arr| - 1] + words[i]]
      else arr + [words[i]]
  {
    PrefixJoinable(words, i);
    PrefixJoinable(words, i + 1);
    var next := words[..i + 1];
    assert next[..|next| - 1] == words[..i];
    assert next[|next| - 1] == words[i];
  }

  /** A prefix of joinable tokens is joinable. */
  lemma PrefixJoinable(words: seq<string>, i: nat)
    requires Joinable(words) && i <= |words|
    ensures Joinable(words[..i])
  {
    forall k | 0 < k < i ensures |words[..i][k]| > 0 {
      assert words[..i][k] == words[k];
    }
  }

  /** smart_join_words: the units built token by token, then joined with
      single spaces. The result is the tokens glued as SpaceBefore says. */
  method SmartJoinWords(words: seq<string>) returns (out: string)
    requires Joinable(words)
    ensures out == Glued(words)
  {
    var arr: seq<string> := [];
    for i := 0 to |words|
      invariant Joinable(words[..i])
      invariant arr == Units(words[..i])
    {
      var word := words[i];
      UnitsOfNextPrefix(words, i);
      if i == 0 {
        arr := arr + [word];
      } else if Clings(word) {
        arr := arr[..|arr| - 1] + [arr[|arr| - 1] + word];
      } else if Opens(arr[|arr| - 1]) {
        arr := arr[..|arr| - 1] + [arr[|arr| - 1] + word];
      } else {
        arr := arr + [word];
      }
    }
    assert words[..|words|] == words;
    out := JoinWithSpace(arr);
    UnitsJoinToGlued(words);
  }

  /** Plain tokens, none clinging and none opening, are joined with
      single spaces. */
  lemma {:induction false} PlainWordsSpaced(words: seq<string>)
    requires Joinable(words)
    requires forall k | 0 < k < |words| :: SpaceBefore(words, k)
    ensures Glued(words) == JoinWithSpace(words)
    decreases |words|
  {
    if |words| > 1 {
      var prefix := words[..|words| - 1];
      assert Joinable(prefix);
      assert forall k | 0 < k < |prefix| :: SpaceBefore(prefix, k) by {
        forall k | 0 < k < |prefix| ensures SpaceBefore(prefix, k) {
          assert SpaceBefore(words, k);
        }
      }
      PlainWordsSpaced(prefix);
    }
  }

  /** The first half of PunctuationExample: the comma clings. */
  lemma CommaClings()
    ensures Glued(["Hello", ",", "world"]) == "Hello, world"
  {
    var w := ["Hello", ",", "world"];
    var p2 := w[..2];
    assert p2[..1] == ["Hello"] && !SpaceBefore(p2, 1);
    assert Glued(p2) == "Hello" + "" + ",";
    assert SpaceBefore(w, 2);
    assert Glued(w) == Glued(p2) + " " + "world";
  }

  /** A comma clings to the word before it and a parenthesis opens onto
      the word after it. */
  lemma PunctuationExample()
    ensures Glued(["Hello", ",", "world", "(", "test", ")"]) == "Hello, world (test)"
  {
    var w := ["Hello", ",", "world", "(", "test", ")"];
    var p3, p4, p5 := w[..3], w[..4], w[..5];
    CommaClings();
    assert p3 == ["Hello", ",", "world"];
    assert p4[..3] == p3 && SpaceBefore(p4, 3);
    assert Glued(p4) == "Hello, world" + " " + "(";
    assert p5[..4] == p4 && !SpaceBefore(p5, 4);
    assert Glued(p5) == Glued(p4) + "" + "test";
    assert w[..5] == p5 && !SpaceBefore(w, 5);
    assert Glued(w) == Glued(p5) + "" + ")";
  }

  /** A lone hyphen keeps its space before and takes the next word
      without one. */
  lemma HyphenExample()
    ensures Glued(["word", "-", "continued"]) == "word -continued"
  {
    var w := ["word", "-", "continued"];
    var head := w[..2];
    assert head[..1] == ["word"] && head[1] == "-";
    assert SpaceBefore(head, 1);
    assert Glued(head) == "word" + " " + "-";
    assert w[..2] == w[..|w| - 1];
    assert !SpaceBefore(w, 2);
    assert Glued(w) == Glued(head) + "" + "continued";
    assert "word" + " " + "-" + "" + "continued" == "word -continued";
  }
}
