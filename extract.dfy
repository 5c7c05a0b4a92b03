/**
  `extract_correct_option` (Backend/app.py:41-58): a standalone helper that
  picks the "correct answer" of a sentence. After one leading `-` is dropped,
  a `:` wins over a `-`, which wins over the fallback of the first three
  words. The routes do not call it; the MCQ route has its own, different rule
  (see McqBuilder.CorrectAnswer).
 */
module Extract {
  import opened PyStr
  import opened Segmenter

  /**
    `extract_correct_option(sentence)`. Lines 50-52 drop a bullet the same way
    the plain formatter does (Segmenter.PlainClean). Whatever the branch, the
    answer holds no `:`.
   */
  function ExtractCorrectOption(sentence: string): (r: string)
    ensures ':' !in r
  {
    var s := PlainClean(sentence);
    if ':' in s then
      var head := Split(s, ':')[0];
      TrimAbsent(head, Whitespace, ':');
      Trim(head, Whitespace)
    else if '-' in s then
      var head := Split(s, '-')[0];
      assert ':' !in head;
      TrimAbsent(head, Whitespace, ':');
      Trim(head, Whitespace)
    else
      var words := Take(SplitWs(s), 3);
      SplitWsAbsent(s, ':');
      JoinAbsent(words, " ", ':');
      Join(words, " ")
  }

  lemma {:induction false} JoinAbsent(pieces: seq<string>, sep: string, c: char)
    requires c !in sep
    requires forall i :: 0 <= i < |pieces| ==> c !in pieces[i]
    ensures c !in Join(pieces, sep)
  {
    if |pieces| > 1 {
      JoinAbsent(pieces[1..], sep, c);
    }
  }

  /**
    The stated precedence. With `s` the sentence once its bullet is dropped:
    if `s` has a `:`, the answer is the stripped text before the first `:`
    (a `-` before it does not matter); otherwise, if it has a `-`, the
    stripped text before the first `-`, which holds no `-`; otherwise the
    answer is the first three words of `s` (fewer if `s` has fewer), joined
    by single spaces.
   */
  lemma ExtractPrecedence(sentence: string)
    ensures var s := PlainClean(sentence); var r := ExtractCorrectOption(sentence);
      && (':' in s ==> exists i :: 0 <= i < |s| && s[i] == ':' && ':' !in s[..i] && r == Trim(s[..i], Whitespace))
      && (':' !in s && '-' in s ==>
            '-' !in r && exists i :: 0 <= i < |s| && s[i] == '-' && '-' !in s[..i] && r == Trim(s[..i], Whitespace))
      && (':' !in s && '-' !in s ==> SplitWs(r) == Take(SplitWs(s), 3) && r == Join(SplitWs(r), " "))
  {
    var s := PlainClean(sentence);
    var r := ExtractCorrectOption(sentence);
    if ':' in s {
      SplitHeadPrefix(s, ':');
    } else if '-' in s {
      SplitHeadPrefix(s, '-');
      TrimAbsent(Split(s, '-')[0], Whitespace, '-');
    } else {
      var words := Take(SplitWs(s), 3);
      assert AllTokens(words) by {
        assert forall i :: 0 <= i < |words| ==> words[i] == SplitWs(s)[i];
      }
      JoinSpaceSplit(words);
    }
  }
}
