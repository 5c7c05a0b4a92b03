/**
  Worked examples: what the generators give on small notes, derived from
  the definitions of the other modules one step at a time.
 */
module Scenarios {
  import opened PyStr
  import opened Segmenter
  import opened PlainFormatter
  import opened McqOptions
  import opened McqBuilder

  /** Stripping leaves a string alone when neither end is strippable. */
  lemma TrimNothing(w: string, cs: set<char>)
    requires w != [] && w[0] !in cs && w[|w| - 1] !in cs
    ensures Trim(w, cs) == w
  {
    assert LeadLen(w, cs) == 0;
    assert TrailLen(w, cs) == 0;
  }

  /** A sentence that starts with a word and a space, with no colon, has that word for its answer. */
  lemma FirstWordAnswer(w: string, rest: string)
    requires IsToken(w) && ':' !in w + " " + rest
    ensures CorrectAnswer(w + " " + rest) == Ok(w)
  {
    SplitWsTokenSpace(w, rest);
  }

  // ---------------------------------------------------------------- an empty note

  /** An empty note gives no sentence on either path, and plain text that is only the header. */
  lemma EmptyNote(title: string)
    ensures McqSentences("") == [] && PlainSentences("") == []
    ensures PlainText(title, "") == "Note: " + title + "\n\n"
  {
    McqSentencesOneFragment("");
    PlainSentencesOneFragment("");
    PlainTextEmpty(title, "");
  }

  // ---------------------------------------------------------------- a lone bullet

  /** `" - ".strip()` is `"-"`. */
  lemma StripBullet()
    ensures Trim(" - ", Whitespace) == "-"
  {
    var s := " - ";
    assert s[0] == ' ' && s[1] == '-' && s[2] == ' ';
    assert LeadLen(s[1..], Whitespace) == 0;
    assert LeadLen(s, Whitespace) == 1;
    var t := s[1..];
    assert t == "- " && t[..1] == "-";
    assert TrailLen(t[..1], Whitespace) == 0;
    assert TrailLen(t, Whitespace) == 1;
  }

  /** A note that is a lone bullet: one empty MCQ sentence, one plain sentence `-`. */
  lemma BulletNoteSentences()
    ensures McqSentences(" - ") == [""]
    ensures PlainSentences(" - ") == ["-"]
  {
    McqSentencesOneFragment(" - ");
    PlainSentencesOneFragment(" - ");
    StripBullet();
    assert LeadLen("-", {'-'}) == 1;
  }

  /** The MCQ request on that note fails with IndexError, whatever the draws. */
  lemma BulletNoteMcqFails(title: string, draws: seq<Draw>)
    requires |draws| >= 1
    ensures DrawsFit(Take(McqSentences(" - "), 5), draws)
    ensures QuizOf(title, " - ", draws) == Err(IndexError)
  {
    BulletNoteSentences();
    assert Take(McqSentences(" - "), 5) == [""];
    assert CorrectAnswer("").Err?;
    QuizCorrect(title, " - ", draws);
  }

  lemma EmptyQuestionLine()
    ensures Lines([""], 1) == "Q1: \n"
  {
    assert NatToString(1) == "1";
    assert [""][1..] == [];
  }

  /** The plain path on the same note prints a question with no text. */
  lemma BulletNotePlain(title: string)
    ensures PlainText(title, " - ") == "Note: " + title + "\n\n" + "Q1: \n"
  {
    BulletNoteSentences();
    assert Take(PlainSentences(" - "), 5) == ["-"];
    assert PlainClean("-") == "";
    assert QuestionTexts(["-"]) == [""];
    EmptyQuestionLine();
  }

  /** `lstrip('-')` stops at the first space, so a dash after it survives. */
  lemma DashAfterBullet()
    ensures McqClean("- -x") == "-x"
  {
    var s := "- -x";
    TrimNothing(s, Whitespace);
    var u := TrimLeft(s, {'-'});
    assert LeadLen(s[1..], {'-'}) == 0;
    assert u == " -x";
    assert LeadLen(u, Whitespace) == 1;
    assert u[1..] == "-x";
    TrimNothing("-x", Whitespace);
  }

  // ---------------------------------------------------------------- "Sun is hot"

  lemma SunIsHotWords()
    ensures SplitWs("Sun is hot") == ["Sun", "is", "hot"]
  {
    var words := ["Sun", "is", "hot"];
    assert Join(words, " ") == "Sun is hot";
    assert AllTokens(words) by { assert IsToken(words[0]) && IsToken(words[1]) && IsToken(words[2]); }
    JoinSpaceSplit(words);
  }

  /** Without a colon the MCQ answer is the first word. */
  lemma SunIsHotAnswer()
    ensures CorrectAnswer("Sun is hot") == Ok("Sun")
  {
    assert "Sun is hot" == "Sun" + " " + "is hot";
    FirstWordAnswer("Sun", "is hot");
  }

  lemma HotPool()
    ensures PoolOf(["hot"], "Sun") == ["hot"]
  {
    assert Lower("hot") == "hot" && Lower("Sun") == "sun";
    TrimNothing("hot", Punctuation);
    assert ["hot"][1..] == [];
  }

  lemma IsHotPool()
    ensures PoolOf(["is", "hot"], "Sun") == ["hot"]
  {
    HotPool();
    assert ["is", "hot"][1..] == ["hot"];
  }

  lemma SunIsHotPool()
    ensures DistractorPool("Sun is hot", "Sun") == ["hot"]
  {
    SunIsHotWords();
    IsHotPool();
    assert ["Sun", "is", "hot"][1..] == ["is", "hot"];
  }

  /** The labels `f"Option {n}"` for n from 1 to 3. */
  lemma Labels()
    ensures OptionLabel(1) == "Option 1" && OptionLabel(2) == "Option 2" && OptionLabel(3) == "Option 3"
  {
    assert NatToString(1) == "1" && NatToString(2) == "2" && NatToString(3) == "3";
  }

  /**
    "is" is too short and "Sun" is the answer, so "hot" is the only
    candidate, and the options before the shuffle are padded with
    `Option 2` and `Option 3`, numbered by position.
   */
  lemma SunIsHotOptions()
    ensures OptionsFor("Sun", ["hot"], [0]) == ["Sun", "hot", "Option 2", "Option 3"]
  {
    assert Pick(["hot"], [0]) == ["hot"];
    var r := Padded(["Sun", "hot"]);
    Labels();
    assert r[..2] == ["Sun", "hot"];
    assert r[0] == "Sun" && r[1] == "hot" && r[2] == "Option 2" && r[3] == "Option 3";
  }

  lemma SunIsHotBullet()
    ensures PlainClean("Sun is hot") == "Sun is hot"
  {
    TrimNothing("Sun is hot", Whitespace);
  }

  // ---------------------------------------------------------------- "Sun"

  /** A one-word sentence has no candidate, and the placeholders start at `Option 1`. */
  lemma LoneWordPool()
    ensures CorrectAnswer("Sun") == Ok("Sun")
    ensures DistractorPool("Sun", "Sun") == []
  {
    assert IsToken("Sun");
    SplitWsToken("Sun");
    assert ["Sun"][1..] == [];
  }

  lemma LoneWordPlaceholders()
    ensures OptionsFor("Sun", [], []) == ["Sun", "Option 1", "Option 2", "Option 3"]
  {
    Labels();
    assert Placeholders() == ["Option 1", "Option 2", "Option 3"];
    assert [ "Sun" ] + Placeholders() == ["Sun", "Option 1", "Option 2", "Option 3"];
  }

  // ---------------------------------------------------------------- "Sun: hot"

  lemma ColonHead()
    ensures Split("Sun: hot", ':')[0] == "Sun"
  {
    var s := "Sun: hot";
    assert s[3] == ':' && s[..3] == "Sun";
    SplitHeadPrefix(s, ':');
    assert ':' !in s[..3];
  }

  /** With a colon the answer is the text before it, stripped. */
  lemma ColonAnswer()
    ensures CorrectAnswer("Sun: hot") == Ok("Sun")
  {
    ColonHead();
    TrimNothing("Sun", Whitespace);
  }

  // ---------------------------------------------------------------- "Sun Sun, hot"

  lemma RepeatWords()
    ensures SplitWs("Sun Sun, hot") == ["Sun", "Sun,", "hot"]
  {
    var words := ["Sun", "Sun,", "hot"];
    assert Join(words, " ") == "Sun Sun, hot";
    assert AllTokens(words) by { assert IsToken(words[0]) && IsToken(words[1]) && IsToken(words[2]); }
    JoinSpaceSplit(words);
  }

  /** "Sun," passes the filter, compared before its comma goes, and then is "Sun". */
  lemma CommaCandidate()
    ensures Candidate("Sun,", "Sun") == ["Sun"]
  {
    assert Lower("Sun,") == "sun," && Lower("Sun") == "sun";
    assert Eligible("Sun,", "Sun");
    assert Trim("Sun,", Punctuation) == "Sun" by {
      assert LeadLen("Sun,", Punctuation) == 0;
      assert TrailLen("Sun,", Punctuation) == 1;
    }
  }

  lemma CommaPool()
    ensures PoolOf(["Sun,", "hot"], "Sun") == ["Sun", "hot"]
  {
    HotPool();
    CommaCandidate();
    assert ["Sun,", "hot"][1..] == ["hot"];
  }

  /**
    A distractor can equal the answer: in "Sun Sun, hot" the answer is the
    first word "Sun", which is left out as the answer itself; the second
    word "Sun," is compared with its comma, so it passes, and becomes "Sun";
    the third, "hot", is kept as it is.
   */
  lemma DistractorEqualsAnswer()
    ensures DistractorPool("Sun Sun, hot", "Sun") == ["Sun", "hot"]
  {
    RepeatWords();
    CommaPool();
    assert ["Sun", "Sun,", "hot"][1..] == ["Sun,", "hot"];
  }

  lemma RepeatAnswer()
    ensures CorrectAnswer("Sun Sun, hot") == Ok("Sun")
  {
    assert "Sun Sun, hot" == "Sun" + " " + "Sun, hot";
    FirstWordAnswer("Sun", "Sun, hot");
  }

  /** Drawing both candidates, in pool order, and padding once. */
  lemma RepeatOptions()
    ensures OptionsFor("Sun", ["Sun", "hot"], [0, 1]) == ["Sun", "Sun", "hot", "Option 3"]
  {
    assert Pick(["Sun", "hot"], [0, 1]) == ["Sun", "hot"];
    Labels();
    var r := Padded(["Sun", "Sun", "hot"]);
    assert r[..3] == ["Sun", "Sun", "hot"];
    assert r[0] == "Sun" && r[1] == "Sun" && r[2] == "hot" && r[3] == "Option 3";
  }

  /** Draws that swap every position with itself leave the list as it is. */
  lemma {:induction false} ShuffleDownIdentity(s: seq<string>, choice: seq<nat>, k: nat)
    requires IsShuffleChoice(choice, |s|) && k <= |s|
    requires forall i :: 0 <= i < |s| ==> choice[i] == i
    ensures ShuffleDown(s, choice, k) == s
    decreases k
  {
    if k > 1 {
      assert Swap(s, k - 1, choice[k - 1]) == s;
      ShuffleDownIdentity(s, choice, k - 1);
    }
  }

  /** An item assembled from its parts: the answer, the pool, and the shuffled options. */
  lemma ItemFromParts(s: string, d: Draw, correct: string, pool: seq<string>, options: seq<string>)
    requires CorrectAnswer(s) == Ok(correct) && DistractorPool(s, correct) == pool
    requires IsShuffleChoice(d.choice, 4) && (pool != [] ==> IsSampleOf(d.picks, |pool|))
    requires Shuffled(OptionsFor(correct, pool, d.picks), d.choice) == options
    ensures DrawFits(s, d) && ItemOf(s, d) == Finish(s, correct, options)
  {
  }

  /** The item's letter is `a`, and `Sun` stands at both `a` and `b`. */
  predicate SunTwiceFromA(r: Result<McqItem>) {
    r.Ok? && r.value.answer == 'a' && 'a' in r.value.options && 'b' in r.value.options
    && r.value.options['a'] == "Sun" && r.value.options['b'] == "Sun"
  }

  /** `list.index` on the options with the answer twice: the first, `a`. */
  lemma RepeatFinish(s: string)
    ensures SunTwiceFromA(Finish(s, "Sun", ["Sun", "Sun", "hot", "Option 3"]))
  {
  }

  /** Both candidates drawn, then no swap: the padded options as they are. */
  lemma RepeatShuffled()
    ensures IsSampleOf([0, 1], 2) && IsShuffleChoice([0, 1, 2, 3], 4)
    ensures Shuffled(OptionsFor("Sun", ["Sun", "hot"], [0, 1]), [0, 1, 2, 3]) == ["Sun", "Sun", "hot", "Option 3"]
  {
    RepeatOptions();
    ShuffleDownIdentity(["Sun", "Sun", "hot", "Option 3"], [0, 1, 2, 3], 4);
  }

  /**
    With both candidates drawn and no swap, the answer appears twice among
    the options, at letters `a` and `b`, and the item's letter is that of
    the first, `a`. This is the case of "Sun Sun, hot", whose answer and pool
    RepeatAnswer and DistractorEqualsAnswer give.
   */
  lemma DuplicateAnswerLetter(s: string)
    requires CorrectAnswer(s) == Ok("Sun") && DistractorPool(s, "Sun") == ["Sun", "hot"]
    ensures DrawFits(s, Draw([0, 1], [0, 1, 2, 3]))
    ensures SunTwiceFromA(ItemOf(s, Draw([0, 1], [0, 1, 2, 3])))
  {
    RepeatShuffled();
    ItemFromParts(s, Draw([0, 1], [0, 1, 2, 3]), "Sun", ["Sun", "hot"], ["Sun", "Sun", "hot", "Option 3"]);
    RepeatFinish(s);
  }
}
