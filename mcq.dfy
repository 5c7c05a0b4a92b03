/**
  The multiple-choice generator (`generate_mcq`, Backend/app.py:188-232)
  without its HTTP and database handling. For each of the first five MCQ
  sentences of a note it builds one item: the correct answer, up to three
  distractors taken from the sentence's own words, padding to four options,
  a shuffle, and the letter of the first option equal to the answer. An
  exception raised for one sentence (an `IndexError` on an empty sentence)
  aborts the whole request.
 */
module McqBuilder {
  import opened PyStr
  import opened Segmenter
  import opened McqOptions

  /** Line 201. */
  const Letters: seq<char> := ['a', 'b', 'c', 'd']

  /** One entry of `mcq_questions` (lines 226-230). */
  datatype McqItem = McqItem(question: string, options: map<char, string>, answer: char)

  /** The JSON body of a successful response (line 232). */
  datatype McqQuiz = McqQuiz(noteTitle: string, mcqQuestions: seq<McqItem>)

  /** The random draws made for one sentence: the sample's positions and the shuffle's indices. */
  datatype Draw = Draw(picks: seq<nat>, choice: seq<nat>)

  // ---------------------------------------------------------------- correct answer

  /**
    Lines 207-210: the text before the first `:`, stripped, or else the
    first word, where `s.split()[0]` raises IndexError exactly when the
    sentence is blank.
   */
  function CorrectAnswer(s: string): (r: Result<string>)
    ensures r.Err? <==> ':' !in s && forall k :: 0 <= k < |s| ==> s[k] in Whitespace
    ensures r.Err? ==> r.error == IndexError
    ensures r.Ok? ==> ':' !in r.value
  {
    if ':' in s then
      var head := Split(s, ':')[0];
      TrimAbsent(head, Whitespace, ':');
      Ok(Trim(head, Whitespace))
    else
      var words := SplitWs(s);
      if words == [] then Err(IndexError)
      else
        SplitWsAbsent(s, ':');
        Ok(words[0])
  }

  /** With a `:`, the answer is the stripped text before the first `:`. */
  lemma CorrectAnswerColon(s: string)
    requires ':' in s
    ensures exists i :: 0 <= i < |s| && s[i] == ':' && ':' !in s[..i] && CorrectAnswer(s) == Ok(Trim(s[..i], Whitespace))
  {
    SplitHeadPrefix(s, ':');
  }

  /** Without a `:`, the answer is the sentence's first whitespace-delimited word. */
  lemma CorrectAnswerFirstWord(s: string)
    requires ':' !in s && CorrectAnswer(s).Ok?
    ensures exists i: nat :: FirstTokenAt(CorrectAnswer(s).value, s, i)
  {
    SplitWsHead(s);
  }

  /** On a sentence as line 200 produces it (stripped), the only failure is the empty sentence. */
  lemma CorrectAnswerOfSentence(s: string)
    requires Stripped(s)
    ensures CorrectAnswer(s).Err? <==> s == []
  {
    if s != [] {
      assert s[0] !in Whitespace;
    }
  }

  // ---------------------------------------------------------------- distractor pool

  /** The characters `w.strip(",.")` removes, from both ends. */
  const Punctuation: set<char> := {',', '.'}

  /** Line 214's filter, on the word as `split()` returned it: not the answer, ignoring case, and longer than two. */
  predicate Eligible(w: string, correct: string) {
    Lower(w) != Lower(correct) && |w| > 2
  }

  /** A distractor candidate: no `,` or `.` at either end. */
  predicate Unpunctuated(x: string) {
    x == [] || (x[0] !in Punctuation && x[|x| - 1] !in Punctuation)
  }

  predicate AllUnpunctuated(xs: seq<string>) {
    forall k :: 0 <= k < |xs| ==> Unpunctuated(xs[k])
  }

  /** What line 214 keeps of one word: nothing, or the word stripped of `,` and `.`. */
  function Candidate(w: string, correct: string): seq<string> {
    if Eligible(w, correct) then [Trim(w, Punctuation)] else []
  }

  /** Line 214's comprehension over a list of words. */
  function PoolOf(words: seq<string>, correct: string): (r: seq<string>)
    ensures |r| <= |words|
  {
    if words == [] then [] else Candidate(words[0], correct) + PoolOf(words[1..], correct)
  }

  /** No candidate begins or ends with `,` or `.`. */
  lemma {:induction false} PoolUnpunctuated(words: seq<string>, correct: string)
    ensures AllUnpunctuated(PoolOf(words, correct))
  {
    if words != [] {
      PoolUnpunctuated(words[1..], correct);
      CandidateUnpunctuated(words[0], correct);
      AllUnpunctuatedAppend(Candidate(words[0], correct), PoolOf(words[1..], correct));
    }
  }

  lemma CandidateUnpunctuated(w: string, correct: string)
    ensures AllUnpunctuated(Candidate(w, correct))
  {
  }

  lemma AllUnpunctuatedAppend(a: seq<string>, b: seq<string>)
    requires AllUnpunctuated(a) && AllUnpunctuated(b)
    ensures AllUnpunctuated(a + b)
  {
  }

  /** The distractor candidates of a sentence (line 214). */
  function DistractorPool(s: string, correct: string): (r: seq<string>)
    ensures |r| <= |SplitWs(s)|
  {
    PoolOf(SplitWs(s), correct)
  }

  /** Every candidate is an eligible word of the sentence with `,` and `.` stripped from both ends. */
  lemma {:induction false} PoolSound(words: seq<string>, correct: string, x: string)
    requires x in PoolOf(words, correct)
    ensures exists j :: 0 <= j < |words| && Eligible(words[j], correct) && x == Trim(words[j], Punctuation)
  {
    var head := Candidate(words[0], correct);
    assert PoolOf(words, correct) == head + PoolOf(words[1..], correct);
    if x !in head {
      assert x in PoolOf(words[1..], correct);
      PoolSound(words[1..], correct, x);
      var j :| 0 <= j < |words[1..]| && Eligible(words[1..][j], correct) && x == Trim(words[1..][j], Punctuation);
      assert words[j + 1] == words[1..][j];
    }
  }

  /** Every eligible word gives a candidate. */
  lemma {:induction false} PoolComplete(words: seq<string>, correct: string, j: nat)
    requires j < |words| && Eligible(words[j], correct)
    ensures Trim(words[j], Punctuation) in PoolOf(words, correct)
  {
    assert PoolOf(words, correct) == Candidate(words[0], correct) + PoolOf(words[1..], correct);
    if j > 0 {
      assert words[1..][j - 1] == words[j];
      PoolComplete(words[1..], correct, j - 1);
    }
  }

  /** The positions from i on of the words line 214 keeps, in increasing order. */
  function EligibleFrom(words: seq<string>, correct: string, i: nat): (js: seq<nat>)
    requires i <= |words|
    decreases |words| - i
  {
    if i == |words| then []
    else (if Eligible(words[i], correct) then [i] else []) + EligibleFrom(words, correct, i + 1)
  }

  /** The positions of the eligible words, in word order. */
  function EligiblePositions(words: seq<string>, correct: string): seq<nat> {
    EligibleFrom(words, correct, 0)
  }

  /** `EligibleFrom` lists, in increasing order, exactly the eligible positions from i on. */
  lemma EligibleFromSpec(words: seq<string>, correct: string, i: nat)
    requires i <= |words|
    ensures var js := EligibleFrom(words, correct, i);
      && (forall k :: 0 <= k < |js| ==> i <= js[k] < |words|)
      && (forall k, l :: 0 <= k < l < |js| ==> js[k] < js[l])
      && (forall j: nat :: j in js <==> i <= j < |words| && Eligible(words[j], correct))
  {
    EligibleFromAscending(words, correct, i);
    EligibleFromMembers(words, correct, i);
  }

  lemma {:induction false} EligibleFromAscending(words: seq<string>, correct: string, i: nat)
    requires i <= |words|
    ensures Ascending(EligibleFrom(words, correct, i), i, |words|)
    decreases |words| - i
  {
    if i < |words| {
      var rest := EligibleFrom(words, correct, i + 1);
      EligibleFromAscending(words, correct, i + 1);
      if Eligible(words[i], correct) {
        assert EligibleFrom(words, correct, i) == [i] + rest;
        AscendingCons(i, |words|, rest);
      } else {
        assert EligibleFrom(words, correct, i) == rest;
      }
    }
  }

  lemma {:induction false} EligibleFromMembers(words: seq<string>, correct: string, i: nat)
    requires i <= |words|
    ensures forall j: nat :: j in EligibleFrom(words, correct, i) <==> i <= j < |words| && Eligible(words[j], correct)
    decreases |words| - i
  {
    if i < |words| {
      EligibleFromMembers(words, correct, i + 1);
    }
  }

  /** Positions in [lo, hi), strictly increasing. */
  predicate Ascending(js: seq<nat>, lo: nat, hi: nat) {
    && (forall k :: 0 <= k < |js| ==> lo <= js[k] < hi)
    && (forall k, l :: 0 <= k < l < |js| ==> js[k] < js[l])
  }

  lemma AscendingCons(i: nat, hi: nat, js: seq<nat>)
    requires i < hi && Ascending(js, i + 1, hi)
    ensures Ascending([i] + js, i, hi)
  {
    var q := [i] + js;
    assert forall k :: 0 < k < |q| ==> q[k] == js[k - 1];
  }

  /** Candidate k of `pool` is the word at position js[k], stripped of `,` and `.`. */
  predicate IndexedBy(pool: seq<string>, words: seq<string>, js: seq<nat>) {
    |pool| == |js| && forall k :: 0 <= k < |js| ==> js[k] < |words| && pool[k] == Trim(words[js[k]], Punctuation)
  }

  lemma IndexedCons(words: seq<string>, i: nat, head: seq<string>, hj: seq<nat>, rest: seq<string>, js: seq<nat>)
    requires i < |words|
    requires (head == [] && hj == []) || (head == [Trim(words[i], Punctuation)] && hj == [i])
    requires IndexedBy(rest, words, js)
    ensures IndexedBy(head + rest, words, hj + js)
  {
    if head == [] {
      assert head + rest == rest && hj + js == js;
    } else {
      var p, q := head + rest, hj + js;
      assert |p| == |q|;
      forall k | 0 <= k < |q| ensures q[k] < |words| && p[k] == Trim(words[q[k]], Punctuation) {
        if k > 0 {
          assert p[k] == rest[k - 1] && q[k] == js[k - 1];
        }
      }
    }
  }

  /** The pool of the words from i on, candidate k coming from the k-th eligible position. */
  lemma {:induction false} PoolFrom(words: seq<string>, correct: string, i: nat)
    requires i <= |words|
    ensures IndexedBy(PoolOf(words[i..], correct), words, EligibleFrom(words, correct, i))
    decreases |words| - i
  {
    if i < |words| {
      PoolFrom(words, correct, i + 1);
      var js, rest := EligibleFrom(words, correct, i + 1), PoolOf(words[i + 1..], correct);
      var head := Candidate(words[i], correct);
      var hj := if Eligible(words[i], correct) then [i] else [];
      assert words[i..][0] == words[i] && words[i..][1..] == words[i + 1..];
      assert PoolOf(words[i..], correct) == head + rest;
      assert EligibleFrom(words, correct, i) == hj + js;
      IndexedCons(words, i, head, hj, rest, js);
    }
  }

  /**
    Line 214 keeps one candidate per eligible word, in word order: with js
    the eligible positions in increasing order, the pool has |js|
    candidates and the k-th is the word at js[k] stripped of `,` and `.`.
    So repeated words give repeated candidates.
   */
  lemma PoolInOrder(words: seq<string>, correct: string)
    ensures var js := EligiblePositions(words, correct); var pool := PoolOf(words, correct);
      && (forall k, l :: 0 <= k < l < |js| ==> js[k] < js[l])
      && (forall j: nat :: j in js <==> j < |words| && Eligible(words[j], correct))
      && |pool| == |js|
      && forall k :: 0 <= k < |js| ==> js[k] < |words| && pool[k] == Trim(words[js[k]], Punctuation)
  {
    EligibleFromSpec(words, correct, 0);
    PoolFrom(words, correct, 0);
    assert words[0..] == words;
    assert IndexedBy(PoolOf(words, correct), words, EligiblePositions(words, correct));
  }

  /** The pool is empty exactly when no word is eligible. */
  lemma PoolEmpty(words: seq<string>, correct: string)
    ensures PoolOf(words, correct) == [] <==> forall j :: 0 <= j < |words| ==> !Eligible(words[j], correct)
  {
    if PoolOf(words, correct) == [] {
      forall j | 0 <= j < |words| ensures !Eligible(words[j], correct) {
        if Eligible(words[j], correct) {
          PoolComplete(words, correct, j);
        }
      }
    } else {
      PoolSound(words, correct, PoolOf(words, correct)[0]);
    }
  }

  // ---------------------------------------------------------------- the four options

  /** The draws suit the sentence: a sample of the pool's size when the pool is used, a shuffle of four. */
  predicate DrawFits(s: string, d: Draw) {
    match CorrectAnswer(s)
    case Err(_) => true
    case Ok(correct) =>
      && IsShuffleChoice(d.choice, 4)
      && var pool := DistractorPool(s, correct);
         pool != [] ==> IsSampleOf(d.picks, |pool|)
  }

  /** Line 215: a sample of the pool, or the three placeholders when the pool is empty. */
  function Distractors(pool: seq<string>, picks: seq<nat>): (r: seq<string>)
    requires pool != [] ==> IsSampleOf(picks, |pool|)
    ensures |r| == if pool == [] then 3 else Min(3, |pool|)
  {
    if pool == [] then Placeholders() else Pick(pool, picks)
  }

  /**
    The distractors drawn from a non-empty pool are a sub-multiset of it,
    and all of it when the pool has at most three candidates.
   */
  lemma DistractorsFromPool(pool: seq<string>, picks: seq<nat>)
    requires pool != [] && IsSampleOf(picks, |pool|)
    ensures multiset(Distractors(pool, picks)) <= multiset(pool)
    ensures |pool| <= 3 ==> multiset(Distractors(pool, picks)) == multiset(pool)
  {
    PickSubMultiset(pool, picks);
  }

  /** Lines 218-220: the correct answer, its distractors and the padding, before the shuffle. */
  function OptionsFor(correct: string, pool: seq<string>, picks: seq<nat>): (r: seq<string>)
    requires pool != [] ==> IsSampleOf(picks, |pool|)
    ensures |r| == 4 && r[0] == correct
  {
    var r := Padded([correct] + Distractors(pool, picks));
    assert r[..1] == [correct];
    r
  }

  /**
    Padding happens only when the pool has one or two candidates; the
    `Option {k}` labels then fill positions |pool| + 1 to 3.
   */
  lemma PaddingOnlyForSmallPool(correct: string, pool: seq<string>, picks: seq<nat>)
    requires pool != [] ==> IsSampleOf(picks, |pool|)
    ensures var ds := Distractors(pool, picks); var r := OptionsFor(correct, pool, picks);
            && (r == [correct] + ds <==> pool == [] || |pool| >= 3)
            && (0 < |pool| < 3 ==> r[..|pool| + 1] == [correct] + ds && forall k :: |pool| < k < 4 ==> r[k] == OptionLabel(k))
  {
    var ds := Distractors(pool, picks);
    var r := OptionsFor(correct, pool, picks);
    assert r == Padded([correct] + ds);
    if 0 < |pool| < 3 {
      assert |r| != |[correct] + ds|;
    }
  }

  /** The dictionary of line 223. */
  function OptionMap(options: seq<string>): (m: map<char, string>)
    requires |options| == 4
    ensures m.Keys == {'a', 'b', 'c', 'd'}
    ensures forall k :: 0 <= k < 4 ==> Letters[k] in m && m[Letters[k]] == options[k]
  {
    map['a' := options[0], 'b' := options[1], 'c' := options[2], 'd' := options[3]]
  }

  // ---------------------------------------------------------------- one item

  /**
    Lines 222-230 once the options are shuffled: the letter of the first
    option equal to the answer. A missing answer would be `list.index`'s
    ValueError; FinishCorrect shows it cannot happen.
   */
  function Finish(s: string, correct: string, options: seq<string>): (r: Result<McqItem>)
    requires |options| == 4
  {
    match FirstIndex(options, correct)
    case None => Err(ValueError)
    case Some(k) => Ok(McqItem(s, OptionMap(options), Letters[k]))
  }

  /** The option values of an item, in letter order. */
  function OptionValues(m: map<char, string>): seq<string>
    requires m.Keys == {'a', 'b', 'c', 'd'}
  {
    [m['a'], m['b'], m['c'], m['d']]
  }

  /**
    With the answer among the four options, the item asks the sentence, its
    options are keyed a to d in the shuffled order, the answer letter's
    option is the correct answer and no earlier letter's is.
   */
  lemma FinishCorrect(s: string, correct: string, options: seq<string>)
    requires |options| == 4 && correct in options
    ensures var r := Finish(s, correct, options);
      && r.Ok?
      && r.value.question == s
      && r.value.options.Keys == {'a', 'b', 'c', 'd'}
      && OptionValues(r.value.options) == options
      && r.value.answer in r.value.options
      && r.value.options[r.value.answer] == correct
      && (forall j :: 0 <= j < 4 && Letters[j] < r.value.answer ==> r.value.options[Letters[j]] != correct)
  {
    var k := FirstIndex(options, correct).value;
    var m := OptionMap(options);
    forall j | 0 <= j < 4 && Letters[j] < Letters[k]
      ensures m[Letters[j]] != correct
    {
      assert j < k;
      assert options[..k][j] == options[j];
    }
  }

  /** Lines 207-230 for one sentence. */
  function ItemOf(s: string, d: Draw): (r: Result<McqItem>)
    requires DrawFits(s, d)
  {
    match CorrectAnswer(s)
    case Err(e) => Err(e)
    case Ok(correct) =>
      Finish(s, correct, Shuffled(OptionsFor(correct, DistractorPool(s, correct), d.picks), d.choice))
  }

  /**
    The item for a sentence with an answer: its question is the sentence,
    its options are keyed a to d, the answer letter's option is the correct
    answer and no earlier letter's is, and the four options are the correct
    answer, the distractors and the padding in some order.
   */
  lemma ItemCorrect(s: string, d: Draw)
    requires DrawFits(s, d) && CorrectAnswer(s).Ok?
    ensures var r := ItemOf(s, d); var correct := CorrectAnswer(s).value;
      && r.Ok?
      && r.value.question == s
      && r.value.options.Keys == {'a', 'b', 'c', 'd'}
      && r.value.answer in r.value.options
      && r.value.options[r.value.answer] == correct
      && (forall j :: 0 <= j < 4 && Letters[j] < r.value.answer ==> r.value.options[Letters[j]] != correct)
      && multiset(OptionValues(r.value.options)) == multiset(OptionsFor(correct, DistractorPool(s, correct), d.picks))
  {
    var correct := CorrectAnswer(s).value;
    var before := OptionsFor(correct, DistractorPool(s, correct), d.picks);
    var options := Shuffled(before, d.choice);
    ShuffledPermutes(before, d.choice);
    assert correct in multiset(options) by {
      assert before[0] == correct;
    }
    FinishCorrect(s, correct, options);
  }

  /** An item fails exactly when its sentence has no answer, and then with IndexError, never ValueError. */
  lemma ItemFails(s: string, d: Draw)
    requires DrawFits(s, d)
    ensures ItemOf(s, d).Err? <==> CorrectAnswer(s).Err?
    ensures ItemOf(s, d).Err? ==> ItemOf(s, d).error == IndexError
  {
    if CorrectAnswer(s).Ok? {
      ItemCorrect(s, d);
    }
  }

  /** Lines 214-220: the pool, the sample or the placeholders, and the padding. */
  method DrawOptions(s: string, correct: string, picks: seq<nat>) returns (options: seq<string>)
    requires var pool := DistractorPool(s, correct); pool != [] ==> IsSampleOf(picks, |pool|)
    ensures options == OptionsFor(correct, DistractorPool(s, correct), picks)
  {
    var pool := DistractorPool(s, correct);
    var distractors := if pool != [] then Pick(pool, picks) else Placeholders();
    options := PadOptions([correct] + distractors);
  }

  /** Lines 222-224: the shuffle in place on a fresh list of the four options. */
  method ShuffleOptions(options: seq<string>, choice: seq<nat>) returns (shuffled: seq<string>)
    requires |options| == 4 && IsShuffleChoice(choice, 4)
    ensures shuffled == Shuffled(options, choice)
  {
    var a := new string[4](i requires 0 <= i < 4 => options[i]);
    assert a[..] == options;
    Shuffle(a, choice);
    shuffled := a[..];
  }

  /** The loop body of lines 205-230 for one sentence. */
  method BuildItem(s: string, d: Draw) returns (r: Result<McqItem>)
    requires DrawFits(s, d)
    ensures r == ItemOf(s, d)
  {
    var answer := CorrectAnswer(s);
    if answer.Err? {
      return Err(answer.error);
    }
    var correct := answer.value;
    var options := DrawOptions(s, correct, d.picks);
    var shuffled := ShuffleOptions(options, d.choice);
    ShuffledPermutes(options, d.choice);
    assert correct in multiset(shuffled) by {
      assert options[0] == correct;
    }
    var k := FirstIndex(shuffled, correct).value;
    r := Ok(McqItem(s, OptionMap(shuffled), Letters[k]));
  }

  // ---------------------------------------------------------------- the quiz

  /** One fitting draw per sentence. */
  predicate DrawsFit(sentences: seq<string>, draws: seq<Draw>) {
    |draws| >= |sentences| && forall i :: 0 <= i < |sentences| ==> DrawFits(sentences[i], draws[i])
  }

  /** The per-sentence outcomes, in order. */
  function Outcomes(sentences: seq<string>, draws: seq<Draw>): (r: seq<Result<McqItem>>)
    requires DrawsFit(sentences, draws)
    ensures |r| == |sentences| && forall i :: 0 <= i < |r| ==> r[i] == ItemOf(sentences[i], draws[i])
  {
    seq(|sentences|, i requires 0 <= i < |sentences| => ItemOf(sentences[i], draws[i]))
  }

  /** The outcomes of the loop in order: the first exception stops the loop and the request. */
  function Collect(outcomes: seq<Result<McqItem>>): (r: Result<seq<McqItem>>)
  {
    if outcomes == [] then Ok([])
    else
      var n := |outcomes| - 1;
      match Collect(outcomes[..n])
      case Err(e) => Err(e)
      case Ok(items) =>
        match outcomes[n]
        case Err(e) => Err(e)
        case Ok(item) => Ok(items + [item])
  }

  /**
    Collecting fails, with the error of the first failing outcome, exactly
    when some outcome fails; otherwise it yields every item, in order.
   */
  lemma {:induction false} CollectSpec(outcomes: seq<Result<McqItem>>)
    ensures var r := Collect(outcomes);
      && (r.Err? <==> exists i :: 0 <= i < |outcomes| && outcomes[i].Err?)
      && (r.Err? ==> exists i :: 0 <= i < |outcomes| && outcomes[i] == Err(r.error) && forall j :: 0 <= j < i ==> outcomes[j].Ok?)
      && (r.Ok? ==> |r.value| == |outcomes| && forall i :: 0 <= i < |outcomes| ==> outcomes[i] == Ok(r.value[i]))
  {
    if outcomes != [] {
      var n := |outcomes| - 1;
      var front := outcomes[..n];
      CollectSpec(front);
      assert forall i :: 0 <= i < n ==> front[i] == outcomes[i];
      var r := Collect(outcomes);
      if Collect(front).Err? {
        var i :| 0 <= i < n && front[i] == Err(r.error) && forall j :: 0 <= j < i ==> front[j].Ok?;
        assert outcomes[i] == Err(r.error);
      } else if outcomes[n].Err? {
        assert forall j :: 0 <= j < n ==> outcomes[j].Ok?;
      } else {
        forall i | 0 <= i < |outcomes| ensures !outcomes[i].Err? {
          if i < n {
            assert front[i] == outcomes[i];
          }
        }
      }
    }
  }

  /** One more outcome: its item is appended, or its error is the result. */
  lemma CollectSnoc(outcomes: seq<Result<McqItem>>, i: nat, items: seq<McqItem>)
    requires i < |outcomes| && Collect(outcomes[..i]) == Ok(items)
    ensures Collect(outcomes[..i + 1]) == if outcomes[i].Ok? then Ok(items + [outcomes[i].value]) else Err(outcomes[i].error)
  {
    var next := outcomes[..i + 1];
    assert next[..i] == outcomes[..i] && next[i] == outcomes[i];
  }

  /** An error among the first outcomes is the error of them all. */
  lemma {:induction false} CollectErrPersists(outcomes: seq<Result<McqItem>>, i: nat)
    requires i <= |outcomes| && Collect(outcomes[..i]).Err?
    ensures Collect(outcomes) == Collect(outcomes[..i])
    decreases |outcomes| - i
  {
    if i < |outcomes| {
      var next := outcomes[..i + 1];
      assert next[..i] == outcomes[..i];
      CollectErrPersists(outcomes, i + 1);
    } else {
      assert outcomes[..i] == outcomes;
    }
  }

  /** The items of lines 205-230 over `sentences`. */
  function ItemsOf(sentences: seq<string>, draws: seq<Draw>): Result<seq<McqItem>>
    requires DrawsFit(sentences, draws)
  {
    Collect(Outcomes(sentences, draws))
  }

  /**
    The items fail exactly when some sentence has no answer, always with
    IndexError; otherwise there is one item per sentence, in order.
   */
  lemma ItemsOfSpec(sentences: seq<string>, draws: seq<Draw>)
    requires DrawsFit(sentences, draws)
    ensures var r := ItemsOf(sentences, draws);
      && (r.Err? <==> exists i :: 0 <= i < |sentences| && CorrectAnswer(sentences[i]).Err?)
      && (r.Err? ==> r.error == IndexError)
      && (r.Ok? ==> |r.value| == |sentences| && forall i :: 0 <= i < |sentences| ==> ItemOf(sentences[i], draws[i]) == Ok(r.value[i]))
  {
    var outcomes := Outcomes(sentences, draws);
    CollectSpec(outcomes);
    forall i | 0 <= i < |sentences|
      ensures outcomes[i].Err? <==> CorrectAnswer(sentences[i]).Err?
      ensures outcomes[i].Err? ==> outcomes[i].error == IndexError
    {
      ItemFails(sentences[i], draws[i]);
    }
  }

  /**
    What the route promises of an item for sentence s: it asks s, its
    options are keyed a to d, and its answer letter is the first whose
    option is the sentence's correct answer.
   */
  predicate Answers(item: McqItem, s: string) {
    && item.question == s
    && item.options.Keys == {'a', 'b', 'c', 'd'}
    && item.answer in item.options
    && CorrectAnswer(s) == Ok(item.options[item.answer])
    && forall j :: 0 <= j < 4 && Letters[j] < item.answer ==> item.options[Letters[j]] != item.options[item.answer]
  }

  /** When no sentence fails, item i answers sentence i. */
  lemma ItemsAnswer(sentences: seq<string>, draws: seq<Draw>)
    requires DrawsFit(sentences, draws) && ItemsOf(sentences, draws).Ok?
    ensures var items := ItemsOf(sentences, draws).value;
            |items| == |sentences| && forall i :: 0 <= i < |sentences| ==> Answers(items[i], sentences[i])
  {
    ItemsOfSpec(sentences, draws);
    var items := ItemsOf(sentences, draws).value;
    forall i | 0 <= i < |sentences| ensures Answers(items[i], sentences[i]) {
      ItemCorrect(sentences[i], draws[i]);
    }
  }

  /** The response for a note: the title and the items for the first five MCQ sentences. */
  function QuizOf(title: string, content: string, draws: seq<Draw>): (r: Result<McqQuiz>)
    requires DrawsFit(Take(McqSentences(content), 5), draws)
  {
    match ItemsOf(Take(McqSentences(content), 5), draws)
    case Err(e) => Err(e)
    case Ok(items) => Ok(McqQuiz(title, items))
  }

  /**
    The generator's promise. The request fails, with IndexError, exactly
    when one of the first five sentences is empty (a fragment made of
    dashes). Otherwise the quiz carries the note's title and min(5, n)
    items, and item i asks the i-th sentence, has options keyed a to d, and
    its answer letter's option is that sentence's correct answer.
   */
  lemma QuizCorrect(title: string, content: string, draws: seq<Draw>)
    requires DrawsFit(Take(McqSentences(content), 5), draws)
    ensures var ss := Take(McqSentences(content), 5); var r := QuizOf(title, content, draws);
      && (r.Err? <==> exists i :: 0 <= i < |ss| && ss[i] == [])
      && (r.Err? ==> r.error == IndexError)
      && (r.Ok? ==>
            && r.value.noteTitle == title
            && |r.value.mcqQuestions| == Min(5, |McqSentences(content)|)
            && forall i :: 0 <= i < |ss| ==> Answers(r.value.mcqQuestions[i], ss[i]))
  {
    var ss := Take(McqSentences(content), 5);
    FirstFiveFail(content);
    ItemsOfSpec(ss, draws);
    if ItemsOf(ss, draws).Ok? {
      ItemsAnswer(ss, draws);
    }
  }

  /** Among the first five MCQ sentences, those whose answer fails are the empty ones. */
  lemma FirstFiveFail(content: string)
    ensures var ss := Take(McqSentences(content), 5);
            forall i :: 0 <= i < |ss| ==> (CorrectAnswer(ss[i]).Err? <==> ss[i] == [])
  {
    var ss := Take(McqSentences(content), 5);
    forall i | 0 <= i < |ss| ensures CorrectAnswer(ss[i]).Err? <==> ss[i] == [] {
      assert ss[i] == McqSentences(content)[i];
      CorrectAnswerOfSentence(ss[i]);
    }
  }

  /** Lines 205-230: the loop over the sentences, appending one item at a time. */
  method BuildItems(sentences: seq<string>, draws: seq<Draw>) returns (r: Result<seq<McqItem>>)
    requires DrawsFit(sentences, draws)
    ensures r == ItemsOf(sentences, draws)
  {
    ghost var outcomes := Outcomes(sentences, draws);
    var mcqs: seq<McqItem> := [];
    var i := 0;
    while i < |sentences|
      invariant 0 <= i <= |sentences|
      invariant Collect(outcomes[..i]) == Ok(mcqs)
    {
      var item := BuildItem(sentences[i], draws[i]);
      assert item == outcomes[i];
      CollectSnoc(outcomes, i, mcqs);
      if item.Err? {
        CollectErrPersists(outcomes, i + 1);
        return Err(item.error);
      }
      mcqs := mcqs + [item.value];
      i := i + 1;
    }
    assert outcomes[..i] == outcomes;
    return Ok(mcqs);
  }

  /** Lines 200-232: the first five sentences, their items, and the response. */
  method GenerateMcq(title: string, content: string, draws: seq<Draw>) returns (r: Result<McqQuiz>)
    requires DrawsFit(Take(McqSentences(content), 5), draws)
    ensures r == QuizOf(title, content, draws)
  {
    var sentences := McqSentences(content);
    var items := BuildItems(Take(sentences, 5), draws);
    if items.Err? {
      return Err(items.error);
    }
    return Ok(McqQuiz(title, items.value));
  }
}
