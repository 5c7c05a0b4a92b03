/**
  The plain-question generator (`generate_normal`, Backend/app.py:166-176)
  without its HTTP and database handling: a header, then one `Q{i}:` line
  for each of the first five sentences of the note.
 */
module PlainFormatter {
  import opened PyStr
  import opened Segmenter

  /** Line 169: `f"Note: {title}\n\n"`. */
  function Header(title: string): string {
    "Note: " + title + "\n\n"
  }

  /** Line 176: `f"Q{i}: {question_text}\n"`. */
  function QuestionLine(i: nat, text: string): string {
    "Q" + NatToString(i) + ": " + text + "\n"
  }

  /** The question texts the loop derives from `sentences` (lines 172-174), in order. */
  function QuestionTexts(sentences: seq<string>): (r: seq<string>)
    ensures |r| == |sentences|
    ensures forall i :: 0 <= i < |r| ==> r[i] == PlainClean(sentences[i])
  {
    seq(|sentences|, i requires 0 <= i < |sentences| => PlainClean(sentences[i]))
  }

  /** The lines for `texts`, numbered from `first`. */
  function Lines(texts: seq<string>, first: nat): string {
    if texts == [] then ""
    else QuestionLine(first, texts[0]) + Lines(texts[1..], first + 1)
  }

  /** The whole `plain_text` the route returns for a note. */
  function PlainText(title: string, content: string): string {
    Header(title) + Lines(QuestionTexts(Take(PlainSentences(content), 5)), 1)
  }

  /** The lines of two runs of texts: those of the first, then those of the second, numbered on. */
  lemma {:induction false} LinesAppend(a: seq<string>, b: seq<string>, first: nat)
    ensures Lines(a + b, first) == Lines(a, first) + Lines(b, first + |a|)
  {
    if a == [] {
      assert a + b == b;
    } else {
      assert (a + b)[0] == a[0];
      assert (a + b)[1..] == a[1..] + b;
      LinesAppend(a[1..], b, first + 1);
    }
  }

  /**
    Text i (0-based) gives line number `first + i`, preceded by the lines of
    the texts before it and followed by those after it.
   */
  lemma LinesAt(texts: seq<string>, first: nat, i: nat)
    requires i < |texts|
    ensures Lines(texts, first)
         == Lines(texts[..i], first) + QuestionLine(first + i, texts[i]) + Lines(texts[i + 1..], first + i + 1)
  {
    assert texts == texts[..i] + ([texts[i]] + texts[i + 1..]);
    LinesAppend(texts[..i], [texts[i]] + texts[i + 1..], first);
    assert ([texts[i]] + texts[i + 1..])[1..] == texts[i + 1..];
  }

  /** One more text appends its line. */
  lemma LinesSnoc(texts: seq<string>, i: nat)
    requires i < |texts|
    ensures Lines(texts[..i + 1], 1) == Lines(texts[..i], 1) + QuestionLine(i + 1, texts[i])
  {
    assert texts[..i + 1] == texts[..i] + [texts[i]];
    LinesAppend(texts[..i], [texts[i]], 1);
    assert Lines([texts[i]], 1 + i) == QuestionLine(1 + i, texts[i]) + Lines([], 2 + i);
  }

  lemma ConcatAssoc(a: string, b: string, c: string)
    ensures (a + b) + c == a + (b + c)
  {
  }

  /** Lines 169-176 as the loop runs them: the header, then `+=` one line per sentence. */
  method GenerateNormal(title: string, content: string) returns (plainText: string)
    ensures plainText == PlainText(title, content)
  {
    var sentences := PlainSentences(content);
    var firstFive := Take(sentences, 5);
    ghost var texts := QuestionTexts(firstFive);
    plainText := Header(title);
    var i := 0;
    while i < |firstFive|
      invariant 0 <= i <= |firstFive|
      invariant plainText == Header(title) + Lines(texts[..i], 1)
    {
      var questionText := Trim(firstFive[i], Whitespace);
      if StartsWith(questionText, '-') {
        questionText := Trim(questionText[1..], Whitespace);
      }
      assert questionText == texts[i];
      LinesSnoc(texts, i);
      ConcatAssoc(Header(title), Lines(texts[..i], 1), QuestionLine(i + 1, questionText));
      plainText := plainText + QuestionLine(i + 1, questionText);
      i := i + 1;
    }
    assert texts[..i] == texts;
  }

  /** A note with no non-blank fragment, the empty note included, gives exactly the header. */
  lemma PlainTextEmpty(title: string, content: string)
    requires PlainSentences(content) == []
    ensures PlainText(title, content) == "Note: " + title + "\n\n"
  {
  }

  /**
    Line i (0-based) of the output, for each of the first min(5, n)
    sentences, reads `Q{i+1}: ` and the i-th sentence with one leading dash
    removed; it follows the header and the lines of the sentences before it
    and comes before those of the sentences after it.
   */
  lemma PlainTextLine(title: string, content: string, i: nat)
    requires i < Min(5, |PlainSentences(content)|)
    ensures var texts := QuestionTexts(Take(PlainSentences(content), 5));
            PlainText(title, content)
              == Header(title)
               + (Lines(texts[..i], 1) + QuestionLine(i + 1, PlainClean(PlainSentences(content)[i])) + Lines(texts[i + 1..], i + 2))
  {
    var ss := PlainSentences(content);
    var ts := Take(ss, 5);
    var texts := QuestionTexts(ts);
    assert ts[i] == ss[i];
    assert texts[i] == PlainClean(ss[i]);
    LinesAt(texts, 1, i);
  }

  /**
    The cap: once a note has five sentences, whatever follows the next period
    does not change the output.
   */
  lemma PlainTextCap(title: string, c1: string, c2: string)
    requires |PlainSentences(c1)| >= 5
    ensures PlainText(title, c1 + "." + c2) == PlainText(title, c1)
  {
    PlainSentencesJoin(c1, c2);
    var a := PlainSentences(c1);
    assert Take(a + PlainSentences(c2), 5) == Take(a, 5);
  }
}
