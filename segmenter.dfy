/**
  Sentence segmentation of a note's content (Backend/app.py): the content is
  split on every `.`, and the fragments that are not blank are cleaned. The
  two generators clean differently:
  - the MCQ path (line 200) keeps a fragment when `s.strip()` is non-empty and
    yields `s.strip().lstrip('-').strip()`, which drops EVERY leading `-` and
    can be empty (a fragment such as " - ");
  - the plain path (line 167) yields `s.strip()` and leaves the single leading
    `-` to the formatter (lines 172-174).
 */
module Segmenter {
  import opened PyStr

  /** A Python `str.strip()` result: no whitespace at either end. */
  predicate Stripped(s: string) {
    s == [] || (s[0] !in Whitespace && s[|s| - 1] !in Whitespace)
  }

  predicate AllStripped(ss: seq<string>) {
    forall i :: 0 <= i < |ss| ==> Stripped(ss[i])
  }

  /** Whether the comprehensions keep a fragment: `if s.strip()`. */
  predicate NonBlank(f: string) {
    Trim(f, Whitespace) != []
  }

  /**
    A list comprehension over fragments: each fragment contributes what
    `keep` makes of it (nothing, or its cleaned text), in order.
   */
  function Comprehension(frags: seq<string>, keep: string -> seq<string>): seq<string> {
    if frags == [] then [] else keep(frags[0]) + Comprehension(frags[1..], keep)
  }

  /** A comprehension over two runs of fragments is the two comprehensions, one after the other. */
  lemma {:induction false} ComprehensionAppend(a: seq<string>, b: seq<string>, keep: string -> seq<string>)
    ensures Comprehension(a + b, keep) == Comprehension(a, keep) + Comprehension(b, keep)
  {
    if a == [] {
      assert a + b == b;
    } else {
      assert (a + b)[0] == a[0] && (a + b)[1..] == a[1..] + b;
      ComprehensionAppend(a[1..], b, keep);
    }
  }

  // ---------------------------------------------------------------- MCQ path

  /** `s.strip().lstrip('-').strip()`. */
  function McqClean(f: string): (r: string)
    ensures Stripped(r)
  {
    Trim(TrimLeft(Trim(f, Whitespace), {'-'}), Whitespace)
  }

  lemma McqCleanNoPeriod(f: string)
    requires '.' !in f
    ensures '.' !in McqClean(f)
  {
    var t := Trim(f, Whitespace);
    TrimAbsent(f, Whitespace, '.');
    TrimAbsent(t, {'-'}, '.');
    TrimAbsent(TrimLeft(t, {'-'}), Whitespace, '.');
  }

  /** What line 200 keeps of one fragment: nothing if blank, otherwise its cleaned text. */
  function McqKept(f: string): seq<string> {
    if NonBlank(f) then [McqClean(f)] else []
  }

  /** The comprehension of line 200 over a list of fragments. */
  function McqSentencesOf(frags: seq<string>): seq<string> {
    Comprehension(frags, McqKept)
  }

  lemma {:induction false} McqSentencesStripped(frags: seq<string>)
    ensures AllStripped(McqSentencesOf(frags))
  {
    if frags != [] {
      McqSentencesStripped(frags[1..]);
      assert AllStripped(McqKept(frags[0]));
      AllStrippedAppend(McqKept(frags[0]), McqSentencesOf(frags[1..]));
    }
  }

  lemma AllStrippedAppend(a: seq<string>, b: seq<string>)
    requires AllStripped(a) && AllStripped(b)
    ensures AllStripped(a + b)
  {
  }

  /** The sentences the MCQ generator works on (line 200). */
  function McqSentences(content: string): (r: seq<string>)
    ensures AllStripped(r) && NoPeriods(r)
  {
    var frags := Split(content, '.');
    McqSentencesNoPeriod(frags);
    McqSentencesStripped(frags);
    McqSentencesOf(frags)
  }

  predicate NoPeriods(ss: seq<string>) {
    forall i :: 0 <= i < |ss| ==> '.' !in ss[i]
  }

  lemma NoPeriodsAppend(a: seq<string>, b: seq<string>)
    requires NoPeriods(a) && NoPeriods(b)
    ensures NoPeriods(a + b)
  {
  }

  lemma {:induction false} McqSentencesNoPeriod(frags: seq<string>)
    requires NoPeriods(frags)
    ensures NoPeriods(McqSentencesOf(frags))
  {
    if frags != [] {
      McqSentencesNoPeriod(frags[1..]);
      var head := McqKept(frags[0]);
      McqCleanNoPeriod(frags[0]);
      assert NoPeriods(head);
      NoPeriodsAppend(head, McqSentencesOf(frags[1..]));
    }
  }

  /**
    Segmentation is compositional: the sentences of two texts joined by a
    period are the sentences of the first followed by those of the second,
    in order.
   */
  lemma McqSentencesJoin(c1: string, c2: string)
    ensures McqSentences(c1 + "." + c2) == McqSentences(c1) + McqSentences(c2)
  {
    SplitAppend(c1, c2, '.');
    ComprehensionAppend(Split(c1, '.'), Split(c2, '.'), McqKept);
  }

  /** A text without a period is a single fragment: blank gives nothing, otherwise one cleaned sentence. */
  lemma McqSentencesOneFragment(c: string)
    requires '.' !in c
    ensures McqSentences(c) == if NonBlank(c) then [McqClean(c)] else []
  {
    SplitNoSep(c, '.');
    assert [c][0] == c && [c][1..] == [];
    assert McqSentencesOf([c]) == McqKept(c) + McqSentencesOf([]);
  }

  /**
    A kept fragment cleans to the empty string exactly when, once stripped, it
    is made of dashes only: the filter on line 200 runs before `lstrip('-')`.
   */
  lemma McqCleanEmpty(f: string)
    requires NonBlank(f)
    ensures McqClean(f) == [] <==> forall k :: 0 <= k < |Trim(f, Whitespace)| ==> Trim(f, Whitespace)[k] == '-'
  {
    var t := Trim(f, Whitespace);
    var u := TrimLeft(t, {'-'});
    if u != [] {
      assert u[|u| - 1] == t[|t| - 1];
      assert u[0] == t[|t| - |u|];
    }
  }

  // ---------------------------------------------------------------- plain path

  /** What line 167 keeps of one fragment: nothing if blank, otherwise its stripped text. */
  function PlainKept(f: string): seq<string> {
    if NonBlank(f) then [Trim(f, Whitespace)] else []
  }

  /** The comprehension of line 167 over a list of fragments. */
  function PlainSentencesOf(frags: seq<string>): seq<string> {
    Comprehension(frags, PlainKept)
  }

  lemma {:induction false} PlainSentencesStripped(frags: seq<string>)
    ensures AllSentences(PlainSentencesOf(frags))
  {
    if frags != [] {
      PlainSentencesStripped(frags[1..]);
      assert AllSentences(PlainKept(frags[0]));
      AllSentencesAppend(PlainKept(frags[0]), PlainSentencesOf(frags[1..]));
    }
  }

  /** Every element is non-empty and stripped. */
  predicate AllSentences(ss: seq<string>) {
    forall i :: 0 <= i < |ss| ==> ss[i] != [] && Stripped(ss[i])
  }

  lemma AllSentencesAppend(a: seq<string>, b: seq<string>)
    requires AllSentences(a) && AllSentences(b)
    ensures AllSentences(a + b)
  {
  }

  /** The sentences the plain generator works on (line 167). */
  function PlainSentences(content: string): (r: seq<string>)
    ensures AllSentences(r)
  {
    PlainSentencesStripped(Split(content, '.'));
    PlainSentencesOf(Split(content, '.'))
  }

  /** The plain sentences of two texts joined by a period: those of the first, then those of the second. */
  lemma PlainSentencesJoin(c1: string, c2: string)
    ensures PlainSentences(c1 + "." + c2) == PlainSentences(c1) + PlainSentences(c2)
  {
    SplitAppend(c1, c2, '.');
    ComprehensionAppend(Split(c1, '.'), Split(c2, '.'), PlainKept);
  }

  /** A text without a period: nothing if blank, otherwise the stripped text. */
  lemma PlainSentencesOneFragment(c: string)
    requires '.' !in c
    ensures PlainSentences(c) == if NonBlank(c) then [Trim(c, Whitespace)] else []
  {
    SplitNoSep(c, '.');
    assert [c][0] == c && [c][1..] == [];
    assert PlainSentencesOf([c]) == PlainKept(c) + PlainSentencesOf([]);
  }

  /**
    Lines 172-174: `s.strip()`, then, if it starts with `-`, that ONE dash
    removed and the rest stripped again. The result may still start with `-`
    and may be empty.
   */
  function PlainClean(s: string): (r: string)
    ensures Stripped(r)
  {
    var questionText := Trim(s, Whitespace);
    if StartsWith(questionText, '-') then Trim(questionText[1..], Whitespace) else questionText
  }

  /**
    What the question text keeps: a stripped sentence that does not start
    with `-` is its own question text; one that does loses at least its dash;
    and stripping the sentence first changes nothing.
   */
  lemma PlainCleanSpec(s: string)
    ensures Stripped(s) && !StartsWith(s, '-') ==> PlainClean(s) == s
    ensures StartsWith(Trim(s, Whitespace), '-') ==> |PlainClean(s)| < |Trim(s, Whitespace)|
    ensures PlainClean(Trim(s, Whitespace)) == PlainClean(s)
  {
    TrimIdempotent(s, Whitespace);
    if Stripped(s) {
      StrippedTrim(s);
    }
  }

  /** Stripping a stripped string changes nothing. */
  lemma StrippedTrim(s: string)
    requires Stripped(s)
    ensures Trim(s, Whitespace) == s
  {
    if s != [] {
      assert TrimLeft(s, Whitespace) == s;
      assert TrimRight(s, Whitespace) == s;
    }
  }
}
