/** `split_into_paragraphs`: one page of extracted text becomes a sequence of
    passages, each with its paragraph number, its trimmed text, its embedding
    and, for long passages that open with a chapter or section number, a
    heading flag. */
module Segmenter {
  import opened Wrappers
  import opened Text

  /** An embedding vector as produced by the sentence encoder. */
  type Vector = seq<real>

  /** One passage dictionary. `isSectionHeading` false stands for the key
      being absent: the source only ever writes the value `True`. */
  datatype Passage = Passage(paragraphNumber: nat, text: string, embedding: Vector, isSectionHeading: bool)

  /** Trimmed paragraphs shorter than this take the re-split branch. */
  const ShortThreshold: nat := 50

  /** The blank-line paragraph separator. */
  const ParagraphBreak: string := "\n\n"

  // ---------------------------------------------------------------------------
  // The heading pattern

  predicate IsDigit(c: char) {
    '0' <= c <= '9'
  }

  /** The heading pattern in plain words: the text opens with `Chapter ` or
      `Section ` (one literal space) followed by at least one digit. */
  predicate HasHeadingPrefix(t: string) {
    |t| >= 9 && (t[..8] == "Chapter " || t[..8] == "Section ") && IsDigit(t[8])
  }

  /** Length of the run of digits that `s` starts with. */
  function DigitRun(s: string): (n: nat)
    ensures n <= |s|
    ensures forall k :: 0 <= k < n ==> IsDigit(s[k])
    ensures n == |s| || !IsDigit(s[n])
  {
    if |s| > 0 && IsDigit(s[0]) then 1 + DigitRun(s[1..]) else 0
  }

  /** `re.match(r'(Chapter|Section) \d+', t)`: the end of the match anchored
      at the start of `t`, or None when it does not match. */
  function MatchHeading(t: string): (m: Option<nat>)
    ensures m.Some? <==> HasHeadingPrefix(t)
    ensures m.Some? ==> 9 <= m.value <= |t| && forall k :: 8 <= k < m.value ==> IsDigit(t[k])
    ensures m.Some? ==> m.value == |t| || !IsDigit(t[m.value])
  {
    var word := |t| >= 7 && (t[..7] == "Chapter" || t[..7] == "Section");
    HeadingPrefixParts(t);
    if word && |t| > 7 && t[7] == ' ' then
      var d := DigitRun(t[8..]);
      assert d >= 1 <==> |t| > 8 && IsDigit(t[8]) by {
        if |t| > 8 { assert t[8..][0] == t[8]; }
      }
      assert HasHeadingPrefix(t) <==> d >= 1 by {
        if |t| >= 9 {
          assert t[..8] == t[..7] + [t[7]];
        }
      }
      if d >= 1 then Some(8 + d) else None
    else
      None
  }

  /** The heading prefix is the word, then one space, then a digit. */
  lemma HeadingPrefixParts(t: string)
    ensures HasHeadingPrefix(t) ==>
              |t| >= 9 && (t[..7] == "Chapter" || t[..7] == "Section") && t[7] == ' ' && IsDigit(t[8])
  {
    if HasHeadingPrefix(t) {
      assert t[..7] == t[..8][..7];
      assert t[7] == t[..8][7];
    }
  }

  // ---------------------------------------------------------------------------
  // The segmenter as written

  /** What every emitted passage satisfies: non-empty, stripped text, the
      embedding of that text, and the heading flag exactly on long passages
      that match the heading pattern. */
  ghost predicate WellFormed(p: Passage, embed: string -> Vector) {
    && p.text != ""
    && IsStripped(p.text)
    && p.embedding == embed(p.text)
    && (p.isSectionHeading <==> |p.text| >= ShortThreshold && HasHeadingPrefix(p.text))
  }

  /** Length of the longest string in `pieces`, 0 when there is none. */
  function LongestLength(pieces: seq<string>): (n: nat)
    ensures forall k :: 0 <= k < |pieces| ==> |pieces[k]| <= n
  {
    if |pieces| == 0 then 0
    else
      var rest := LongestLength(pieces[1..]);
      if |pieces[0]| > rest then |pieces[0]| else rest
  }

  lemma {:induction false} LongestLengthBound(pieces: seq<string>, bound: nat)
    requires forall k :: 0 <= k < |pieces| ==> |pieces[k]| <= bound
    ensures LongestLength(pieces) <= bound
    decreases |pieces|
  {
    if |pieces| > 0 {
      LongestLengthBound(pieces[1..], bound);
    }
  }

  /** The stripped pieces that are not empty, in their original order. */
  function KeptTexts(pieces: seq<string>): (texts: seq<string>)
    ensures |texts| <= |pieces|
    ensures forall k :: 0 <= k < |texts| ==> texts[k] != "" && IsStripped(texts[k])
  {
    if |pieces| == 0 then []
    else
      var t := Strip(pieces[0]);
      (if t != "" then [t] else []) + KeptTexts(pieces[1..])
  }

  /** A text is kept exactly when it is the non-empty strip of some piece. */
  lemma {:induction false} KeptTextsMember(pieces: seq<string>, t: string)
    ensures t in KeptTexts(pieces) <==> t != "" && exists j :: 0 <= j < |pieces| && Strip(pieces[j]) == t
    decreases |pieces|
  {
    if |pieces| > 0 {
      KeptTextsMember(pieces[1..], t);
      var head := Strip(pieces[0]);
      assert KeptTexts(pieces) == (if head != "" then [head] else []) + KeptTexts(pieces[1..]);
      if exists j :: 0 <= j < |pieces| && Strip(pieces[j]) == t {
        var j :| 0 <= j < |pieces| && Strip(pieces[j]) == t;
        if j > 0 {
          assert Strip(pieces[1..][j - 1]) == t;
        }
      }
      if exists j :: 0 <= j < |pieces| - 1 && Strip(pieces[1..][j]) == t {
        var j :| 0 <= j < |pieces| - 1 && Strip(pieces[1..][j]) == t;
        assert Strip(pieces[j + 1]) == t;
      }
    }
  }

  /** Each text as an unflagged passage numbered `paraNum`, in order. */
  function AsPassages(texts: seq<string>, paraNum: nat, embed: string -> Vector): (r: seq<Passage>)
    ensures |r| == |texts|
    ensures forall k :: 0 <= k < |texts| ==> r[k] == Passage(paraNum, texts[k], embed(texts[k]), false)
  {
    seq(|texts|, k requires 0 <= k < |texts| => Passage(paraNum, texts[k], embed(texts[k]), false))
  }

  lemma AsPassagesAppend(x: seq<string>, y: seq<string>, paraNum: nat, embed: string -> Vector)
    ensures AsPassages(x + y, paraNum, embed) == AsPassages(x, paraNum, embed) + AsPassages(y, paraNum, embed)
  {
  }

  /** The inner loop of the short branch: every piece of the re-split is
      stripped and kept when non-empty, under the parent's number and
      without a heading flag. */
  function SubPassages(pieces: seq<string>, paraNum: nat, embed: string -> Vector): (r: seq<Passage>)
    ensures r == AsPassages(KeptTexts(pieces), paraNum, embed)
  {
    if |pieces| == 0 then []
    else
      var t := Strip(pieces[0]);
      var head := if t != "" then [Passage(paraNum, t, embed(t), false)] else [];
      var tail := SubPassages(pieces[1..], paraNum, embed);
      var kept := if t != "" then [t] else [];
      assert KeptTexts(pieces) == kept + KeptTexts(pieces[1..]);
      assert head == AsPassages(kept, paraNum, embed);
      AsPassagesAppend(kept, KeptTexts(pieces[1..]), paraNum, embed);
      head + tail
  }

  /** A kept text is no longer than the longest piece. */
  lemma {:induction false} KeptTextsShort(pieces: seq<string>)
    ensures forall k :: 0 <= k < |KeptTexts(pieces)| ==> |KeptTexts(pieces)[k]| <= LongestLength(pieces)
    decreases |pieces|
  {
    if |pieces| > 0 {
      KeptTextsShort(pieces[1..]);
      var t := Strip(pieces[0]);
      var kept := if t != "" then [t] else [];
      assert KeptTexts(pieces) == kept + KeptTexts(pieces[1..]);
      assert |t| <= LongestLength(pieces) && LongestLength(pieces[1..]) <= LongestLength(pieces);
    }
  }

  /** Every passage of the short branch carries the parent's number and is
      well formed: it is no longer than its candidate, so never flagged. */
  lemma SubPassagesShort(pieces: seq<string>, bound: nat, paraNum: nat, embed: string -> Vector)
    requires bound < ShortThreshold
    requires forall k :: 0 <= k < |pieces| ==> |pieces[k]| <= bound
    ensures forall k :: 0 <= k < |SubPassages(pieces, paraNum, embed)| ==>
              && SubPassages(pieces, paraNum, embed)[k].paragraphNumber == paraNum
              && WellFormed(SubPassages(pieces, paraNum, embed)[k], embed)
  {
    LongestLengthBound(pieces, bound);
    KeptTextsShort(pieces);
  }

  /** A stripped text emitted whole as one passage numbered `paraNum`, or
      nothing when it is empty. */
  function WholePassage(t: string, paraNum: nat, embed: string -> Vector): seq<Passage> {
    if t == "" then []
    else [Passage(paraNum, t, embed(t), |t| >= ShortThreshold && HasHeadingPrefix(t))]
  }

  /** One iteration of the outer loop: strip the candidate, then either
      re-split it (shorter than the threshold) or emit it, flagged when it
      matches the heading pattern. A long candidate is emitted whole, and so
      is any candidate without a blank line in it. */
  function Candidate(paraText: string, paraNum: nat, embed: string -> Vector): (r: seq<Passage>)
    ensures forall k :: 0 <= k < |r| ==> r[k].paragraphNumber == paraNum && WellFormed(r[k], embed)
    ensures var t := Strip(paraText);
            |t| >= ShortThreshold ==> r == [Passage(paraNum, t, embed(t), HasHeadingPrefix(t))]
    ensures var t := Strip(paraText);
            !Contains(t, ParagraphBreak) ==> r == WholePassage(t, paraNum, embed)
  {
    var t := Strip(paraText);
    if |t| < ShortThreshold then
      ShortBranch(t, paraNum, embed)
    else if MatchHeading(t).Some? then
      [Passage(paraNum, t, embed(t), true)]
    else if t != "" then
      [Passage(paraNum, t, embed(t), false)]
    else
      []
  }

  /** The branch for a stripped candidate shorter than the threshold: split
      it again on blank lines and keep every non-empty stripped piece. */
  function ShortBranch(t: string, paraNum: nat, embed: string -> Vector): (r: seq<Passage>)
    requires IsStripped(t) && |t| < ShortThreshold
    ensures r == AsPassages(KeptTexts(Split(t, ParagraphBreak)), paraNum, embed)
    ensures forall k :: 0 <= k < |r| ==> r[k].paragraphNumber == paraNum && WellFormed(r[k], embed)
    ensures !Contains(t, ParagraphBreak) ==> r == WholePassage(t, paraNum, embed)
  {
    var pieces := Split(t, ParagraphBreak);
    var r := SubPassages(pieces, paraNum, embed);
    SubPassagesShort(pieces, |t|, paraNum, embed);
    assert forall k :: 0 <= k < |r| ==> r[k].paragraphNumber == paraNum && WellFormed(r[k], embed);
    ShortCandidateWhole(t, paraNum, embed);
    r
  }

  /** A short stripped candidate without a blank line survives the re-split
      whole. */
  lemma ShortCandidateWhole(t: string, paraNum: nat, embed: string -> Vector)
    requires IsStripped(t) && |t| < ShortThreshold
    ensures !Contains(t, ParagraphBreak) ==>
              SubPassages(Split(t, ParagraphBreak), paraNum, embed) == WholePassage(t, paraNum, embed)
  {
    if !Contains(t, ParagraphBreak) {
      SplitWithoutSeparator(t, ParagraphBreak);
      StripOfStripped(t);
      assert KeptTexts([t]) == (if t != "" then [t] else []) + KeptTexts([]);
    }
  }

  /** Passages numbered within `[lo, hi)`, each well formed. */
  ghost predicate NumberedWithin(r: seq<Passage>, lo: nat, hi: nat, embed: string -> Vector) {
    forall k :: 0 <= k < |r| ==> lo <= r[k].paragraphNumber < hi && WellFormed(r[k], embed)
  }

  /** Paragraph numbers never decrease along `r`. */
  ghost predicate InSourceOrder(r: seq<Passage>) {
    forall i, j :: 0 <= i < j < |r| ==> r[i].paragraphNumber <= r[j].paragraphNumber
  }

  lemma AppendInOrder(head: seq<Passage>, tail: seq<Passage>, first: nat, hi: nat, embed: string -> Vector)
    requires first < hi && NumberedWithin(head, first, first + 1, embed)
    requires NumberedWithin(tail, first + 1, hi, embed) && InSourceOrder(tail)
    ensures NumberedWithin(head + tail, first, hi, embed) && InSourceOrder(head + tail)
  {
    var r := head + tail;
    forall k | 0 <= k < |r| ensures first <= r[k].paragraphNumber < hi && WellFormed(r[k], embed) {
      if k < |head| { assert r[k] == head[k]; } else { assert r[k] == tail[k - |head|]; }
    }
    forall i, j | 0 <= i < j < |r| ensures r[i].paragraphNumber <= r[j].paragraphNumber {
      if j < |head| {
        assert r[i] == head[i] && r[j] == head[j];
      } else if i < |head| {
        assert r[i] == head[i] && r[j] == tail[j - |head|];
      } else {
        assert r[i] == tail[i - |head|] && r[j] == tail[j - |head|];
      }
    }
  }

  /** The outer loop over candidate paragraphs, numbered from `first`. */
  function Candidates(paragraphs: seq<string>, first: nat, embed: string -> Vector): (r: seq<Passage>)
    decreases |paragraphs|
    ensures NumberedWithin(r, first, first + |paragraphs|, embed)
    ensures InSourceOrder(r)
    ensures EachCandidateNumbered(r, paragraphs, first, embed)
  {
    if |paragraphs| == 0 then []
    else
      var head := Candidate(paragraphs[0], first, embed);
      var tail := Candidates(paragraphs[1..], first + 1, embed);
      AppendInOrder(head, tail, first, first + |paragraphs|, embed);
      CandidatesNumbers(paragraphs, first, embed, head, tail);
      head + tail
  }

  /** For each paragraph, the passages of `r` carrying its number are
      exactly that paragraph's candidate passages. */
  ghost predicate EachCandidateNumbered(r: seq<Passage>, paragraphs: seq<string>, first: nat, embed: string -> Vector) {
    forall n :: first <= n < first + |paragraphs| ==> WithNumber(r, n) == Candidate(paragraphs[n - first], n, embed)
  }

  /** The passages numbered `n`, in their order in `r`. */
  function WithNumber(r: seq<Passage>, n: nat): seq<Passage> {
    if r == [] then []
    else (if r[0].paragraphNumber == n then [r[0]] else []) + WithNumber(r[1..], n)
  }

  lemma {:induction false} WithNumberAppend(x: seq<Passage>, y: seq<Passage>, n: nat)
    ensures WithNumber(x + y, n) == WithNumber(x, n) + WithNumber(y, n)
    decreases |x|
  {
    if x == [] {
      assert x + y == y;
    } else {
      var xy, h := x + y, if x[0].paragraphNumber == n then [x[0]] else [];
      assert xy[0] == x[0] && xy[1..] == x[1..] + y;
      WithNumberAppend(x[1..], y, n);
      assert WithNumber(xy, n) == h + WithNumber(x[1..] + y, n);
      assert WithNumber(x, n) == h + WithNumber(x[1..], n);
    }
  }

  /** Picking the number every passage carries keeps them all. */
  lemma {:induction false} WithNumberAll(x: seq<Passage>, n: nat)
    requires forall k :: 0 <= k < |x| ==> x[k].paragraphNumber == n
    ensures WithNumber(x, n) == x
    decreases |x|
  {
    if x != [] {
      WithNumberAll(x[1..], n);
    }
  }

  /** Picking a number no passage carries keeps none. */
  lemma {:induction false} WithNumberNone(x: seq<Passage>, n: nat)
    requires forall k :: 0 <= k < |x| ==> x[k].paragraphNumber != n
    ensures WithNumber(x, n) == []
    decreases |x|
  {
    if x != [] {
      WithNumberNone(x[1..], n);
    }
  }

  /** In one step of the outer loop, the first candidate's passages carry
      number `first` and nothing after them does. */
  lemma CandidatesStep(head: seq<Passage>, tail: seq<Passage>, first: nat, n: nat)
    requires forall k :: 0 <= k < |head| ==> head[k].paragraphNumber == first
    requires forall k :: 0 <= k < |tail| ==> tail[k].paragraphNumber > first
    ensures WithNumber(head + tail, first) == head
    ensures n != first ==> WithNumber(head + tail, n) == WithNumber(tail, n)
  {
    WithNumberAppend(head, tail, first);
    WithNumberAll(head, first);
    WithNumberNone(tail, first);
    WithNumberAppend(head, tail, n);
    if n != first {
      WithNumberNone(head, n);
    }
  }

  /** The second split of a short paragraph never cuts it: every piece of
      the first split is free of the separator, and stripping keeps a slice
      of the piece, so the second split returns the stripped piece whole. */
  lemma ResplitNeverCuts(s: string, k: nat)
    requires k < |Split(s, ParagraphBreak)|
    ensures Split(Strip(Split(s, ParagraphBreak)[k]), ParagraphBreak) == [Strip(Split(s, ParagraphBreak)[k])]
  {
    var piece := Split(s, ParagraphBreak)[k];
    var i, j := StripIsSlice(piece);
    ContainsInSlice(piece, ParagraphBreak, i, j);
    SplitWithoutSeparator(Strip(piece), ParagraphBreak);
  }

  /** The passages of each candidate are the ones carrying its number, once
      the first candidate's passages are put in front of the rest. */
  lemma CandidatesNumbers(paragraphs: seq<string>, first: nat, embed: string -> Vector,
                          head: seq<Passage>, tail: seq<Passage>)
    requires |paragraphs| > 0 && head == Candidate(paragraphs[0], first, embed)
    requires forall k :: 0 <= k < |tail| ==> tail[k].paragraphNumber > first
    requires EachCandidateNumbered(tail, paragraphs[1..], first + 1, embed)
    ensures EachCandidateNumbered(head + tail, paragraphs, first, embed)
  {
    forall n | first <= n < first + |paragraphs|
      ensures WithNumber(head + tail, n) == Candidate(paragraphs[n - first], n, embed)
    {
      CandidatesStep(head, tail, first, n);
      if n > first {
        // Mentions the tail's index term so the tail's quantifier fires.
        ghost var later := paragraphs[1..][n - (first + 1)];
      }
    }
  }

  /** The loop over one candidate is that candidate's iteration. */
  lemma CandidatesSingle(p: string, n: nat, embed: string -> Vector)
    ensures Candidates([p], n, embed) == Candidate(p, n, embed)
  {
    assert Candidates([p], n, embed) == Candidate(p, n, embed) + Candidates([], n + 1, embed);
  }

  // ---------------------------------------------------------------------------
  // What the segmenter actually does

  /** The whole effect of the segmenter on a page whose collapsed, stripped
      text is `t`: nothing when `t` is empty, otherwise the single passage
      `t`, numbered 1. */
  function PagePassage(t: string, embed: string -> Vector): seq<Passage> {
    WholePassage(t, 1, embed)
  }

  /** Once newline runs are collapsed no `"\n\n"` is left, so both splits
      return their input whole and the candidate loop runs once, on the
      collapsed page numbered 1, emitting its stripped text whichever branch
      takes it. */
  lemma CandidatesCollapse(text: string, embed: string -> Vector)
    ensures Candidates(Split(CollapseNewlines(text), ParagraphBreak), 1, embed)
            == PagePassage(Strip(CollapseNewlines(text)), embed)
  {
    var c := CollapseNewlines(text);
    NoBlankLineNoParagraphBreak(c);
    SplitWithoutSeparator(c, ParagraphBreak);
    var t := Strip(c);
    var i, j := StripIsSlice(c);
    NoBlankLineSlice(c, i, j);
    NoBlankLineNoParagraphBreak(t);
    CandidatesSingle(c, 1, embed);
  }

  /** `split_into_paragraphs(text)`: collapse newline runs, split on blank
      lines and segment every candidate in order. As written, this yields
      nothing for a blank page and otherwise one passage numbered 1 holding
      the whole stripped, collapsed page. */
  function SplitIntoParagraphs(text: string, embed: string -> Vector): (r: seq<Passage>)
    ensures r == PagePassage(Strip(CollapseNewlines(text)), embed)
    ensures forall k :: 0 <= k < |r| ==> r[k].paragraphNumber >= 1 && WellFormed(r[k], embed)
    ensures InSourceOrder(r)
  {
    CandidatesCollapse(text, embed);
    Candidates(Split(CollapseNewlines(text), ParagraphBreak), 1, embed)
  }

  /** Every passage of a page carries paragraph number 1 and a page yields
      at most one passage. */
  lemma AtMostOnePassagePerPage(text: string, embed: string -> Vector)
    ensures |SplitIntoParagraphs(text, embed)| <= 1
    ensures forall p :: p in SplitIntoParagraphs(text, embed) ==> p.paragraphNumber == 1
  {
    var r := SplitIntoParagraphs(text, embed);
    assert r == PagePassage(Strip(CollapseNewlines(text)), embed);
  }

  /** A page with no visible character yields no passage. */
  lemma {:induction false} BlankPageYieldsNothing(text: string, embed: string -> Vector)
    requires AllSpace(text)
    ensures SplitIntoParagraphs(text, embed) == []
  {
    var c := CollapseNewlines(text);
    assert AllSpace(c) by {
      forall k | 0 <= k < |c| ensures IsSpace(c[k]) {
        assert c[k] in c;
        var m :| 0 <= m < |text| && text[m] == c[k];
      }
    }
  }

  /** A page whose stripped text is non-empty yields exactly one passage. */
  lemma VisiblePageYieldsOne(text: string, embed: string -> Vector)
    requires Strip(CollapseNewlines(text)) != ""
    ensures |SplitIntoParagraphs(text, embed)| == 1
    ensures SplitIntoParagraphs(text, embed)[0].text == Strip(CollapseNewlines(text))
  {
  }

  // ---------------------------------------------------------------------------
  // Collapsing over concatenation

  /** Collapsing distributes over a concatenation whose left part does not
      end inside a newline run. */
  lemma {:induction false} CollapseAppend(a: string, b: string)
    requires |a| > 0 && a[|a| - 1] != '\n'
    ensures CollapseNewlines(a + b) == CollapseNewlines(a) + CollapseNewlines(b)
    decreases |a|, 1
  {
    if a[0] == '\n' {
      CollapseAppendRun(a, b);
    } else {
      CollapseAppendChar(a, b);
    }
  }

  /** `CollapseAppend` when `a` opens with a run of newlines: the run ends
      inside `a`, so `b` does not lengthen it. */
  lemma {:induction false} CollapseAppendRun(a: string, b: string)
    requires |a| > 0 && a[|a| - 1] != '\n' && a[0] == '\n'
    ensures CollapseNewlines(a + b) == CollapseNewlines(a) + CollapseNewlines(b)
    decreases |a|, 0
  {
    var s, n := a + b, NewlineRun(a);
    assert s[0] == a[0] && n < |a|;
    NewlineRunPrefix(a, b);
    DropFromConcat(a, b, n);
    CollapseAppend(a[n..], b);
    assert CollapseNewlines(s) == "\n" + CollapseNewlines(s[n..]);
    assert CollapseNewlines(a) == "\n" + CollapseNewlines(a[n..]);
    ConcatAssoc("\n", CollapseNewlines(a[n..]), CollapseNewlines(b));
  }

  /** `CollapseAppend` when `a` opens with any other character. */
  lemma {:induction false} CollapseAppendChar(a: string, b: string)
    requires |a| > 0 && a[|a| - 1] != '\n' && a[0] != '\n'
    ensures CollapseNewlines(a + b) == CollapseNewlines(a) + CollapseNewlines(b)
    decreases |a|, 0
  {
    var s := a + b;
    assert s[0] == a[0];
    DropFromConcat(a, b, 1);
    if |a| == 1 {
      assert a[1..] == [];
    } else {
      CollapseAppend(a[1..], b);
      ConcatAssoc([a[0]], CollapseNewlines(a[1..]), CollapseNewlines(b));
    }
  }

  /** A newline run that ends inside `a` is not lengthened by appending
      `b`. */
  lemma {:induction false} NewlineRunPrefix(a: string, b: string)
    requires |a| > 0 && a[|a| - 1] != '\n'
    ensures NewlineRun(a + b) == NewlineRun(a)
    decreases |a|
  {
    if a[0] == '\n' {
      assert (a + b)[1..] == a[1..] + b;
      NewlineRunPrefix(a[1..], b);
    }
  }

  /** Collapsing turns the blank line between two lines into a single
      newline and leaves the lines themselves alone. */
  lemma CollapseBlankLine(a: string, b: string)
    requires |a| > 0 && a[|a| - 1] != '\n' && NoBlankLine(a)
    requires (|b| == 0 || b[0] != '\n') && NoBlankLine(b)
    ensures CollapseNewlines(a + "\n\n" + b) == a + "\n" + b
  {
    ConcatAssoc(a, "\n\n", b);
    CollapseAppend(a, "\n\n" + b);
    CollapseNoBlankLine(a);
    CollapseGap(b);
    ConcatAssoc(a, "\n", b);
  }

  /** Dropping a prefix of the first part of a concatenation drops it from the whole. */
  lemma DropFromConcat(a: string, b: string, n: nat)
    requires n <= |a|
    ensures (a + b)[n..] == a[n..] + b
  {
  }

  /** Concatenating three strings does not depend on grouping. */
  lemma ConcatAssoc(x: string, y: string, z: string)
    ensures x + y + z == x + (y + z)
  {
  }

  /** A blank line opening a text without blank lines collapses to a
      single newline, and the rest of the text is kept. */
  lemma CollapseGap(b: string)
    requires (|b| == 0 || b[0] != '\n') && NoBlankLine(b)
    ensures CollapseNewlines("\n\n" + b) == "\n" + b
  {
    var gap := "\n\n" + b;
    assert gap[1..] == "\n" + b;
    assert gap[2..] == b;
    assert NewlineRun(gap[2..]) == 0;
    assert NewlineRun(gap[1..]) == 1;
    assert NewlineRun(gap) == 2;
    CollapseNoBlankLine(b);
  }

  /** A blank line between two lines never separates passages: the page
      `a + "\n\n" + b` segments exactly as the single-newline page
      `a + "\n" + b`, so both lines land in one passage. */
  lemma BlankLineDoesNotSeparate(a: string, b: string, embed: string -> Vector)
    requires |a| > 0 && a[|a| - 1] != '\n' && NoBlankLine(a)
    requires (|b| == 0 || b[0] != '\n') && NoBlankLine(b)
    ensures SplitIntoParagraphs(a + "\n\n" + b, embed) == PagePassage(Strip(a + "\n" + b), embed)
  {
    CollapseBlankLine(a, b);
  }

  // ---------------------------------------------------------------------------
  // A worked example

  /** A page of a heading line, a long line `body`, a blank line and a
      short line. The blank line is collapsed before the split, so the page
      yields ONE heading-flagged passage holding the three lines joined by
      single newlines, not a heading passage followed by a separate short
      passage numbered 2. */
  lemma HeadingScenario(body: string, embed: string -> Vector)
    requires '\n' !in body && |body| >= 41
    ensures
      var text := "Chapter 1\n" + body + "\n\nShort.";
      var joined := "Chapter 1\n" + body + "\nShort.";
      SplitIntoParagraphs(text, embed) == [Passage(1, joined, embed(joined), true)]
  {
    var first := "Chapter 1\n" + body;
    var joined := first + "\nShort.";
    HeadingLineHasNoBlankLine(body);
    BlankLineDoesNotSeparate(first, "Short.", embed);
    HeadingScenarioText(body);
    assert PagePassage(Strip(joined), embed) == [Passage(1, joined, embed(joined), true)] by {
      JoinedIsHeading(body);
    }
  }

  lemma HeadingLineHasNoBlankLine(body: string)
    requires '\n' !in body && |body| > 0
    ensures var first := "Chapter 1\n" + body; NoBlankLine(first) && first[|first| - 1] != '\n'
  {
    var first := "Chapter 1\n" + body;
    forall k | 0 <= k < |first| - 1 ensures !(first[k] == '\n' && first[k + 1] == '\n') {
      if k >= 10 {
        assert first[k + 1] == body[k - 9];
      }
    }
    assert first[|first| - 1] == body[|body| - 1];
  }

  lemma HeadingScenarioText(body: string)
    ensures "Chapter 1\n" + body + "\n\nShort." == ("Chapter 1\n" + body) + "\n\n" + "Short."
    ensures "Chapter 1\n" + body + "\nShort." == ("Chapter 1\n" + body) + "\n" + "Short."
  {
  }

  lemma JoinedIsHeading(body: string)
    requires |body| >= 41
    ensures var joined := "Chapter 1\n" + body + "\nShort."; IsStripped(joined) && Strip(joined) == joined
    ensures var joined := "Chapter 1\n" + body + "\nShort."; |joined| >= ShortThreshold && HasHeadingPrefix(joined)
  {
    var joined := "Chapter 1\n" + body + "\nShort.";
    assert joined[0] == 'C' && joined[|joined| - 1] == '.';
    StripOfStripped(joined);
    assert joined[..8] == "Chapter ";
  }
}
