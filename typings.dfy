/** The word-progress state machine of the typing test: twenty target words,
    each with a highlight colour, the text typed so far, and the index of the
    word being typed. Submitting (the space key) grades the current word and
    moves on; resetting (the tab key) starts over. */
module Typings {
  import opened Format

  /** The colour a word is drawn in. */
  datatype Highlight = Correct | Wrong | None | Next

  /** One target word and its colour. */
  datatype Word = Word(value: string, highlight: Highlight)

  /** The number of words in a test. */
  const WordCount: nat := 20

  /** The text of word `i`: "title" followed by `i` in decimal. */
  function Title(i: nat): string {
    "title" + Decimal(i)
  }

  /** The text of word `i` reads back as "title" and the index `i`. */
  lemma {:induction false} TitleParts(i: nat)
    ensures |Title(i)| > 5 && Title(i)[..5] == "title"
    ensures Canonical(Title(i)[5..]) && ValueOf(Title(i)[5..]) == i
  {
    assert Title(i)[5..] == Decimal(i);
    ValueOfDecimal(i);
  }

  /** Different positions get different texts, so a typed word matches at
      most one target. */
  lemma {:induction false} TitleInjective(i: nat, j: nat)
    ensures Title(i) == Title(j) <==> i == j
  {
    if Title(i) == Title(j) {
      assert Title(i)[5..] == Decimal(i);
      assert Title(j)[5..] == Decimal(j);
      DecimalInjective(i, j);
    }
  }

  /** The word list both construction and reset build: twenty titles, all
      uncoloured. */
  function FreshWords(): (ws: seq<Word>)
    ensures |ws| == WordCount
    ensures forall i :: 0 <= i < |ws| ==> ws[i].value == Title(i) && ws[i].highlight == None
  {
    seq(WordCount, i requires 0 <= i < WordCount => Word(Title(i), None))
  }

  /** No two fresh words have the same text. */
  lemma FreshWordsDistinct()
    ensures forall i, j :: 0 <= i < j < |FreshWords()| ==> FreshWords()[i].value != FreshWords()[j].value
  {
    forall i, j | 0 <= i < j < |FreshWords()|
      ensures FreshWords()[i].value != FreshWords()[j].value
    {
      TitleInjective(i, j);
    }
  }

  /** The state of the test as a value: the words, the input buffer and the
      cursor. Characters of the buffer are single bytes. */
  datatype Snapshot = Snapshot(words: seq<Word>, value: string, curIndex: nat)

  /** The state right after the application starts. */
  function Initial(): (s: Snapshot)
    ensures |s.words| == WordCount
    ensures forall i :: 0 <= i < |s.words| ==> s.words[i].value == Title(i)
    ensures s.words[0].highlight == Next
    ensures forall i :: 0 < i < |s.words| ==> s.words[i].highlight == None
    ensures s.curIndex == 0 && s.value == []
  {
    var ws := FreshWords();
    Snapshot(ws[0 := ws[0].(highlight := Next)], "", 0)
  }

  /** The state after the tab key, whatever the state before. Word 0 is left
      uncoloured, unlike at start-up. */
  function AfterReset(s: Snapshot): (r: Snapshot)
    ensures |r.words| == WordCount
    ensures forall i :: 0 <= i < |r.words| ==> r.words[i].value == Title(i) && r.words[i].highlight == None
    ensures r.curIndex == 0 && r.value == []
  {
    Snapshot(FreshWords(), "", 0)
  }

  /** The word a submitted buffer stands for: the buffer without the space
      that ends it. */
  function Entered(value: string): (w: string)
    requires |value| > 0
    ensures |w| + 1 == |value| && value == w + [value[|value| - 1]]
  {
    value[..|value| - 1]
  }

  /** The colour a graded word gets. */
  function Verdict(entered: string, target: string): (h: Highlight)
    ensures h == Correct <==> entered == target
    ensures h == Correct || h == Wrong
  {
    if entered == target then Correct else Wrong
  }

  /** What a submit demands of the state it runs on: a non-empty word list,
      and a buffer with a character to drop when a word is still to grade. */
  predicate SubmitReady(s: Snapshot) {
    |s.words| > 0 && (s.curIndex < |s.words| ==> |s.value| > 0)
  }

  /** The state after the space key. */
  function AfterSubmit(s: Snapshot): (r: Snapshot)
    requires SubmitReady(s)
    ensures |r.words| == |s.words| && r.value == []
    ensures forall i :: 0 <= i < |s.words| ==> r.words[i].value == s.words[i].value
    // past the last word, only the buffer is cleared
    ensures s.curIndex >= |s.words| ==> r.words == s.words && r.curIndex == s.curIndex
    // otherwise the current word is graded and the cursor moves to the next one
    ensures s.curIndex < |s.words| ==>
      && r.curIndex == s.curIndex + 1
      && (r.words[s.curIndex].highlight == Correct <==> Entered(s.value) == s.words[s.curIndex].value)
      && (r.words[s.curIndex].highlight == Wrong <==> Entered(s.value) != s.words[s.curIndex].value)
      && (r.curIndex < |r.words| ==> r.words[r.curIndex].highlight == Next)
      && (forall i :: 0 <= i < |s.words| && i != s.curIndex && i != r.curIndex ==> r.words[i] == s.words[i])
  {
    if s.curIndex > |s.words| - 1 then
      s.(value := "")
    else
      var cur := s.curIndex;
      var graded := s.words[cur := s.words[cur].(highlight := Verdict(Entered(s.value), s.words[cur].value))];
      var next := cur + 1;
      var marked := if next < |graded| then graded[next := graded[next].(highlight := Next)] else graded;
      Snapshot(marked, "", next)
  }

  /** What one frame of input handling does: the tab key resets and wins over
      everything else; otherwise a space that changed the buffer submits. */
  function AfterFrame(s: Snapshot, tabPressed: bool, spaceSubmitted: bool): (r: Snapshot)
    requires !tabPressed && spaceSubmitted ==> SubmitReady(s)
    ensures tabPressed ==> r == AfterReset(s)
    ensures !tabPressed && spaceSubmitted ==> r == AfterSubmit(s)
    ensures !tabPressed && !spaceSubmitted ==> r == s
  {
    if tabPressed then AfterReset(s)
    else if spaceSubmitted then AfterSubmit(s)
    else s
  }

  lemma ResetWins(s: Snapshot, spaceSubmitted: bool)
    ensures AfterFrame(s, true, spaceSubmitted) == AfterReset(s)
  {
  }

  /** The invariant every reachable state keeps, given `typed`, the words
      entered for the graded positions since the last start or reset: twenty
      words with their titles; every word before the cursor graded against
      what was entered for it; every word after the cursor uncoloured; the
      word at the cursor uncoloured or marked next, and marked next once a
      word has been graded. */
  ghost predicate Progress(s: Snapshot, typed: seq<string>) {
    && |s.words| == WordCount
    && (forall i :: 0 <= i < |s.words| ==> s.words[i].value == Title(i))
    && s.curIndex == |typed| <= |s.words|
    && (forall i :: 0 <= i < s.curIndex ==> s.words[i].highlight == Verdict(typed[i], s.words[i].value))
    && (forall i :: s.curIndex < i < |s.words| ==> s.words[i].highlight == None)
    && (s.curIndex < |s.words| ==> s.words[s.curIndex].highlight == None || s.words[s.curIndex].highlight == Next)
    && (0 < s.curIndex < |s.words| ==> s.words[s.curIndex].highlight == Next)
  }

  lemma InitialProgress()
    ensures Progress(Initial(), [])
  {
  }

  lemma ResetProgress(s: Snapshot)
    ensures Progress(AfterReset(s), [])
  {
  }

  /** A submit keeps the invariant; a graded word's entry joins `typed`. */
  lemma SubmitProgress(s: Snapshot, typed: seq<string>)
    requires Progress(s, typed) && SubmitReady(s)
    ensures Progress(AfterSubmit(s), if s.curIndex < |s.words| then typed + [Entered(s.value)] else typed)
  {
  }

  /** A frame of key handling keeps the invariant: a reset empties the
      entries, a submit that grades a word records its entry. */
  lemma FrameProgress(s: Snapshot, typed: seq<string>, tabPressed: bool, spaceSubmitted: bool)
    requires Progress(s, typed)
    requires !tabPressed && spaceSubmitted ==> SubmitReady(s)
    ensures Progress(AfterFrame(s, tabPressed, spaceSubmitted),
      if tabPressed then []
      else if spaceSubmitted && s.curIndex < |s.words| then typed + [Entered(s.value)]
      else typed)
  {
    if tabPressed {
      ResetProgress(s);
    } else if spaceSubmitted {
      SubmitProgress(s, typed);
    }
  }

  /** In a reachable state no word other than the one at the cursor is marked
      next, and no word at all once every word is graded. */
  lemma AtMostOneNext(s: Snapshot, typed: seq<string>, i: int)
    requires Progress(s, typed)
    requires 0 <= i < |s.words| && s.words[i].highlight == Next
    ensures i == s.curIndex
  {
  }

  /** The state after each of `inputs` is typed into the buffer and submitted
      in turn. */
  function SubmitEach(s: Snapshot, inputs: seq<string>): (r: Snapshot)
    requires |s.words| > 0
    requires forall k :: 0 <= k < |inputs| ==> |inputs[k]| > 0
    ensures |r.words| == |s.words|
    decreases |inputs|
  {
    if inputs == [] then s
    else SubmitEach(AfterSubmit(s.(value := inputs[0])), inputs[1..])
  }

  /** The words entered by a list of submitted buffers. */
  function EnteredEach(inputs: seq<string>): (ws: seq<string>)
    requires forall k :: 0 <= k < |inputs| ==> |inputs[k]| > 0
    ensures |ws| == |inputs|
    ensures forall k :: 0 <= k < |inputs| ==> ws[k] == Entered(inputs[k])
  {
    seq(|inputs|, k requires 0 <= k < |inputs| => Entered(inputs[k]))
  }

  /** Submitting words one after another, while words remain, keeps the
      invariant and records each entry. */
  lemma {:induction false} SubmitEachProgress(s: Snapshot, typed: seq<string>, inputs: seq<string>)
    requires Progress(s, typed)
    requires forall k :: 0 <= k < |inputs| ==> |inputs[k]| > 0
    requires |typed| + |inputs| <= WordCount
    ensures Progress(SubmitEach(s, inputs), typed + EnteredEach(inputs))
    decreases |inputs|
  {
    if inputs == [] {
      assert typed + EnteredEach(inputs) == typed;
    } else {
      var u := AfterSubmit(s.(value := inputs[0]));
      var typed' := typed + [Entered(inputs[0])];
      SubmitInRange(s, typed, inputs[0]);
      SubmitEachProgress(u, typed', inputs[1..]);
      EnteredEachCons(typed, inputs);
    }
  }

  /** Typing `v` into the buffer and submitting it while words remain. */
  lemma SubmitInRange(s: Snapshot, typed: seq<string>, v: string)
    requires Progress(s, typed)
    requires |v| > 0 && |typed| < WordCount
    ensures Progress(AfterSubmit(s.(value := v)), typed + [Entered(v)])
  {
    SubmitProgress(s.(value := v), typed);
  }

  lemma EnteredEachCons(typed: seq<string>, inputs: seq<string>)
    requires forall k :: 0 <= k < |inputs| ==> |inputs[k]| > 0
    requires |inputs| > 0
    ensures typed + EnteredEach(inputs) == typed + [Entered(inputs[0])] + EnteredEach(inputs[1..])
  {
    assert EnteredEach(inputs) == [Entered(inputs[0])] + EnteredEach(inputs[1..]);
  }

  /** From start-up, after `n` submits word `i < n` is correct exactly when
      the i-th buffer, less its final space, is "title" followed by i; the
      cursor is at `n`. */
  lemma SubmitEachFromInitial(inputs: seq<string>)
    requires forall k :: 0 <= k < |inputs| ==> |inputs[k]| > 0
    requires |inputs| <= WordCount
    ensures SubmitEach(Initial(), inputs).curIndex == |inputs|
    ensures forall i :: 0 <= i < |inputs| ==>
      (SubmitEach(Initial(), inputs).words[i].highlight == Correct <==> Entered(inputs[i]) == Title(i))
  {
    InitialProgress();
    SubmitEachProgress(Initial(), [], inputs);
    assert [] + EnteredEach(inputs) == EnteredEach(inputs);
  }

  /** The typing test as the application holds it. */
  class Typings {
    var words: seq<Word>
    var value: string
    var curIndex: nat
    /** The words entered for the positions before the cursor since the last
        start or reset. */
    ghost var typed: seq<string>

    function Model(): Snapshot
      reads this
    {
      Snapshot(words, value, curIndex)
    }

    ghost predicate Valid()
      reads this
    {
      Progress(Model(), typed)
    }

    /** Start-up: twenty titles, the first marked next. */
    constructor ()
      ensures Valid() && typed == []
      ensures Model() == Initial()
    {
      var ws := FreshWords();
      ws := ws[0 := ws[0].(highlight := Next)];
      value := "";
      words := ws;
      curIndex := 0;
      typed := [];
    }

    /** The text field writing what the user typed into the buffer. */
    method SetInput(v: string)
      requires Valid()
      modifies this
      ensures Valid() && typed == old(typed)
      ensures Model() == old(Model()).(value := v)
    {
      value := v;
    }

    /** The tab key: rebuild the word list, clear the buffer, cursor to 0. */
    method Reset()
      modifies this
      ensures Valid() && typed == []
      ensures Model() == AfterReset(old(Model()))
    {
      var ws := FreshWords();
      value := "";
      words := ws;
      curIndex := 0;
      typed := [];
    }

    /** The space key: grade the current word against the buffer less its
        final character, clear the buffer, and move to the next word. */
    method Submit()
      requires Valid()
      requires curIndex < |words| ==> |value| > 0
      modifies this
      ensures Valid()
      ensures Model() == AfterSubmit(old(Model()))
      ensures typed == if old(curIndex) < |old(words)| then old(typed) + [Entered(old(value))] else old(typed)
    {
      if curIndex > |words| - 1 {
        value := "";
        return;
      }
      ghost var before := Model();
      var inp := value[..|value| - 1];
      if inp == words[curIndex].value {
        words := words[curIndex := words[curIndex].(highlight := Correct)];
      } else {
        words := words[curIndex := words[curIndex].(highlight := Wrong)];
      }
      typed := typed + [inp];

      value := "";
      curIndex := curIndex + 1;

      if curIndex < |words| {
        words := words[curIndex := words[curIndex].(highlight := Next)];
      }
      SubmitProgress(before, old(typed));
    }

    /** One frame of key handling: tab first, then a space that changed the
        buffer. */
    method RenderInput(tabPressed: bool, spaceSubmitted: bool)
      requires Valid()
      requires !tabPressed && spaceSubmitted && curIndex < |words| ==> |value| > 0
      modifies this
      ensures Valid()
      ensures Model() == AfterFrame(old(Model()), tabPressed, spaceSubmitted)
      ensures typed ==
        if tabPressed then []
        else if spaceSubmitted && old(curIndex) < |old(words)| then old(typed) + [Entered(old(value))]
        else old(typed)
    {
      if tabPressed {
        Reset();
        return;
      }
      if spaceSubmitted {
        Submit();
        return;
      }
    }
  }
}
