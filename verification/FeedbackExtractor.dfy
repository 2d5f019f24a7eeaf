/**
 * The feedback extractor: splits one model reply into the conversational
 * paragraph and three labelled lists (corrections, vocabulary, grammar
 * tips) by scanning it line by line with a section cursor.
 *
 * `Extract` is the specification, a left fold of `Step` over the lines;
 * `ExtractFeedback` is the source's loop, proved equal to it.
 */
module FeedbackExtractor {
  import opened Text

  /** The six label spellings the scan looks for. The scan and its lemmas
      take them as a parameter and hold for any non-empty spellings;
      `Extract` uses the source's own, `SourceLabels`. */
  datatype Labels = Labels(
    corrections: string, correction: string,
    vocabulary: string, vocab: string,
    grammarTip: string, grammar: string)

  const SourceLabels: Labels := Labels(
    "**Corrections:**", "**Correction:**",
    "**Vocabulary:**", "**Vocab:**",
    "**Grammar Tip:**", "**Grammar:**")

  /** `str.split` refuses an empty separator, so every label is non-empty. */
  predicate ValidLabels(labels: Labels) {
    && labels.corrections != [] && labels.correction != []
    && labels.vocabulary != [] && labels.vocab != []
    && labels.grammarTip != [] && labels.grammar != []
  }

  /** The four keys of the extractor's result; the cursor ranges over them. */
  datatype Section = Response | Corrections | Vocabulary | GrammarTips

  /** The extractor's result: `{response, corrections, vocabulary, grammar_tips}`. */
  datatype Feedback = Feedback(
    response: string,
    corrections: seq<string>,
    vocabulary: seq<string>,
    grammarTips: seq<string>)

  /** The loop's state: the cursor and the sections built so far (the
      response still carries the space written after every line). */
  datatype ScanState = ScanState(cursor: Section, sections: Feedback)

  const Start: ScanState := ScanState(Response, Feedback([], [], [], []))

  /** The list that belongs to a feedback section. */
  function Items(fb: Feedback, sec: Section): seq<string>
    requires sec != Response
  {
    match sec
    case Corrections => fb.corrections
    case Vocabulary => fb.vocabulary
    case GrammarTips => fb.grammarTips
  }

  /** `fb` with `items` appended to the list of section `sec`. */
  function AddItems(fb: Feedback, sec: Section, items: seq<string>): (r: Feedback)
    requires sec != Response
    ensures r.response == fb.response
    ensures Items(r, sec) == Items(fb, sec) + items
    ensures forall other :: other != Response && other != sec ==> Items(r, other) == Items(fb, other)
  {
    match sec
    case Corrections => fb.(corrections := fb.corrections + items)
    case Vocabulary => fb.(vocabulary := fb.vocabulary + items)
    case GrammarTips => fb.(grammarTips := fb.grammarTips + items)
  }

  /** The two spellings of a section's label, in the order the source strips them. */
  function Markers(labels: Labels, sec: Section): (string, string)
    requires sec != Response
  {
    match sec
    case Corrections => (labels.corrections, labels.correction)
    case Vocabulary => (labels.vocabulary, labels.vocab)
    case GrammarTips => (labels.grammarTip, labels.grammar)
  }

  predicate HasMarker(labels: Labels, line: string, sec: Section)
    requires sec != Response
  {
    Contains(line, Markers(labels, sec).0) || Contains(line, Markers(labels, sec).1)
  }

  /** The section a stripped line announces: corrections labels are tested
      first, then vocabulary labels, then grammar-tip labels. */
  function MarkedSection(labels: Labels, line: string): (r: Option<Section>)
    ensures r != Some(Response)
  {
    if HasMarker(labels, line, Corrections) then Some(Corrections)
    else if HasMarker(labels, line, Vocabulary) then Some(Vocabulary)
    else if HasMarker(labels, line, GrammarTips) then Some(GrammarTips)
    else None
  }

  /** A line announces a section exactly when it holds a label, the section
      announced is one whose label the line holds, and a corrections label
      outranks a vocabulary label, which outranks a grammar label. */
  lemma MarkedSectionFindsLabel(labels: Labels, line: string)
    ensures var r := MarkedSection(labels, line);
            && (r == None <==>
                  !HasMarker(labels, line, Corrections) && !HasMarker(labels, line, Vocabulary) &&
                  !HasMarker(labels, line, GrammarTips))
            && (r.Some? ==> HasMarker(labels, line, r.value))
            && (HasMarker(labels, line, Corrections) ==> r == Some(Corrections))
            && (HasMarker(labels, line, Vocabulary) ==> r != Some(GrammarTips))
  {
  }

  /** `line.split(first)[-1].split(second)[-1].strip()`: the text after
      the labels, stripped. It holds neither label, it has no surrounding
      whitespace, and everything on the line up to the end of the first
      occurrence of the label that split first is dropped. */
  function AfterLabels(line: string, first: string, second: string): (content: string)
    requires first != [] && second != []
    ensures IsStripped(content)
    ensures !Contains(content, first) && !Contains(content, second)
    ensures Contains(line, first) ==>
              |content| <= |line| - (Find(line, first) + |first|)
    ensures !Contains(line, first) && Contains(line, second) ==>
              |content| <= |line| - (Find(line, second) + |second|)
  {
    var afterFirst := LastPiece(line, first);
    var afterSecond := LastPiece(afterFirst, second);
    StripKeepsAbsence(afterSecond, first);
    StripKeepsAbsence(afterSecond, second);
    LastPieceKeepsAbsence(afterFirst, second, first);
    Strip(afterSecond)
  }

  /** Which text `AfterLabels` keeps: the stripped rest of the line from a
      position `k` that is 0 when neither spelling occurs and otherwise
      lies right after an occurrence of one of them. */
  lemma AfterLabelsKeeps(line: string, first: string, second: string)
    requires first != [] && second != []
    ensures var k := |line| - |LastPiece(LastPiece(line, first), second)|;
            && AfterLabels(line, first, second) == Strip(line[k..])
            && (k == 0 <==> !Contains(line, first) && !Contains(line, second))
            && (k > 0 ==> EndsAt(line, first, k) || EndsAt(line, second, k))
  {
    LastPieceTwiceIsSuffix(line, first, second);
    LastPieceTwiceKeepsAll(line, first, second);
    LastPieceTwiceFollows(line, first, second);
  }

  /** What a label line of section `sec` keeps. */
  function MarkerContent(labels: Labels, line: string, sec: Section): string
    requires ValidLabels(labels) && sec != Response
  {
    AfterLabels(line, Markers(labels, sec).0, Markers(labels, sec).1)
  }

  /** One iteration of the source's loop on one raw line. */
  function Step(labels: Labels, st: ScanState, rawLine: string): ScanState
    requires ValidLabels(labels)
  {
    var line := Strip(rawLine);
    match MarkedSection(labels, line)
    case Some(sec) =>
      var content := MarkerContent(labels, line, sec);
      ScanState(sec, if content != [] then AddItems(st.sections, sec, [content]) else st.sections)
    case None =>
      if line == [] then st
      else if st.cursor == Response then
        st.(sections := st.sections.(response := st.sections.response + line + " "))
      else
        st.(sections := AddItems(st.sections, st.cursor, [line]))
  }

  /** Every item is non-empty and already stripped. */
  predicate Clean(items: seq<string>) {
    forall x <- items :: x != [] && IsStripped(x)
  }

  predicate CleanSections(fb: Feedback) {
    Clean(fb.corrections) && Clean(fb.vocabulary) && Clean(fb.grammarTips)
  }

  function ItemCount(fb: Feedback): nat {
    |fb.corrections| + |fb.vocabulary| + |fb.grammarTips|
  }

  /** One line adds at most one item. */
  lemma StepAddsAtMostOne(labels: Labels, st: ScanState, line: string)
    requires ValidLabels(labels)
    ensures ItemCount(Step(labels, st, line).sections) <= ItemCount(st.sections) + 1
  {
    var r := Step(labels, st, line);
    var stripped := Strip(line);
    match MarkedSection(labels, stripped)
    case Some(sec) =>
      var content := MarkerContent(labels, stripped, sec);
      if content != [] {
        assert r.sections == AddItems(st.sections, sec, [content]);
      } else {
        assert r.sections == st.sections;
      }
    case None =>
      if stripped != [] && st.cursor != Response {
        assert r.sections == AddItems(st.sections, st.cursor, [stripped]);
      }
  }

  /** Adding clean items keeps the sections clean. */
  lemma AddCleanItems(fb: Feedback, sec: Section, items: seq<string>)
    requires sec != Response && Clean(items)
    ensures CleanSections(fb) ==> CleanSections(AddItems(fb, sec, items))
  {
    var r := AddItems(fb, sec, items);
    if CleanSections(fb) {
      forall x <- Items(r, sec) ensures x != [] && IsStripped(x) {
        assert x in Items(fb, sec) || x in items;
      }
    }
  }

  /** The item a line adds, if any, is clean. */
  lemma StepKeepsClean(labels: Labels, st: ScanState, rawLine: string)
    requires ValidLabels(labels)
    ensures CleanSections(st.sections) ==> CleanSections(Step(labels, st, rawLine).sections)
  {
    var r := Step(labels, st, rawLine);
    var line := Strip(rawLine);
    match MarkedSection(labels, line)
    case Some(sec) =>
      var content := MarkerContent(labels, line, sec);
      var added := if content == [] then [] else [content];
      assert r.sections == AddItems(st.sections, sec, added);
      AddCleanItems(st.sections, sec, added);
    case None =>
      if line == [] {
        assert r == st;
      } else if st.cursor == Response {
        assert r.sections == st.sections.(response := st.sections.response + line + " ");
      } else {
        assert r.sections == AddItems(st.sections, st.cursor, [line]);
        AddCleanItems(st.sections, st.cursor, [line]);
      }
  }

  /** The loop run over `lines` from `st`: each line adds at most one item,
      and only clean ones. */
  function Run(labels: Labels, st: ScanState, lines: seq<string>): (r: ScanState)
    requires ValidLabels(labels)
    ensures ItemCount(r.sections) <= ItemCount(st.sections) + |lines|
    ensures CleanSections(st.sections) ==> CleanSections(r.sections)
    decreases |lines|
  {
    if lines == [] then st
    else
      var before := Run(labels, st, lines[..|lines| - 1]);
      var line := lines[|lines| - 1];
      StepAddsAtMostOne(labels, before, line);
      StepKeepsClean(labels, before, line);
      Step(labels, before, line)
  }

  /** Running one more line is one more step. */
  lemma RunSnoc(labels: Labels, st: ScanState, lines: seq<string>, line: string)
    requires ValidLabels(labels)
    ensures Run(labels, st, lines + [line]) == Step(labels, Run(labels, st, lines), line)
  {
    assert (lines + [line])[..|lines|] == lines;
  }

  /** `llm_response.split("\n")`: one line more than there are newlines,
      and joining the lines with newlines gives back the reply. */
  function Lines(text: string): (lines: seq<string>)
    ensures |lines| == multiset(text)['\n'] + 1
    ensures JoinOn(lines, '\n') == text
  {
    SplitCount(text, '\n');
    JoinOfSplit(text, '\n');
    SplitOn(text, '\n')
  }

  /** The scan of a whole text, for any labels: every line, then strip
      the paragraph. */
  function ExtractWith(labels: Labels, text: string): (fb: Feedback)
    requires ValidLabels(labels)
    ensures IsStripped(fb.response)
    ensures CleanSections(fb)
    ensures ItemCount(fb) <= |Lines(text)|
  {
    assert CleanSections(Start.sections);
    var st := Run(labels, Start, Lines(text));
    assert CleanSections(st.sections);
    Feedback(Strip(st.sections.response), st.sections.corrections, st.sections.vocabulary, st.sections.grammarTips)
  }

  /** The specification of `extract_feedback`. The result always exists;
      its paragraph has no surrounding whitespace, every list item is
      clean, and there are no more items than lines. */
  function Extract(text: string): (fb: Feedback)
    ensures IsStripped(fb.response)
    ensures CleanSections(fb)
    ensures ItemCount(fb) <= |Lines(text)|
  {
    ExtractWith(SourceLabels, text)
  }

  /** The body of the source's loop: test the line for the labels in
      priority order, move the cursor, and append to a section. */
  method ScanLine(labels: Labels, st: ScanState, rawLine: string) returns (next: ScanState)
    requires ValidLabels(labels)
    ensures next == Step(labels, st, rawLine)
  {
    var cursor := st.cursor;
    var sections := st.sections;
    var line := Strip(rawLine);
    if Contains(line, labels.corrections) || Contains(line, labels.correction) {
      cursor := Corrections;
      var content := Strip(LastPiece(LastPiece(line, labels.corrections), labels.correction));
      if content != [] {
        sections := sections.(corrections := sections.corrections + [content]);
      }
    } else if Contains(line, labels.vocabulary) || Contains(line, labels.vocab) {
      cursor := Vocabulary;
      var content := Strip(LastPiece(LastPiece(line, labels.vocabulary), labels.vocab));
      if content != [] {
        sections := sections.(vocabulary := sections.vocabulary + [content]);
      }
    } else if Contains(line, labels.grammarTip) || Contains(line, labels.grammar) {
      cursor := GrammarTips;
      var content := Strip(LastPiece(LastPiece(line, labels.grammarTip), labels.grammar));
      if content != [] {
        sections := sections.(grammarTips := sections.grammarTips + [content]);
      }
    } else if line != [] {
      if cursor == Response {
        sections := sections.(response := sections.response + line + " ");
      } else if cursor == Corrections {
        sections := sections.(corrections := sections.corrections + [line]);
      } else if cursor == Vocabulary {
        sections := sections.(vocabulary := sections.vocabulary + [line]);
      } else {
        sections := sections.(grammarTips := sections.grammarTips + [line]);
      }
    }
    next := ScanState(cursor, sections);
  }

  /** The source's loop over the lines, from state `st0`. */
  method ScanLines(labels: Labels, st0: ScanState, lines: seq<string>) returns (st: ScanState)
    requires ValidLabels(labels)
    ensures st == Run(labels, st0, lines)
  {
    st := st0;
    for i := 0 to |lines|
      invariant st == Run(labels, st0, lines[..i])
    {
      RunSnoc(labels, st0, lines[..i], lines[i]);
      assert lines[..i] + [lines[i]] == lines[..i + 1];
      st := ScanLine(labels, st, lines[i]);
    }
    assert lines[..|lines|] == lines;
  }

  /** `extract_feedback`: split the reply into lines, run the loop body on
      each, then strip the paragraph. */
  method ExtractFeedback(text: string) returns (fb: Feedback)
    ensures fb == Extract(text)
  {
    var st := ScanLines(SourceLabels, Start, Lines(text));
    fb := Feedback(Strip(st.sections.response), st.sections.corrections, st.sections.vocabulary, st.sections.grammarTips);
  }
}
