/**
 * What the feedback extractor promises, proved about its specification
 * `Run` / `Extract`: what one line does, where the cursor is after a run,
 * that the paragraph is frozen once a label has been seen, that lists only
 * grow, and the two closed forms (the empty reply, a reply with no label).
 */
module FeedbackProperties {
  import opened Text
  import opened FeedbackExtractor

  // ---------------------------------------------------------------------
  // One line

  /** A line that is blank after stripping moves no cursor and adds to no
      section. */
  lemma BlankLineIgnored(labels: Labels, st: ScanState, rawLine: string)
    requires ValidLabels(labels) && AllSpace(rawLine)
    ensures Step(labels, st, rawLine) == st
  {
    StripEmptyIffBlank(rawLine);
  }

  /** A label line moves the cursor to its section, appends the text after
      the label to that section exactly when that text is non-empty, and
      changes neither the paragraph nor the other lists. The text kept holds
      neither spelling of the label and is strictly shorter than the line:
      the label and everything before it are dropped. Labels are tested in
      a fixed priority: a corrections label wins over any other label on
      the same line, a vocabulary label over a grammar label. */
  lemma LabelLine(labels: Labels, st: ScanState, rawLine: string, sec: Section)
    requires ValidLabels(labels)
    requires MarkedSection(labels, Strip(rawLine)) == Some(sec)
    ensures var r := Step(labels, st, rawLine);
            var line := Strip(rawLine);
            var content := MarkerContent(labels, line, sec);
            && r.cursor == sec
            && r.sections.response == st.sections.response
            && Items(r.sections, sec) == Items(st.sections, sec) + (if content == [] then [] else [content])
            && (forall other :: other != Response && other != sec ==>
                  Items(r.sections, other) == Items(st.sections, other))
            && !Contains(content, Markers(labels, sec).0)
            && !Contains(content, Markers(labels, sec).1)
            && |content| < |line|
    ensures HasMarker(labels, Strip(rawLine), Corrections) ==> sec == Corrections
    ensures HasMarker(labels, Strip(rawLine), Vocabulary) ==> sec != GrammarTips
  {
    var line := Strip(rawLine);
    var content := MarkerContent(labels, line, sec);
    var added := if content == [] then [] else [content];
    MarkedSectionFindsLabel(labels, line);
    MarkerContentDropsLabel(labels, line, sec);
    var r := Step(labels, st, rawLine);
    assert r.cursor == sec;
    assert r.sections == AddItems(st.sections, sec, added);
  }

  /** The text kept from a line holding a label of `sec` holds neither
      spelling of that label and is strictly shorter than the line. */
  lemma MarkerContentDropsLabel(labels: Labels, line: string, sec: Section)
    requires ValidLabels(labels) && sec != Response
    requires HasMarker(labels, line, sec)
    ensures var content := MarkerContent(labels, line, sec);
            && !Contains(content, Markers(labels, sec).0)
            && !Contains(content, Markers(labels, sec).1)
            && |content| < |line|
  {
  }

  /** What a label line adds is the rest of the line from a position right
      after an occurrence of one of the section's two spellings, stripped. */
  lemma LabelContent(labels: Labels, rawLine: string, sec: Section)
    requires ValidLabels(labels)
    requires MarkedSection(labels, Strip(rawLine)) == Some(sec)
    ensures var line := Strip(rawLine);
            exists k :: 0 < k <= |line| && MarkerContent(labels, line, sec) == Strip(line[k..])
              && (EndsAt(line, Markers(labels, sec).0, k) || EndsAt(line, Markers(labels, sec).1, k))
  {
    var line := Strip(rawLine);
    var (first, second) := Markers(labels, sec);
    assert HasMarker(labels, line, sec);
    AfterLabelsKeeps(line, first, second);
    var k := |line| - |LastPiece(LastPiece(line, first), second)|;
    assert EndsAt(line, first, k) || EndsAt(line, second, k);
  }

  /** A non-blank line without a label keeps the cursor where it is: in
      the paragraph it is appended followed by one space, in a list it
      becomes one more item, and nothing else changes. */
  lemma UnlabelledLine(labels: Labels, st: ScanState, rawLine: string)
    requires ValidLabels(labels)
    requires MarkedSection(labels, Strip(rawLine)) == None && Strip(rawLine) != []
    ensures var r := Step(labels, st, rawLine);
            && r.cursor == st.cursor
            && (st.cursor == Response ==>
                  r.sections == st.sections.(response := st.sections.response + Strip(rawLine) + " "))
            && (st.cursor != Response ==>
                  && r.sections.response == st.sections.response
                  && Items(r.sections, st.cursor) == Items(st.sections, st.cursor) + [Strip(rawLine)]
                  && forall other :: other != Response && other != st.cursor ==>
                       Items(r.sections, other) == Items(st.sections, other))
  {
  }

  /** Lists only grow and the paragraph only grows: what one line leaves
      behind is a prefix of what the next state holds. */
  lemma StepExtends(labels: Labels, st: ScanState, rawLine: string)
    requires ValidLabels(labels)
    ensures var r := Step(labels, st, rawLine);
            && st.sections.response <= r.sections.response
            && forall sec :: sec != Response ==> Items(st.sections, sec) <= Items(r.sections, sec)
  {
    var r := Step(labels, st, rawLine);
    var line := Strip(rawLine);
    match MarkedSection(labels, line)
    case Some(sec) =>
      var content := MarkerContent(labels, line, sec);
      var added := if content == [] then [] else [content];
      assert r.sections == AddItems(st.sections, sec, added);
    case None =>
      if line == [] {
        assert r == st;
      } else if st.cursor == Response {
        assert r.sections == st.sections.(response := st.sections.response + line + " ");
      } else {
        assert r.sections == AddItems(st.sections, st.cursor, [line]);
      }
  }

  // ---------------------------------------------------------------------
  // Runs of lines

  /** Scanning `a + b` is scanning `a`, then `b` from where `a` left off. */
  lemma {:induction false} RunAppend(labels: Labels, st: ScanState, a: seq<string>, b: seq<string>)
    requires ValidLabels(labels)
    ensures Run(labels, st, a + b) == Run(labels, Run(labels, st, a), b)
    decreases |b|
  {
    if b == [] {
      assert a + b == a;
    } else {
      var n := |b|;
      assert (a + b)[..|a + b| - 1] == a + b[..n - 1];
      assert (a + b)[|a + b| - 1] == b[n - 1];
      RunAppend(labels, st, a, b[..n - 1]);
    }
  }

  /** Items keep their input order: the lists and the paragraph of any
      earlier state are prefixes of those of a later one. */
  lemma {:induction false} RunExtends(labels: Labels, st: ScanState, lines: seq<string>)
    requires ValidLabels(labels)
    ensures var r := Run(labels, st, lines);
            && st.sections.response <= r.sections.response
            && forall sec :: sec != Response ==> Items(st.sections, sec) <= Items(r.sections, sec)
    decreases |lines|
  {
    if lines != [] {
      var before := Run(labels, st, lines[..|lines| - 1]);
      RunExtends(labels, st, lines[..|lines| - 1]);
      StepExtends(labels, before, lines[|lines| - 1]);
    }
  }

  /** The section of the last label line among `lines`, if there is one. */
  function LastLabel(labels: Labels, lines: seq<string>): (r: Option<Section>)
    ensures r != Some(Response)
    decreases |lines|
  {
    if lines == [] then None
    else
      match MarkedSection(labels, Strip(lines[|lines| - 1]))
      case Some(sec) => Some(sec)
      case None => LastLabel(labels, lines[..|lines| - 1])
  }

  /** `LastLabel` is `None` exactly when no line holds a label. */
  lemma {:induction false} NoLastLabel(labels: Labels, lines: seq<string>)
    ensures LastLabel(labels, lines) == None <==>
              forall i :: 0 <= i < |lines| ==> MarkedSection(labels, Strip(lines[i])).None?
    decreases |lines|
  {
    if lines != [] {
      var init := lines[..|lines| - 1];
      var last := lines[|lines| - 1];
      NoLastLabel(labels, init);
      if MarkedSection(labels, Strip(last)).None? {
        assert LastLabel(labels, lines) == LastLabel(labels, init);
        assert forall i :: 0 <= i < |init| ==> init[i] == lines[i];
      } else {
        assert LastLabel(labels, lines) != None;
      }
    }
  }

  /** After a run the cursor is the section of the most recent label line,
      or where it started when no line had a label. */
  lemma {:induction false} CursorIsLastLabel(labels: Labels, st: ScanState, lines: seq<string>)
    requires ValidLabels(labels)
    ensures Run(labels, st, lines).cursor ==
              match LastLabel(labels, lines)
              case Some(sec) => sec
              case None => st.cursor
    decreases |lines|
  {
    if lines != [] {
      CursorIsLastLabel(labels, st, lines[..|lines| - 1]);
    }
  }

  /** Once the cursor has left the paragraph, one line keeps it out and
      leaves the paragraph as it is. */
  lemma StepFrozen(labels: Labels, st: ScanState, rawLine: string)
    requires ValidLabels(labels) && st.cursor != Response
    ensures Step(labels, st, rawLine).cursor != Response
    ensures Step(labels, st, rawLine).sections.response == st.sections.response
  {
    var r := Step(labels, st, rawLine);
    var line := Strip(rawLine);
    match MarkedSection(labels, line)
    case Some(sec) =>
      var content := MarkerContent(labels, line, sec);
      var added := if content == [] then [] else [content];
      assert r == ScanState(sec, AddItems(st.sections, sec, added));
    case None =>
      if line == [] {
        assert r == st;
      } else {
        assert r == st.(sections := AddItems(st.sections, st.cursor, [line]));
      }
  }

  /** Once the cursor has left the paragraph it never returns, and from
      then on the paragraph never changes. */
  lemma {:induction false} ResponseFrozen(labels: Labels, st: ScanState, lines: seq<string>)
    requires ValidLabels(labels) && st.cursor != Response
    ensures Run(labels, st, lines).cursor != Response
    ensures Run(labels, st, lines).sections.response == st.sections.response
    decreases |lines|
  {
    if lines != [] {
      var init := lines[..|lines| - 1];
      ResponseFrozen(labels, st, init);
      StepFrozen(labels, Run(labels, st, init), lines[|lines| - 1]);
    }
  }

  /** No line after a label line, and not the label line itself, changes
      the paragraph: the paragraph after the whole run is the one built
      before the first label line. */
  lemma NoParagraphAfterLabel(labels: Labels, st: ScanState, lines: seq<string>, j: nat)
    requires ValidLabels(labels)
    requires j < |lines| && MarkedSection(labels, Strip(lines[j])).Some?
    ensures Run(labels, st, lines).sections.response == Run(labels, st, lines[..j]).sections.response
    ensures Run(labels, st, lines).cursor != Response
  {
    var head, upTo, rest := lines[..j], lines[..j + 1], lines[j + 1..];
    assert upTo == head + [lines[j]];
    assert lines == upTo + rest;
    RunSnoc(labels, st, head, lines[j]);
    LabelLine(labels, Run(labels, st, head), lines[j], MarkedSection(labels, Strip(lines[j])).value);
    var atLabel := Run(labels, st, upTo);
    RunAppend(labels, st, upTo, rest);
    ResponseFrozen(labels, atLabel, rest);
  }

  /** A non-blank line without a label that follows a label line joins the
      section of the most recently seen label, as its last item. */
  lemma LaterLineJoinsLastLabel(labels: Labels, st: ScanState, prefix: seq<string>, rawLine: string, sec: Section)
    requires ValidLabels(labels)
    requires LastLabel(labels, prefix) == Some(sec)
    requires MarkedSection(labels, Strip(rawLine)) == None && Strip(rawLine) != []
    ensures var before := Run(labels, st, prefix);
            var after := Run(labels, st, prefix + [rawLine]);
            && Items(after.sections, sec) == Items(before.sections, sec) + [Strip(rawLine)]
            && after.sections.response == before.sections.response
            && forall other :: other != Response && other != sec ==>
                 Items(after.sections, other) == Items(before.sections, other)
  {
    CursorIsLastLabel(labels, st, prefix);
    RunSnoc(labels, st, prefix, rawLine);
    UnlabelledLine(labels, Run(labels, st, prefix), rawLine);
  }

  // ---------------------------------------------------------------------
  // Closed forms

  /** The stripped non-blank lines, in order. */
  function NonBlank(lines: seq<string>): (ws: seq<string>)
    ensures Clean(ws)
    ensures |ws| <= |lines|
    decreases |lines|
  {
    if lines == [] then []
    else
      var line := Strip(lines[|lines| - 1]);
      NonBlank(lines[..|lines| - 1]) + (if line == [] then [] else [line])
  }

  /** Each piece followed by one space: how the loop builds the paragraph. */
  function Spaced(ws: seq<string>): string
    decreases |ws|
  {
    if ws == [] then [] else Spaced(ws[..|ws| - 1]) + ws[|ws| - 1] + " "
  }

  /** Writing every piece followed by a space is joining them with spaces
      and adding one space at the end. */
  lemma {:induction false} SpacedIsJoin(ws: seq<string>)
    requires ws != []
    ensures Spaced(ws) == JoinOn(ws, ' ') + " "
    decreases |ws|
  {
    var init := ws[..|ws| - 1];
    var last := ws[|ws| - 1];
    if init != [] {
      SpacedIsJoin(init);
      assert ws == init + [last];
      JoinOnSnoc(init, last, ' ');
    } else {
      assert ws == [last];
    }
  }

  /** The text one unlabelled line adds to the paragraph. */
  function ParagraphPiece(rawLine: string): string {
    if Strip(rawLine) == [] then [] else Strip(rawLine) + " "
  }

  /** While the cursor is on the paragraph, an unlabelled line appends its
      piece to the paragraph and changes nothing else. */
  lemma ParagraphLine(labels: Labels, st: ScanState, rawLine: string)
    requires ValidLabels(labels) && st.cursor == Response
    requires MarkedSection(labels, Strip(rawLine)) == None
    ensures var r := Step(labels, st, rawLine);
            && r.cursor == Response
            && r.sections.response == st.sections.response + ParagraphPiece(rawLine)
            && r.sections.corrections == st.sections.corrections
            && r.sections.vocabulary == st.sections.vocabulary
            && r.sections.grammarTips == st.sections.grammarTips
  {
    if Strip(rawLine) == [] {
      assert st.sections.response + [] == st.sections.response;
    }
  }

  /** The paragraph pieces of `lines` are the spaced non-blank lines. */
  lemma {:induction false} SpacedPieces(lines: seq<string>)
    requires lines != []
    ensures Spaced(NonBlank(lines)) ==
              Spaced(NonBlank(lines[..|lines| - 1])) + ParagraphPiece(lines[|lines| - 1])
  {
    var init := lines[..|lines| - 1];
    var last := lines[|lines| - 1];
    if Strip(last) == [] {
      assert NonBlank(lines) == NonBlank(init);
    } else {
      assert NonBlank(lines) == NonBlank(init) + [Strip(last)];
    }
  }

  /** When no line has a label the cursor stays on the paragraph, the
      lists do not change and each non-blank line is appended to the
      paragraph followed by a space. */
  lemma {:induction false} RunWithoutLabels(labels: Labels, st: ScanState, lines: seq<string>)
    requires ValidLabels(labels) && st.cursor == Response
    requires LastLabel(labels, lines) == None
    ensures var r := Run(labels, st, lines);
            && r.cursor == Response
            && r.sections.response == st.sections.response + Spaced(NonBlank(lines))
            && r.sections.corrections == st.sections.corrections
            && r.sections.vocabulary == st.sections.vocabulary
            && r.sections.grammarTips == st.sections.grammarTips
    decreases |lines|
  {
    if lines != [] {
      var init := lines[..|lines| - 1];
      var last := lines[|lines| - 1];
      assert Run(labels, st, lines) == Step(labels, Run(labels, st, init), last);
      assert LastLabel(labels, init) == None;
      assert MarkedSection(labels, Strip(last)) == None;
      RunWithoutLabels(labels, st, init);
      var before := Run(labels, st, init);
      ParagraphLine(labels, before, last);
      SpacedPieces(lines);
      var head, mid, piece := st.sections.response, Spaced(NonBlank(init)), ParagraphPiece(last);
      assert head + mid + piece == head + (mid + piece);
    }
  }

  /** A reply in which no line holds any of the six labels gives three
      empty lists and, as the paragraph, its non-blank lines stripped and
      joined by single spaces. */
  lemma NoLabels(text: string)
    requires forall i :: 0 <= i < |Lines(text)| ==> MarkedSection(SourceLabels, Strip(Lines(text)[i])).None?
    ensures Extract(text) == Feedback(JoinOn(NonBlank(Lines(text)), ' '), [], [], [])
  {
    NoLastLabel(SourceLabels, Lines(text));
    var ws := NonBlank(Lines(text));
    RunWithoutLabels(SourceLabels, Start, Lines(text));
    assert Run(SourceLabels, Start, Lines(text)).sections.response == Spaced(ws);
    if ws != [] {
      SpacedIsJoin(ws);
      JoinOfStripped(ws, ' ');
      StripTrailingSpace(JoinOn(ws, ' '));
    }
  }

  // ---------------------------------------------------------------------
  // Blocks: a label line followed by lines without labels

  /** What a label line adds to its own section: its content, unless that
      is empty. */
  function LabelItems(labels: Labels, marker: string, sec: Section): seq<string>
    requires ValidLabels(labels) && sec != Response
  {
    var content := MarkerContent(labels, Strip(marker), sec);
    if content == [] then [] else [content]
  }

  /** While the cursor is on a list, a line without a label appends its
      stripped text to that list unless it is blank, and changes nothing
      else. */
  lemma SectionLine(labels: Labels, st: ScanState, rawLine: string)
    requires ValidLabels(labels) && st.cursor != Response
    requires MarkedSection(labels, Strip(rawLine)) == None
    ensures var r := Step(labels, st, rawLine);
            var line := Strip(rawLine);
            && r.cursor == st.cursor
            && r.sections.response == st.sections.response
            && Items(r.sections, st.cursor) ==
                 Items(st.sections, st.cursor) + (if line == [] then [] else [line])
            && forall other :: other != Response && other != st.cursor ==>
                 Items(r.sections, other) == Items(st.sections, other)
  {
    if Strip(rawLine) == [] {
      StripEmptyIffBlank(rawLine);
      BlankLineIgnored(labels, st, rawLine);
      assert Items(st.sections, st.cursor) + [] == Items(st.sections, st.cursor);
    } else {
      UnlabelledLine(labels, st, rawLine);
    }
  }

  /** While the cursor is on a list, lines without labels append their
      stripped non-blank text to that list and change nothing else. */
  lemma {:induction false} RunInSection(labels: Labels, st: ScanState, lines: seq<string>)
    requires ValidLabels(labels) && st.cursor != Response
    requires LastLabel(labels, lines) == None
    ensures var r := Run(labels, st, lines);
            && r.cursor == st.cursor
            && r.sections.response == st.sections.response
            && Items(r.sections, st.cursor) == Items(st.sections, st.cursor) + NonBlank(lines)
            && forall other :: other != Response && other != st.cursor ==>
                 Items(r.sections, other) == Items(st.sections, other)
    decreases |lines|
  {
    if lines == [] {
      assert Items(st.sections, st.cursor) + [] == Items(st.sections, st.cursor);
    } else {
      var init := lines[..|lines| - 1];
      var last := lines[|lines| - 1];
      var line := Strip(last);
      var added: seq<string> := if line == [] then [] else [line];
      assert LastLabel(labels, init) == None;
      RunInSection(labels, st, init);
      SectionLine(labels, Run(labels, st, init), last);
      var before := Items(st.sections, st.cursor);
      assert NonBlank(lines) == NonBlank(init) + added;
      assert before + NonBlank(init) + added == before + NonBlank(lines);
    }
  }

  /** A block of a label line of section `sec` followed by lines without
      labels moves the cursor to `sec`, appends to the list of `sec` the
      label line's content and then every non-blank later line, stripped,
      and changes neither the paragraph nor the other lists. */
  lemma BlockRun(labels: Labels, st: ScanState, marker: string, rest: seq<string>, sec: Section)
    requires ValidLabels(labels)
    requires MarkedSection(labels, Strip(marker)) == Some(sec)
    requires LastLabel(labels, rest) == None
    ensures var r := Run(labels, st, [marker] + rest);
            && r.cursor == sec
            && r.sections.response == st.sections.response
            && Items(r.sections, sec) == Items(st.sections, sec) + LabelItems(labels, marker, sec) + NonBlank(rest)
            && forall other :: other != Response && other != sec ==>
                 Items(r.sections, other) == Items(st.sections, other)
  {
    var empty: seq<string> := [];
    assert empty + [marker] == [marker];
    RunSnoc(labels, st, empty, marker);
    LabelLine(labels, st, marker, sec);
    var mid := Run(labels, st, [marker]);
    RunAppend(labels, st, [marker], rest);
    RunInSection(labels, mid, rest);
  }

  /** Two results with the same paragraph and the same three lists are equal. */
  lemma SameSections(x: Feedback, y: Feedback)
    requires x.response == y.response
    requires forall sec :: sec != Response ==> Items(x, sec) == Items(y, sec)
    ensures x == y
  {
    assert Items(x, Corrections) == Items(y, Corrections);
    assert Items(x, Vocabulary) == Items(y, Vocabulary);
    assert Items(x, GrammarTips) == Items(y, GrammarTips);
  }

  /** Two blocks of different sections in a row: each list of the two
      sections gets its own block's items, and nothing else changes. */
  lemma TwoBlocks(labels: Labels, st: ScanState, m1: string, r1: seq<string>, sec1: Section,
                  m2: string, r2: seq<string>, sec2: Section)
    requires ValidLabels(labels)
    requires MarkedSection(labels, Strip(m1)) == Some(sec1) && LastLabel(labels, r1) == None
    requires MarkedSection(labels, Strip(m2)) == Some(sec2) && LastLabel(labels, r2) == None
    requires sec1 != sec2
    ensures var r := Run(labels, st, [m1] + r1 + ([m2] + r2)).sections;
            && r.response == st.sections.response
            && Items(r, sec1) == Items(st.sections, sec1) + LabelItems(labels, m1, sec1) + NonBlank(r1)
            && Items(r, sec2) == Items(st.sections, sec2) + LabelItems(labels, m2, sec2) + NonBlank(r2)
            && forall other :: other != Response && other != sec1 && other != sec2 ==>
                 Items(r, other) == Items(st.sections, other)
  {
    var a, b := [m1] + r1, [m2] + r2;
    RunAppend(labels, st, a, b);
    var afterA := Run(labels, st, a);
    var fin := Run(labels, afterA, b).sections;
    BlockRun(labels, st, m1, r1, sec1);
    BlockRun(labels, afterA, m2, r2, sec2);
    assert Items(fin, sec1) == Items(afterA.sections, sec1);
    assert Items(afterA.sections, sec2) == Items(st.sections, sec2);
  }

  /** Two blocks of different sections can come in either order: the
      paragraph and the three lists come out the same. */
  lemma SwapBlocks(labels: Labels, st: ScanState, m1: string, r1: seq<string>, sec1: Section,
                   m2: string, r2: seq<string>, sec2: Section)
    requires ValidLabels(labels)
    requires MarkedSection(labels, Strip(m1)) == Some(sec1) && LastLabel(labels, r1) == None
    requires MarkedSection(labels, Strip(m2)) == Some(sec2) && LastLabel(labels, r2) == None
    requires sec1 != sec2
    ensures Run(labels, st, [m1] + r1 + ([m2] + r2)).sections ==
            Run(labels, st, [m2] + r2 + ([m1] + r1)).sections
  {
    var x := Run(labels, st, [m1] + r1 + ([m2] + r2)).sections;
    var y := Run(labels, st, [m2] + r2 + ([m1] + r1)).sections;
    TwoBlocks(labels, st, m1, r1, sec1, m2, r2, sec2);
    TwoBlocks(labels, st, m2, r2, sec2, m1, r1, sec1);
    forall sec | sec != Response ensures Items(x, sec) == Items(y, sec) {
      if sec == sec1 {
        assert Items(x, sec1) == Items(y, sec1);
      } else if sec == sec2 {
        assert Items(x, sec2) == Items(y, sec2);
      }
    }
    SameSections(x, y);
  }

  /** The empty reply gives an empty paragraph and three empty lists. */
  lemma ExtractEmpty()
    ensures Extract("") == Feedback("", [], [], [])
  {
    var empty: seq<string> := [];
    assert Lines("") == empty + [""];
    RunSnoc(SourceLabels, Start, empty, "");
    BlankLineIgnored(SourceLabels, Start, "");
  }
}
