/**
 Figure, table and citation numbers of docs/report/src/build.py. A pre-pass over all chapters
 gives every labelled figure and table its number, so that forward references resolve; the
 rendering pass counts again and prints. The two passes look at lines differently: the pre-pass
 wants a directive at column 0, the rendering pass strips the line first.

 `isWord` is the class \w of the regular expressions, `refKey` is ref_key, and Part.brackets are
 the numbers that the bracket expression finds in the text of a part, bracket by bracket.
 */
module ReportNumbering {
  import opened Options
  import opened Sequences
  import opened ReportReferences
  import opened ReportText

  datatype Kind = Figure | Table

  function Keyword(kind: Kind): string {
    if kind == Figure then "FIGURE:" else "TABLE:"
  }

  /** line.startswith("FIGURE:"). */
  predicate AtColumn0(kind: Kind, line: string) {
    Keyword(kind) <= line
  }

  /** What the rendering pass takes for a directive. */
  predicate IsDirective(kind: Kind, line: string) {
    Keyword(kind) <= Strip(line)
  }

  lemma Column0IsDirective(kind: Kind, line: string)
    requires AtColumn0(kind, line)
    ensures IsDirective(kind, line)
  {
    var k := |Keyword(kind)|;
    assert line[k - 1] == ':' && line[..k] == Keyword(kind);
    StripRightKeeps(line, k);
    assert StripRight(line)[0] == Keyword(kind)[0];
  }

  // ---------------------------------------------------------------- the two ways to count

  function Count0(kind: Kind, lines: seq<string>): nat {
    if lines == [] then 0
    else Count0(kind, lines[..|lines| - 1]) + (if AtColumn0(kind, lines[|lines| - 1]) then 1 else 0)
  }

  function Count(kind: Kind, lines: seq<string>): nat {
    if lines == [] then 0
    else Count(kind, lines[..|lines| - 1]) + (if IsDirective(kind, lines[|lines| - 1]) then 1 else 0)
  }

  /** A directive that only the rendering pass sees. */
  predicate Indented(kind: Kind, line: string) {
    IsDirective(kind, line) && !AtColumn0(kind, line)
  }

  ghost predicate NoneIndented(kind: Kind, lines: seq<string>) {
    forall i :: 0 <= i < |lines| ==> !Indented(kind, lines[i])
  }

  lemma {:induction false} CountsAgree(kind: Kind, lines: seq<string>)
    ensures Count0(kind, lines) <= Count(kind, lines)
    ensures Count0(kind, lines) == Count(kind, lines) <==> NoneIndented(kind, lines)
  {
    hide IsDirective;
    hide AtColumn0;
    if lines != [] {
      var n := |lines| - 1;
      CountsAgree(kind, lines[..n]);
      assert NoneIndented(kind, lines) <==> NoneIndented(kind, lines[..n]) && !Indented(kind, lines[n]);
      if AtColumn0(kind, lines[n]) {
        Column0IsDirective(kind, lines[n]);
      }
    }
  }

  // ---------------------------------------------------------------- the pre-pass

  datatype Number = Number(chapter: nat, no: nat)

  function KindAt0(line: string): Option<Kind> {
    if AtColumn0(Figure, line) then Some(Figure) else if AtColumn0(Table, line) then Some(Table) else None
  }

  lemma KindAt0Is(line: string, kind: Kind)
    ensures KindAt0(line) == Some(kind) <==> AtColumn0(kind, line)
  {
    assert forall k :: AtColumn0(k, line) ==> line[0] == Keyword(k)[0];
  }

  /** labels after the pre-pass of one chapter: a later directive wins over an earlier one. */
  function Labelled(labels: map<string, Number>, ch: nat, lines: seq<string>, isWord: char -> bool):
    map<string, Number>
  {
    if lines == [] then labels
    else
      var n := |lines| - 1;
      var before, kind := Labelled(labels, ch, lines[..n], isWord), KindAt0(lines[n]);
      if kind.Some? && LabelOf(lines[n], isWord).Some?
      then before[LabelOf(lines[n], isWord).value := Number(ch, Count0(kind.value, lines))]
      else before
  }

  /** Line i of the chapter carries the label. */
  ghost predicate Labels(lines: seq<string>, isWord: char -> bool, i: nat, tag: string) {
    i < |lines| && KindAt0(lines[i]).Some? && LabelOf(lines[i], isWord) == Some(tag)
  }

  lemma {:induction false} UnlabelledKeeps(labels: map<string, Number>, ch: nat, lines: seq<string>,
                                           isWord: char -> bool, tag: string)
    requires forall i: nat :: !Labels(lines, isWord, i, tag)
    ensures tag in Labelled(labels, ch, lines, isWord) <==> tag in labels
    ensures tag in labels ==> Labelled(labels, ch, lines, isWord)[tag] == labels[tag]
  {
    if lines != [] {
      var n := |lines| - 1;
      forall i: nat ensures !Labels(lines[..n], isWord, i, tag) {
        assert !Labels(lines, isWord, i, tag);
      }
      UnlabelledKeeps(labels, ch, lines[..n], isWord, tag);
      assert !Labels(lines, isWord, n, tag);
    }
  }

  /** A label has the number of the last directive that carries it at column 0. */
  lemma {:induction false} LastLabelWins(labels: map<string, Number>, ch: nat, lines: seq<string>,
                                         isWord: char -> bool, i: nat, tag: string)
    requires Labels(lines, isWord, i, tag)
    requires forall j: nat :: Labels(lines, isWord, j, tag) ==> j <= i
    ensures tag in Labelled(labels, ch, lines, isWord)
    ensures Labelled(labels, ch, lines, isWord)[tag] ==
            Number(ch, Count0(KindAt0(lines[i]).value, lines[..i + 1]))
  {
    var n := |lines| - 1;
    if i == n {
      assert lines[..i + 1] == lines;
    } else {
      forall j: nat | Labels(lines[..n], isWord, j, tag) ensures j <= i {
        assert Labels(lines, isWord, j, tag);
      }
      assert Labels(lines[..n], isWord, i, tag);
      LastLabelWins(labels, ch, lines[..n], isWord, i, tag);
      assert lines[..n][..i + 1] == lines[..i + 1];
      assert !Labels(lines, isWord, n, tag);
    }
  }

  // ---------------------------------------------------------------- the rendering pass

  /** A printed caption: the directive's line, and the chapter and number printed with it. */
  datatype Caption = Caption(line: string, kind: Kind, number: Number)

  /** The caption of one line, when the counters stand as given before it. */
  function CaptionOf(ch: nat, figNo: nat, tabNo: nat, line: string): seq<Caption> {
    if IsDirective(Table, line) then [Caption(line, Table, Number(ch, tabNo + 1))]
    else if IsDirective(Figure, line) then [Caption(line, Figure, Number(ch, figNo + 1))]
    else []
  }

  /** What the rendering pass prints for these lines when the counters start as given. */
  function Captions(ch: nat, figNo: nat, tabNo: nat, lines: seq<string>): seq<Caption> {
    if lines == [] then []
    else
      var n := |lines| - 1;
      Captions(ch, figNo, tabNo, lines[..n]) +
      CaptionOf(ch, figNo + Count(Figure, lines[..n]), tabNo + Count(Table, lines[..n]), lines[n])
  }

  lemma {:induction false} CountConcat(kind: Kind, a: seq<string>, b: seq<string>)
    ensures Count(kind, a + b) == Count(kind, a) + Count(kind, b)
  {
    if b == [] {
      assert a + b == a;
    } else {
      CountConcat(kind, a, b[..|b| - 1]);
      assert (a + b)[..|a + b| - 1] == a + b[..|b| - 1];
    }
  }

  /** The counters run on from one file of a chapter into the next. */
  lemma {:induction false} CaptionsConcat(ch: nat, figNo: nat, tabNo: nat, a: seq<string>, b: seq<string>)
    ensures Captions(ch, figNo, tabNo, a + b) ==
            Captions(ch, figNo, tabNo, a) +
            Captions(ch, figNo + Count(Figure, a), tabNo + Count(Table, a), b)
  {
    hide CaptionOf;
    hide Count;
    if b == [] {
      assert a + b == a;
    } else {
      var n := |b| - 1;
      CaptionsConcat(ch, figNo, tabNo, a, b[..n]);
      CountConcat(Figure, a, b[..n]);
      CountConcat(Table, a, b[..n]);
      assert (a + b)[..|a + b| - 1] == a + b[..n] && (a + b)[|a + b| - 1] == b[n];
    }
  }

  lemma OneKind(line: string)
    ensures !(IsDirective(Figure, line) && IsDirective(Table, line))
  {
    hide Strip;
    assert forall k :: IsDirective(k, line) ==> Strip(line)[0] == Keyword(k)[0];
  }

  lemma CaptionOfIs(ch: nat, earlier: seq<string>, line: string, kind: Kind)
    requires IsDirective(kind, line)
    ensures CaptionOf(ch, Count(Figure, earlier), Count(Table, earlier), line) ==
            [Caption(line, kind, Number(ch, Count(kind, earlier + [line])))]
  {
    OneKind(line);
    hide IsDirective;
    assert (earlier + [line])[..|earlier|] == earlier;
  }

  /** Where the caption of line i stands among the chapter's captions, and its number. */
  lemma {:induction false} CaptionAt(ch: nat, lines: seq<string>, i: nat, kind: Kind)
    requires i < |lines| && IsDirective(kind, lines[i])
    ensures var at := |Captions(ch, 0, 0, lines[..i])|;
            && at < |Captions(ch, 0, 0, lines)|
            && Captions(ch, 0, 0, lines)[at] == Caption(lines[i], kind, Number(ch, Count(kind, lines[..i + 1])))
  {
    hide CaptionOf;
    hide IsDirective;
    hide Count;
    var n := |lines| - 1;
    if i == n {
      CaptionOfIs(ch, lines[..n], lines[n], kind);
      assert lines[..i + 1] == lines[..n] + [lines[n]];
    } else {
      CaptionAt(ch, lines[..n], i, kind);
      assert lines[..n][..i] == lines[..i] && lines[..n][..i + 1] == lines[..i + 1];
    }
  }

  /** A label at column 0 gets the number printed under its directive if and only if no indented
      directive of its kind comes before it in the chapter. */
  lemma Column0LabelIsPrinted(labels: map<string, Number>, ch: nat, lines: seq<string>,
                             isWord: char -> bool, i: nat, tag: string)
    requires Labels(lines, isWord, i, tag)
    requires forall j: nat :: Labels(lines, isWord, j, tag) ==> j == i
    ensures var kind, at := KindAt0(lines[i]).value, |Captions(ch, 0, 0, lines[..i])|;
            && tag in Labelled(labels, ch, lines, isWord)
            && at < |Captions(ch, 0, 0, lines)| && Captions(ch, 0, 0, lines)[at].line == lines[i]
            && (Labelled(labels, ch, lines, isWord)[tag] == Captions(ch, 0, 0, lines)[at].number <==>
                  NoneIndented(kind, lines[..i]))
  {
    hide Captions;
    hide Labelled;
    hide IsDirective;
    hide Count;
    hide Count0;
    var kind := KindAt0(lines[i]).value;
    KindAt0Is(lines[i], kind);
    Column0IsDirective(kind, lines[i]);
    LastLabelWins(labels, ch, lines, isWord, i, tag);
    CaptionAt(ch, lines, i, kind);
    CountsAgree(kind, lines[..i + 1]);
    assert NoneIndented(kind, lines[..i + 1]) <==> NoneIndented(kind, lines[..i]) by {
      assert lines[..i + 1] == lines[..i] + [lines[i]];
    }
  }

  function KindOf(line: string): Option<Kind> {
    if IsDirective(Figure, line) then Some(Figure) else if IsDirective(Table, line) then Some(Table) else None
  }

  lemma KindOfIs(line: string, kind: Kind)
    ensures KindOf(line) == Some(kind) <==> IsDirective(kind, line)
  {
    hide IsDirective;
    OneKind(line);
  }

  /** Line i is a directive that the rendering pass prints, and it carries the label. */
  ghost predicate Carries(lines: seq<string>, isWord: char -> bool, i: nat, tag: string) {
    i < |lines| && KindOf(lines[i]).Some? && LabelOf(Strip(lines[i]), isWord) == Some(tag)
  }

  lemma Column0Strip(kind: Kind, line: string)
    requires AtColumn0(kind, line)
    ensures Strip(line) == StripRight(line)
  {
    var k := |Keyword(kind)|;
    assert line[k - 1] == ':' && line[..k] == Keyword(kind);
    StripRightKeeps(line, k);
    assert StripRight(line)[0] == Keyword(kind)[0];
  }

  /** What the pre-pass labels is a directive with that label. */
  lemma LabelsAreCarried(lines: seq<string>, isWord: char -> bool, i: nat, tag: string)
    requires i < |lines|
    ensures Labels(lines, isWord, i, tag) <==> Carries(lines, isWord, i, tag) && KindAt0(lines[i]).Some?
    ensures KindAt0(lines[i]).Some? ==> KindOf(lines[i]) == KindAt0(lines[i])
  {
    hide IsDirective;
    hide AtColumn0;
    hide LabelOf;
    var kind := KindAt0(lines[i]);
    if kind.Some? {
      KindAt0Is(lines[i], kind.value);
      Column0IsDirective(kind.value, lines[i]);
      KindOfIs(lines[i], kind.value);
      Column0Strip(kind.value, lines[i]);
      LabelOfStripped(lines[i], isWord);
    }
  }

  /** The label has a number, and it is the given one; without a number the text shows "?". */
  predicate ResolvesTo(labels: map<string, Number>, tag: string, number: Number) {
    tag in labels && labels[tag] == number
  }

  /** Forward references are right exactly where they can be: the label of a directive resolves to
      the number printed under it if and only if no directive of its kind up to and including it is
      indented. */
  lemma LabelIsPrintedNumber(labels: map<string, Number>, ch: nat, lines: seq<string>,
                             isWord: char -> bool, i: nat, tag: string)
    requires tag !in labels && Carries(lines, isWord, i, tag)
    requires forall j: nat :: Carries(lines, isWord, j, tag) ==> j == i
    ensures var kind, at := KindOf(lines[i]).value, |Captions(ch, 0, 0, lines[..i])|;
            && at < |Captions(ch, 0, 0, lines)| && Captions(ch, 0, 0, lines)[at].line == lines[i]
            && (ResolvesTo(Labelled(labels, ch, lines, isWord), tag, Captions(ch, 0, 0, lines)[at].number) <==>
                  NoneIndented(kind, lines[..i + 1]))
  {
    hide Captions;
    hide Labelled;
    hide Carries;
    hide Labels;
    hide KindOf;
    var kind := PrintedKind(lines, isWord, i, tag);
    forall j: nat | Labels(lines, isWord, j, tag) ensures j == i {
      LabelIsCarried(lines, isWord, j, tag);
    }
    OneMoreIndented(kind, lines, i);
    if AtColumn0(kind, lines[i]) {
      CarriedIsLabelled(lines, isWord, i, tag, kind);
      Column0LabelIsPrinted(labels, ch, lines, isWord, i, tag);
    } else {
      CaptionAt(ch, lines, i, kind);
      UncarriedIsUnlabelled(lines, isWord, i, tag, kind);
      UnlabelledKeeps(labels, ch, lines, isWord, tag);
    }
  }

  lemma PrintedKind(lines: seq<string>, isWord: char -> bool, i: nat, tag: string) returns (kind: Kind)
    requires Carries(lines, isWord, i, tag)
    ensures i < |lines| && KindOf(lines[i]) == Some(kind) && IsDirective(kind, lines[i])
  {
    kind := KindOf(lines[i]).value;
    KindOfIs(lines[i], kind);
  }

  lemma LabelIsCarried(lines: seq<string>, isWord: char -> bool, j: nat, tag: string)
    requires Labels(lines, isWord, j, tag)
    ensures Carries(lines, isWord, j, tag)
  {
    LabelsAreCarried(lines, isWord, j, tag);
  }

  lemma CarriedIsLabelled(lines: seq<string>, isWord: char -> bool, i: nat, tag: string, kind: Kind)
    requires Carries(lines, isWord, i, tag) && KindOf(lines[i]) == Some(kind) && AtColumn0(kind, lines[i])
    ensures Labels(lines, isWord, i, tag) && KindAt0(lines[i]) == Some(kind)
  {
    KindAt0Is(lines[i], kind);
    LabelsAreCarried(lines, isWord, i, tag);
  }

  lemma UncarriedIsUnlabelled(lines: seq<string>, isWord: char -> bool, i: nat, tag: string, kind: Kind)
    requires i < |lines| && KindOf(lines[i]) == Some(kind) && !AtColumn0(kind, lines[i])
    ensures !Labels(lines, isWord, i, tag)
  {
    hide AtColumn0;
    hide KindOf;
    if KindAt0(lines[i]).Some? {
      KindAt0Is(lines[i], KindAt0(lines[i]).value);
      LabelsAreCarried(lines, isWord, i, tag);
    }
  }

  lemma OneMoreIndented(kind: Kind, lines: seq<string>, i: nat)
    requires i < |lines|
    ensures NoneIndented(kind, lines[..i + 1]) <==> NoneIndented(kind, lines[..i]) && !Indented(kind, lines[i])
  {
    hide Indented;
    assert lines[..i + 1] == lines[..i] + [lines[i]];
  }

  const INDENTED_FIGURE: string := " FIGURE: x {#fig:a} | y"

  /** A chapter in which the condition fails at the directive itself: the figure is printed as
      number 1, nothing indented comes before it, and its label has no number. */
  lemma IndentedFigureIsUnresolved(ch: nat, isWord: char -> bool)
    requires isWord('a') && !isWord('}')
    ensures var lines := [INDENTED_FIGURE];
            && Carries(lines, isWord, 0, "fig:a") && NoneIndented(Figure, lines[..0])
            && Captions(ch, 0, 0, lines) == [Caption(INDENTED_FIGURE, Figure, Number(ch, 1))]
            && Labelled(map[], ch, lines, isWord) == map[]
  {
    hide LabelOf;
    hide IsDirective;
    hide Strip;
    hide AtColumn0;
    var lines := [INDENTED_FIGURE];
    IndentedFigureKinds();
    IndentedFigureStrips();
    FigureLabel(isWord);
    assert lines[..0] == [] && lines[0] == INDENTED_FIGURE;
  }

  lemma IndentedFigureKinds()
    ensures IsDirective(Figure, INDENTED_FIGURE) && !IsDirective(Table, INDENTED_FIGURE)
    ensures !AtColumn0(Figure, INDENTED_FIGURE) && !AtColumn0(Table, INDENTED_FIGURE)
  {
    IndentedFigureStrips();
    OneKind(INDENTED_FIGURE);
  }

  lemma IndentedFigureStrips()
    ensures Strip(INDENTED_FIGURE) == "FIGURE: x {#fig:a} | y"
  {
    var line := INDENTED_FIGURE;
    assert StripRight(line) == line;
    assert line[1..] == "FIGURE: x {#fig:a} | y";
    assert StripLeft(line[1..]) == line[1..];
  }

  lemma FigureLabel(isWord: char -> bool)
    requires isWord('a') && !isWord('}')
    ensures LabelOf("FIGURE: x {#fig:a} | y", isWord) == Some("fig:a")
  {
    var line := "FIGURE: x {#fig:a} | y";
    assert line[10..12] == "{#" && line[12..16] == "fig:" && line[12..17] == "fig:a";
    assert WordRun(line, 17, isWord) == 0;
    assert WordRun(line, 16, isWord) == 1;
    OnlyBrace(line, 10, |line|, isWord);
  }

  /** The directives of a kind, by their lines: the counter counts them. */
  lemma {:induction false} CountAt(kind: Kind, lines: seq<string>) returns (at: seq<nat>)
    ensures Ascending(at) && |at| == Count(kind, lines)
    ensures forall i: nat :: i in at <==> i < |lines| && Keyword(kind) <= Strip(lines[i])
  {
    hide Ascending;
    hide Strip;
    at := [];
    if lines == [] {
      NothingAscends();
    } else {
      var n := |lines| - 1;
      var before := CountAt(kind, Front(lines));
      assert Count(kind, lines) == Count(kind, Front(lines)) + (if IsDirective(kind, lines[n]) then 1 else 0);
      hide Count;
      AscendingNext(before, n);
      at := if IsDirective(kind, lines[n]) then before + [n] else before;
      forall i: nat ensures i in at <==> i < |lines| && Keyword(kind) <= Strip(lines[i]) {
        if i < n {
          assert Front(lines)[i] == lines[i];
        }
      }
    }
  }

  /** What is printed for line i of a chapter: the line, with the chapter and the number of
      directives of its kind up to and including it. */
  ghost predicate PrintedFor(ch: nat, lines: seq<string>, i: nat, c: Caption) {
    && i < |lines| && KindOf(lines[i]) == Some(c.kind) && c.line == lines[i]
    && c.number == Number(ch, Count(c.kind, lines[..i + 1]))
  }

  lemma PrintedInFront(ch: nat, lines: seq<string>, i: nat, c: Caption)
    requires lines != [] && PrintedFor(ch, Front(lines), i, c)
    ensures PrintedFor(ch, lines, i, c)
  {
    hide KindOf;
    hide Count;
    assert Front(lines)[..i + 1] == lines[..i + 1];
  }

  /** The captions of a chapter, by their lines: one for each directive, in order. */
  lemma {:induction false} CaptionsAt(ch: nat, lines: seq<string>) returns (at: seq<nat>)
    ensures Ascending(at) && |at| == |Captions(ch, 0, 0, lines)|
    ensures forall i: nat :: i in at <==> i < |lines| && KindOf(lines[i]).Some?
    ensures forall j :: 0 <= j < |at| ==> PrintedFor(ch, lines, at[j], Captions(ch, 0, 0, lines)[j])
  {
    hide Ascending;
    hide KindOf;
    hide PrintedFor;
    at := [];
    if lines == [] {
      NothingAscends();
    } else {
      hide Captions;
      var n := |lines| - 1;
      hide Count;
      var before := CaptionsAt(ch, Front(lines));
      forall j | 0 <= j < |before| ensures PrintedFor(ch, lines, before[j], Captions(ch, 0, 0, Front(lines))[j]) {
        PrintedInFront(ch, lines, before[j], Captions(ch, 0, 0, Front(lines))[j]);
      }
      LastCaption(ch, lines);
      AscendingNext(before, n);
      at := if KindOf(lines[n]).Some? then before + [n] else before;
      forall i: nat ensures i in at <==> i < |lines| && KindOf(lines[i]).Some? {
        if i < n {
          assert Front(lines)[i] == lines[i];
        }
      }
      if KindOf(lines[n]).Some? {
        LastPrinted(ch, lines);
      }
    }
  }

  lemma LastPrinted(ch: nat, lines: seq<string>)
    requires lines != [] && KindOf(Last(lines)).Some?
    ensures Captions(ch, 0, 0, lines) != []
    ensures PrintedFor(ch, lines, |lines| - 1, Last(Captions(ch, 0, 0, lines)))
  {
    hide Captions;
    hide KindOf;
    hide Count;
    LastCaption(ch, lines);
  }

  lemma LastCaption(ch: nat, lines: seq<string>)
    requires lines != []
    ensures var n := |lines| - 1;
            var kind := KindOf(lines[n]);
            Captions(ch, 0, 0, lines) ==
            Captions(ch, 0, 0, Front(lines)) +
            (if kind.Some? then [Caption(lines[n], kind.value, Number(ch, Count(kind.value, lines[..n + 1])))] else [])
  {
    hide IsDirective;
    OneKind(lines[|lines| - 1]);
    assert lines[..|lines|] == lines;
  }

  // ---------------------------------------------------------------- the whole report

  /** One chapter file: its lines, its references in ascending order of their local number, and
      the local numbers that each bracket of its text cites. */
  datatype Part = Part(lines: seq<string>, refs: seq<(int, string)>, brackets: seq<seq<int>>)

  function AllLines(parts: seq<Part>): seq<string> {
    if parts == [] then [] else AllLines(parts[..|parts| - 1]) + parts[|parts| - 1].lines
  }

  function AllLabels(chapters: seq<seq<Part>>, isWord: char -> bool): map<string, Number> {
    if chapters == [] then map[]
    else
      var n := |chapters| - 1;
      Labelled(AllLabels(chapters[..n], isWord), n + 1, AllLines(chapters[n]), isWord)
  }

  function AllCaptions(chapters: seq<seq<Part>>): seq<Caption> {
    if chapters == [] then []
    else
      var n := |chapters| - 1;
      AllCaptions(chapters[..n]) + Captions(n + 1, 0, 0, AllLines(chapters[n]))
  }

  /** Of all lines of all chapters, line i of chapter c alone carries the label. */
  ghost predicate OnlyLabel(chapters: seq<seq<Part>>, isWord: char -> bool, c: nat, i: nat, tag: string) {
    && c < |chapters| && Labels(AllLines(chapters[c]), isWord, i, tag)
    && forall d: nat, j: nat :: d < |chapters| && Labels(AllLines(chapters[d]), isWord, j, tag) ==> d == c && j == i
  }

  lemma {:induction false} LabelOfReport(chapters: seq<seq<Part>>, isWord: char -> bool,
                                         c: nat, i: nat, tag: string)
    requires OnlyLabel(chapters, isWord, c, i, tag)
    ensures tag in AllLabels(chapters, isWord)
    ensures var lines := AllLines(chapters[c]);
            AllLabels(chapters, isWord)[tag] == Number(c + 1, Count0(KindAt0(lines[i]).value, lines[..i + 1]))
  {
    hide Labelled;
    hide AllLines;
    var n := |chapters| - 1;
    var before := AllLabels(chapters[..n], isWord);
    if c == n {
      LastLabelWins(before, n + 1, AllLines(chapters[n]), isWord, i, tag);
    } else {
      forall d: nat, j: nat | d < n && Labels(AllLines(chapters[..n][d]), isWord, j, tag) ensures d == c && j == i {
        assert Labels(AllLines(chapters[d]), isWord, j, tag);
      }
      LabelOfReport(chapters[..n], isWord, c, i, tag);
      UnlabelledKeeps(before, n + 1, AllLines(chapters[n]), isWord, tag);
    }
  }

  lemma {:induction false} ChapterInReport(chapters: seq<seq<Part>>, c: nat)
    requires c < |chapters|
    ensures AllCaptions(chapters[..c]) + Captions(c + 1, 0, 0, AllLines(chapters[c])) <= AllCaptions(chapters)
  {
    hide Captions;
    hide AllLines;
    var n := |chapters| - 1;
    if c < n {
      ChapterInReport(chapters[..n], c);
      assert chapters[..n][..c] == chapters[..c];
    }
  }

  /** Of all directives printed in all chapters, line i of chapter c alone carries the label. */
  ghost predicate OnlyCarrier(chapters: seq<seq<Part>>, isWord: char -> bool, c: nat, i: nat, tag: string) {
    && c < |chapters| && Carries(AllLines(chapters[c]), isWord, i, tag)
    && forall d: nat, j: nat :: d < |chapters| && Carries(AllLines(chapters[d]), isWord, j, tag) ==> d == c && j == i
  }

  lemma {:induction false} LabelNowhere(chapters: seq<seq<Part>>, isWord: char -> bool, tag: string)
    requires forall d: nat, j: nat :: d < |chapters| ==> !Labels(AllLines(chapters[d]), isWord, j, tag)
    ensures tag !in AllLabels(chapters, isWord)
  {
    hide Labelled;
    hide AllLines;
    hide Labels;
    if chapters != [] {
      var n := |chapters| - 1;
      forall d: nat, j: nat | d < n ensures !Labels(AllLines(chapters[..n][d]), isWord, j, tag) {
        assert !Labels(AllLines(chapters[d]), isWord, j, tag);
      }
      LabelNowhere(chapters[..n], isWord, tag);
      UnlabelledKeeps(AllLabels(chapters[..n], isWord), n + 1, AllLines(chapters[n]), isWord, tag);
    }
  }

  /** The whole report knows of a label what its chapter alone would know. */
  lemma LabelOfChapter(chapters: seq<seq<Part>>, isWord: char -> bool, c: nat, i: nat, tag: string)
    requires OnlyCarrier(chapters, isWord, c, i, tag)
    ensures var alone, all := Labelled(map[], c + 1, AllLines(chapters[c]), isWord), AllLabels(chapters, isWord);
            (tag in all <==> tag in alone) && (tag in all ==> all[tag] == alone[tag])
  {
    hide Labelled;
    hide AllLines;
    hide Labels;
    hide Carries;
    forall d: nat, j: nat | d < |chapters| && Labels(AllLines(chapters[d]), isWord, j, tag) ensures d == c && j == i {
      LabelIsCarried(AllLines(chapters[d]), isWord, j, tag);
    }
    if Labels(AllLines(chapters[c]), isWord, i, tag) {
      LabelOfReport(chapters, isWord, c, i, tag);
      LastLabelWins(map[], c + 1, AllLines(chapters[c]), isWord, i, tag);
    } else {
      LabelNowhere(chapters, isWord, tag);
      UnlabelledKeeps(map[], c + 1, AllLines(chapters[c]), isWord, tag);
    }
  }

  /** Forward references are right exactly where they can be: over all chapters and their files,
      the label of any directive that is printed resolves to the number printed under it if and
      only if no directive of its kind in its chapter up to and including it is indented. */
  lemma ForwardReferencesResolve(chapters: seq<seq<Part>>, isWord: char -> bool, c: nat, i: nat, tag: string)
    requires OnlyCarrier(chapters, isWord, c, i, tag)
    ensures var lines, all := AllLines(chapters[c]), AllCaptions(chapters);
            var at := |AllCaptions(chapters[..c])| + |Captions(c + 1, 0, 0, lines[..i])|;
            && at < |all| && all[at].line == lines[i]
            && all[at].number == Number(c + 1, Count(KindOf(lines[i]).value, lines[..i + 1]))
            && (ResolvesTo(AllLabels(chapters, isWord), tag, all[at].number) <==>
                  NoneIndented(KindOf(lines[i]).value, lines[..i + 1]))
  {
    hide Captions;
    hide AllLines;
    hide Labelled;
    hide Carries;
    hide KindOf;
    var lines, before := AllLines(chapters[c]), AllCaptions(chapters[..c]);
    var kind := PrintedKind(lines, isWord, i, tag);
    LabelOfChapter(chapters, isWord, c, i, tag);
    LabelIsPrintedNumber(map[], c + 1, lines, isWord, i, tag);
    ChapterInReport(chapters, c);
    var whole, at := before + Captions(c + 1, 0, 0, lines), |Captions(c + 1, 0, 0, lines[..i])|;
    assert AllCaptions(chapters)[|before| + at] == whole[|before| + at] == Captions(c + 1, 0, 0, lines)[at];
    CaptionAt(c + 1, lines, i, kind);
  }

  // ---------------------------------------------------------------- what the report cites

  function OrderOfParts(order: seq<string>, parts: seq<Part>, refKey: string -> string): seq<string> {
    if parts == [] then order
    else Deduped(OrderOfParts(order, parts[..|parts| - 1], refKey), parts[|parts| - 1].refs, refKey)
  }

  function AllReferences(chapters: seq<seq<Part>>, refKey: string -> string): seq<string> {
    if chapters == [] then []
    else OrderOfParts(AllReferences(chapters[..|chapters| - 1], refKey), chapters[|chapters| - 1], refKey)
  }

  function KeysOfPart(part: Part, refKey: string -> string): seq<set<string>> {
    seq(|part.brackets|, b requires 0 <= b < |part.brackets| => CitedKeys(part.refs, part.brackets[b], refKey))
  }

  function KeysOfParts(parts: seq<Part>, refKey: string -> string): seq<set<string>> {
    if parts == [] then []
    else KeysOfParts(parts[..|parts| - 1], refKey) + KeysOfPart(parts[|parts| - 1], refKey)
  }

  /** What the brackets of the report cite, one set of keys for each bracket. */
  function AllCited(chapters: seq<seq<Part>>, refKey: string -> string): seq<set<string>> {
    if chapters == [] then []
    else AllCited(chapters[..|chapters| - 1], refKey) + KeysOfParts(chapters[|chapters| - 1], refKey)
  }

  class Builder {
    const isWord: char -> bool
    const refKey: string -> string
    var ch: nat
    var figNo: nat
    var tabNo: nat
    var labels: map<string, Number>
    var refOrder: seq<string>
    var refIndex: map<string, nat>
    var localMap: map<int, nat>
    var printed: seq<Caption>
    var citations: seq<seq<nat>>      // the numbers printed for each bracket
    var missing: nat

    constructor (isWord: char -> bool, refKey: string -> string)
      ensures this.isWord == isWord && this.refKey == refKey
      ensures labels == map[] && refOrder == [] && refIndex == map[] && printed == [] && citations == []
    {
      this.isWord, this.refKey := isWord, refKey;
      ch, figNo, tabNo := 0, 0, 0;
      labels, refOrder, refIndex, localMap, printed, citations, missing := map[], [], map[], map[], [], [], 0;
    }

    method Prepass(ch: nat, lines: seq<string>)
      modifies `labels
      ensures labels == Labelled(old(labels), ch, lines, isWord)
    {
      hide IsDirective;
      var f, t := 0, 0;
      for i := 0 to |lines|
        invariant f == Count0(Figure, lines[..i]) && t == Count0(Table, lines[..i])
        invariant labels == Labelled(old(labels), ch, lines[..i], isWord)
      {
        var line := lines[i];
        assert lines[..i + 1][..i] == lines[..i];
        KindAt0Is(line, Figure);
        KindAt0Is(line, Table);
        var kind, m := KindAt0(line), LabelOf(line, isWord);
        if kind == Some(Figure) {
          f := f + 1;
          if m.Some? { labels := labels[m.value := Number(ch, f)]; }
        } else if kind == Some(Table) {
          t := t + 1;
          if m.Some? { labels := labels[m.value := Number(ch, t)]; }
        }
      }
      assert lines[..|lines|] == lines;
    }

    method Chapter(lines: seq<string>)
      modifies `figNo, `tabNo, `printed
      ensures figNo == old(figNo) + Count(Figure, lines) && tabNo == old(tabNo) + Count(Table, lines)
      ensures printed == old(printed) + Captions(ch, old(figNo), old(tabNo), lines)
    {
      hide Captions;
      hide Count;
      hide IsDirective;
      NothingYet(ch, figNo, tabNo);
      var i := 0;
      while i < |lines|
        invariant 0 <= i <= |lines|
        invariant figNo == old(figNo) + Count(Figure, lines[..i]) && tabNo == old(tabNo) + Count(Table, lines[..i])
        invariant printed == old(printed) + Captions(ch, old(figNo), old(tabNo), lines[..i])
      {
        var line := lines[i];
        OneKind(line);
        OneMoreLine(ch, old(figNo), old(tabNo), lines, i);
        if IsDirective(Table, line) {
          var start := i;
          i := SkipRows(lines, i + 1);
          PlainLines(ch, old(figNo), old(tabNo), lines, start + 1, i);
          tabNo := tabNo + 1;
          printed := printed + [Caption(line, Table, Number(ch, tabNo))];
          continue;
        }
        if IsDirective(Figure, line) {
          figNo := figNo + 1;
          printed := printed + [Caption(line, Figure, Number(ch, figNo))];
        }
        i := i + 1;
      }
      assert lines[..|lines|] == lines;
    }

    method RegisterRefs(refs: seq<(int, string)>)
      requires Indexed(refOrder, refIndex, refKey)
      modifies `refOrder, `refIndex, `localMap
      ensures Indexed(refOrder, refIndex, refKey)
      ensures refOrder == Deduped(old(refOrder), refs, refKey) && old(refOrder) <= refOrder
      ensures Local(localMap, refs, refIndex, refKey)
    {
      hide Indexed;
      hide Local;
      hide HasKey;
      localMap := map[];
      LocalNone(refIndex, refKey);
      for i := 0 to |refs|
        invariant Indexed(refOrder, refIndex, refKey)
        invariant refOrder == Deduped(old(refOrder), refs[..i], refKey) && old(refOrder) <= refOrder
        invariant Local(localMap, refs[..i], refIndex, refKey)
      {
        assert refs[..i + 1][..i] == refs[..i];
        var (n, text) := refs[i];
        var k := refKey(text);
        ghost var index := refIndex;
        KeyIndexed(refOrder, refIndex, refKey, k);
        if k !in refIndex {
          IndexedNext(refOrder, refIndex, refKey, text);
          refOrder := refOrder + [text];
          refIndex := refIndex[k := |refOrder|];
        }
        LocalNext(localMap, refs, i, index, refIndex, refKey);
        localMap := localMap[n := refIndex[k]];
      }
      assert refs[..|refs|] == refs;
    }

    /** The inner function cite of rewrite_refs, on the numbers of one bracket: a number without a
        reference is recorded as missing, the others are printed once each, in ascending order. */
    method Cite(refs: seq<(int, string)>, nums: seq<int>) returns (numbers: seq<nat>)
      requires Indexed(refOrder, refIndex, refKey) && Local(localMap, refs, refIndex, refKey)
      modifies `missing
      ensures CitesExactly(refOrder, numbers, CitedKeys(refs, nums, refKey), refKey)
      ensures forall i, j :: 0 <= i < j < |numbers| ==> numbers[i] < numbers[j]
      ensures forall g :: g in numbers ==>
                && 1 <= g <= |refOrder|
                && exists r :: r in refs && r.0 in nums && refKey(r.1) == refKey(refOrder[g - 1])
      ensures missing == old(missing) + Unresolved(refs, nums)
    {
      hide Indexed;
      hide Local;
      hide CitesExactly;
      hide CitedKeys;
      hide Finds;
      hide SortedSet;
      hide Ascending;
      hide TextOf;
      assert Unresolved(refs, nums[..0]) == 0;
      hide Unresolved;
      var found := [];
      assert Finds(found, localMap, []) by { NothingFound(localMap); }
      for i := 0 to |nums|
        invariant Finds(found, localMap, nums[..i])
        invariant missing == old(missing) + Unresolved(refs, nums[..i])
      {
        assert nums[..i + 1] == nums[..i] + [nums[i]];
        UnresolvedNext(refs, nums, i);
        LocalKnows(localMap, refs, refIndex, refKey, nums[i]);
        FindsNext(found, localMap, nums[..i], nums[i]);
        if nums[i] in localMap {
          found := found + [localMap[nums[i]]];
        } else {
          missing := missing + 1;
        }
      }
      assert nums[..|nums|] == nums;
      FoundIsExact(refOrder, refIndex, localMap, refs, nums, found, refKey);
      numbers := SortedSet(found);
      ExactOnRefs(refOrder, refs, nums, numbers, refKey);
    }

    /** The citations of one file, bracket by bracket. */
    method CiteAll(part: Part)
      requires Indexed(refOrder, refIndex, refKey) && Local(localMap, part.refs, refIndex, refKey)
      modifies `citations, `missing
      ensures old(citations) <= citations
      ensures AllExact(refOrder, citations[|old(citations)|..], KeysOfPart(part, refKey), refKey)
    {
      hide Indexed;
      hide Local;
      hide CitesExactly;
      hide CitedKeys;
      for b := 0 to |part.brackets|
        invariant old(citations) <= citations && |citations| == |old(citations)| + b
        invariant forall a :: 0 <= a < b ==> CitesExactly(refOrder, citations[|old(citations)| + a],
                                                          CitedKeys(part.refs, part.brackets[a], refKey), refKey)
      {
        var numbers := Cite(part.refs, part.brackets[b]);
        citations := citations + [numbers];
      }
    }

    /** The chapter loops of main. In the end the labels and the captions are those of the whole
        report, the bibliography is the report's references without repetition, and the numbers
        that were printed for each bracket, in however early a chapter, still name exactly the
        references it cites. */
    method Build(chapters: seq<seq<Part>>)
      requires labels == map[] && printed == [] && refOrder == [] && refIndex == map[] && citations == []
      modifies this
      ensures labels == AllLabels(chapters, isWord)
      ensures printed == AllCaptions(chapters)
      ensures refOrder == AllReferences(chapters, refKey)
      ensures AllExact(refOrder, citations, AllCited(chapters, refKey), refKey)
      ensures forall i, j :: 0 <= i < j < |refOrder| ==> refKey(refOrder[i]) != refKey(refOrder[j])
    {
      hide Labelled;
      hide Captions;
      hide Indexed;
      NoChapters(chapters, isWord, refKey);
      assert AllExact(refOrder, citations, [], refKey);
      hide AllExact;
      hide OrderOfParts;
      hide KeysOfParts;
      hide AllLines;
      hide AllLabels;
      hide AllCaptions;
      hide AllReferences;
      hide AllCited;
      assert Indexed(refOrder, refIndex, refKey) by { NoRefsYet(refKey); }
      for c := 0 to |chapters|
        invariant labels == AllLabels(chapters[..c], isWord)
        invariant printed == [] && refOrder == [] && refIndex == map[] && citations == []
      {
        OneMoreChapter(chapters, c, isWord, refKey);
        var lines := JoinLines(chapters[c]);
        Prepass(c + 1, lines);
      }
      assert chapters[..|chapters|] == chapters;
      for c := 0 to |chapters|
        invariant labels == AllLabels(chapters, isWord)
        invariant printed == AllCaptions(chapters[..c])
        invariant refOrder == AllReferences(chapters[..c], refKey)
        invariant AllExact(refOrder, citations, AllCited(chapters[..c], refKey), refKey)
        invariant Indexed(refOrder, refIndex, refKey)
      {
        OneMoreChapter(chapters, c, isWord, refKey);
        ghost var order, earlier := refOrder, citations;
        RenderChapter(c + 1, chapters[c]);
        ExactGrows(0, order, refOrder, earlier, citations, AllCited(chapters[..c], refKey),
                   KeysOfParts(chapters[c], refKey), refKey);
        assert earlier[0..] == earlier && citations[0..] == citations;
      }
      DistinctKeys(refOrder, refIndex, refKey);
    }

    /** One chapter of the rendering loop: the counters start over, but not between its files. */
    method RenderChapter(number: nat, parts: seq<Part>)
      requires Indexed(refOrder, refIndex, refKey)
      modifies `ch, `figNo, `tabNo, `printed, `refOrder, `refIndex, `localMap, `citations, `missing
      ensures Indexed(refOrder, refIndex, refKey)
      ensures printed == old(printed) + Captions(number, 0, 0, AllLines(parts))
      ensures refOrder == OrderOfParts(old(refOrder), parts, refKey)
      ensures old(refOrder) <= refOrder && old(citations) <= citations
      ensures AllExact(refOrder, citations[|old(citations)|..], KeysOfParts(parts, refKey), refKey)
    {
      hide Captions;
      hide Count;
      hide Indexed;
      hide Deduped;
      hide KeysOfPart;
      hide AllLines;
      hide OrderOfParts;
      hide KeysOfParts;
      NoParts(number, refOrder, parts, refKey);
      assert citations[|citations|..] == [];
      hide AllExact;
      ch, figNo, tabNo := number, 0, 0;
      for p := 0 to |parts|
        invariant ch == number
        invariant Indexed(refOrder, refIndex, refKey)
        invariant figNo == Count(Figure, AllLines(parts[..p])) && tabNo == Count(Table, AllLines(parts[..p]))
        invariant printed == old(printed) + Captions(number, 0, 0, AllLines(parts[..p]))
        invariant refOrder == OrderOfParts(old(refOrder), parts[..p], refKey)
        invariant old(refOrder) <= refOrder && old(citations) <= citations
        invariant AllExact(refOrder, citations[|old(citations)|..], KeysOfParts(parts[..p], refKey), refKey)
      {
        OneMorePart(number, old(refOrder), parts, p, refKey);
        ghost var order, earlier := refOrder, citations;
        RenderPart(parts[p]);
        ExactGrows(|old(citations)|, order, refOrder, earlier, citations, KeysOfParts(parts[..p], refKey),
                   KeysOfPart(parts[p], refKey), refKey);
      }
      assert parts[..|parts|] == parts;
    }

    /** One file of a chapter. */
    method RenderPart(part: Part)
      requires Indexed(refOrder, refIndex, refKey)
      modifies `figNo, `tabNo, `printed, `refOrder, `refIndex, `localMap, `citations, `missing
      ensures Indexed(refOrder, refIndex, refKey)
      ensures figNo == old(figNo) + Count(Figure, part.lines) && tabNo == old(tabNo) + Count(Table, part.lines)
      ensures printed == old(printed) + Captions(ch, old(figNo), old(tabNo), part.lines)
      ensures refOrder == Deduped(old(refOrder), part.refs, refKey)
      ensures old(refOrder) <= refOrder && old(citations) <= citations
      ensures AllExact(refOrder, citations[|old(citations)|..], KeysOfPart(part, refKey), refKey)
    {
      hide Captions;
      hide Count;
      hide Indexed;
      hide Deduped;
      hide AllExact;
      RegisterRefs(part.refs);
      Chapter(part.lines);
      CiteAll(part);
    }
  }

  /** The lines of all files of a chapter. */
  method JoinLines(parts: seq<Part>) returns (lines: seq<string>)
    ensures lines == AllLines(parts)
  {
    lines := [];
    for p := 0 to |parts|
      invariant lines == AllLines(parts[..p])
    {
      assert parts[..p + 1][..p] == parts[..p];
      lines := lines + parts[p].lines;
    }
    assert parts[..|parts|] == parts;
  }

  lemma NoChapters(chapters: seq<seq<Part>>, isWord: char -> bool, refKey: string -> string)
    ensures AllLabels(chapters[..0], isWord) == map[] && AllCaptions(chapters[..0]) == []
    ensures AllReferences(chapters[..0], refKey) == [] && AllCited(chapters[..0], refKey) == []
  {
  }

  lemma OneMoreChapter(chapters: seq<seq<Part>>, c: nat, isWord: char -> bool, refKey: string -> string)
    requires c < |chapters|
    ensures AllLabels(chapters[..c + 1], isWord) ==
            Labelled(AllLabels(chapters[..c], isWord), c + 1, AllLines(chapters[c]), isWord)
    ensures AllCaptions(chapters[..c + 1]) ==
            AllCaptions(chapters[..c]) + Captions(c + 1, 0, 0, AllLines(chapters[c]))
    ensures AllReferences(chapters[..c + 1], refKey) ==
            OrderOfParts(AllReferences(chapters[..c], refKey), chapters[c], refKey)
    ensures AllCited(chapters[..c + 1], refKey) == AllCited(chapters[..c], refKey) + KeysOfParts(chapters[c], refKey)
  {
    hide Labelled;
    hide Captions;
    hide AllLines;
    hide OrderOfParts;
    hide KeysOfParts;
    assert chapters[..c + 1][..c] == chapters[..c];
  }

  lemma NoParts(ch: nat, order: seq<string>, parts: seq<Part>, refKey: string -> string)
    ensures AllLines(parts[..0]) == [] && OrderOfParts(order, parts[..0], refKey) == order
    ensures KeysOfParts(parts[..0], refKey) == [] && Captions(ch, 0, 0, []) == []
    ensures Count(Figure, []) == 0 && Count(Table, []) == 0
  {
  }

  lemma OneMorePart(ch: nat, order: seq<string>, parts: seq<Part>, p: nat, refKey: string -> string)
    requires p < |parts|
    ensures var part, lines, lines' := parts[p], AllLines(parts[..p]), AllLines(parts[..p + 1]);
            && Count(Figure, lines') == Count(Figure, lines) + Count(Figure, part.lines)
            && Count(Table, lines') == Count(Table, lines) + Count(Table, part.lines)
            && Captions(ch, 0, 0, lines') ==
               Captions(ch, 0, 0, lines) + Captions(ch, Count(Figure, lines), Count(Table, lines), part.lines)
            && OrderOfParts(order, parts[..p + 1], refKey) ==
               Deduped(OrderOfParts(order, parts[..p], refKey), part.refs, refKey)
            && KeysOfParts(parts[..p + 1], refKey) == KeysOfParts(parts[..p], refKey) + KeysOfPart(part, refKey)
  {
    hide Captions;
    hide Count;
    hide Deduped;
    hide KeysOfPart;
    assert parts[..p + 1][..p] == parts[..p];
    CountConcat(Figure, AllLines(parts[..p]), parts[p].lines);
    CountConcat(Table, AllLines(parts[..p]), parts[p].lines);
    CaptionsConcat(ch, 0, 0, AllLines(parts[..p]), parts[p].lines);
  }

  lemma NothingYet(ch: nat, figNo: nat, tabNo: nat)
    ensures Captions(ch, figNo, tabNo, []) == [] && Count(Figure, []) == 0 && Count(Table, []) == 0
  {
  }

  lemma OneMoreLine(ch: nat, figNo: nat, tabNo: nat, lines: seq<string>, i: nat)
    requires i < |lines|
    ensures Captions(ch, figNo, tabNo, lines[..i + 1]) ==
            Captions(ch, figNo, tabNo, lines[..i]) +
            CaptionOf(ch, figNo + Count(Figure, lines[..i]), tabNo + Count(Table, lines[..i]), lines[i])
    ensures forall kind :: Count(kind, lines[..i + 1]) ==
                           Count(kind, lines[..i]) + (if IsDirective(kind, lines[i]) then 1 else 0)
  {
    hide IsDirective;
    assert lines[..i + 1][..i] == lines[..i];
  }

  predicate IsPlain(line: string) {
    !IsDirective(Figure, line) && !IsDirective(Table, line)
  }

  /** The cursor after the blank lines and the table rows that follow a TABLE directive. */
  method SkipRows(lines: seq<string>, from: nat) returns (i: nat)
    requires from <= |lines|
    ensures from <= i <= |lines| && forall k :: from <= k < i ==> IsPlain(lines[k])
  {
    hide Strip;
    i := from;
    while i < |lines| && Strip(lines[i]) == []
      invariant from <= i <= |lines| && forall k :: from <= k < i ==> IsPlain(lines[k])
    {
      i := i + 1;
    }
    while i < |lines| && "|" <= Strip(lines[i])
      invariant from <= i <= |lines| && forall k :: from <= k < i ==> IsPlain(lines[k])
    {
      assert forall kind :: IsDirective(kind, lines[i]) ==> Strip(lines[i])[0] == Keyword(kind)[0];
      i := i + 1;
    }
  }

  lemma {:induction false} PlainLines(ch: nat, figNo: nat, tabNo: nat, lines: seq<string>, a: nat, b: nat)
    requires a <= b <= |lines| && forall k :: a <= k < b ==> IsPlain(lines[k])
    ensures Captions(ch, figNo, tabNo, lines[..b]) == Captions(ch, figNo, tabNo, lines[..a])
    ensures Count(Figure, lines[..b]) == Count(Figure, lines[..a])
    ensures Count(Table, lines[..b]) == Count(Table, lines[..a])
    decreases b - a
  {
    if a < b {
      PlainLines(ch, figNo, tabNo, lines, a, b - 1);
      assert lines[..b][..b - 1] == lines[..b - 1];
      assert IsPlain(lines[b - 1]);
    }
  }
}
