/**
 What docs/report/src/build.py reads from a line of text: str.strip, and the label that the
 pre-pass's regular expression finds in a directive, `.*\{#((?:fig|tab):[\w\-]+)\}`. Which
 characters `\w` matches is a parameter; no line contains a line break, because the lines come
 from str.splitlines.
 */
module ReportText {
  import opened Options

  /** Python's str.isspace, on one character. */
  predicate IsSpace(c: char) {
    var n := c as int;
    || 9 <= n <= 13 || 28 <= n <= 32 || n == 0x85 || n == 0xA0 || n == 0x1680
    || 0x2000 <= n <= 0x200A || n == 0x2028 || n == 0x2029 || n == 0x202F || n == 0x205F || n == 0x3000
  }

  function StripLeft(s: string): string {
    if s != [] && IsSpace(s[0]) then StripLeft(s[1..]) else s
  }

  function StripRight(s: string): string {
    if s != [] && IsSpace(s[|s| - 1]) then StripRight(s[..|s| - 1]) else s
  }

  function Strip(s: string): string {
    StripLeft(StripRight(s))
  }

  lemma {:induction false} StripRightKeeps(s: string, k: nat)
    requires 0 < k <= |s| && !IsSpace(s[k - 1])
    ensures s[..k] <= StripRight(s)
  {
    if IsSpace(s[|s| - 1]) {
      StripRightKeeps(s[..|s| - 1], k);
      assert s[..|s| - 1][..k] == s[..k];
    }
  }

  // ---------------------------------------------------------------- labels

  /** The characters of the class [\w\-] from a position on. */
  function WordRun(line: string, from: nat, isWord: char -> bool): (n: nat)
    requires from <= |line|
    ensures from + n <= |line|
    decreases |line| - from
  {
    if from < |line| && (isWord(line[from]) || line[from] == '-') then 1 + WordRun(line, from + 1, isWord) else 0
  }

  /** The label that stands in braces at position p. */
  function LabelFrom(line: string, p: nat, isWord: char -> bool): Option<string> {
    if p + 6 <= |line| && line[p..p + 2] == "{#" && (line[p + 2..p + 6] == "fig:" || line[p + 2..p + 6] == "tab:") then
      var end := p + 6 + WordRun(line, p + 6, isWord);
      if p + 6 < end < |line| && line[end] == '}' then Some(line[p + 2..end]) else None
    else None
  }

  function LastLabel(line: string, before: nat, isWord: char -> bool): Option<string> {
    if before == 0 then None
    else
      var last := LabelFrom(line, before - 1, isWord);
      if last.Some? then last else LastLabel(line, before - 1, isWord)
  }

  /** The last label of the line: `.*` takes as much as it can. */
  function LabelOf(line: string, isWord: char -> bool): Option<string> {
    LastLabel(line, |line|, isWord)
  }

  /** Either the run ends before the last character in both lines, or neither has a closing brace
      after it. */
  lemma {:induction false} RunWithoutLast(line: string, from: nat, isWord: char -> bool)
    requires line != [] && from < |line|
    ensures var n, run, run' := |line| - 1, WordRun(line, from, isWord), WordRun(line[..|line| - 1], from, isWord);
            if from + run' < n then run == run' else from + run >= n
    decreases |line| - from
  {
    if from < |line| - 1 {
      RunWithoutLast(line, from + 1, isWord);
    }
  }

  lemma LabelFromWithoutLast(line: string, p: nat, isWord: char -> bool)
    requires line != [] && IsSpace(line[|line| - 1])
    ensures LabelFrom(line, p, isWord) == LabelFrom(line[..|line| - 1], p, isWord)
  {
    var n := |line| - 1;
    if p + 6 <= n {
      hide WordRun;
      RunWithoutLast(line, p + 6, isWord);
      assert line[..n][p..p + 2] == line[p..p + 2] && line[..n][p + 2..p + 6] == line[p + 2..p + 6];
      var end := p + 6 + WordRun(line[..n], p + 6, isWord);
      if end < n {
        assert line[..n][p + 2..end] == line[p + 2..end];
      }
    } else if p + 6 == |line| {
      assert line[p + 2..p + 6][3] == line[n];
    }
  }

  lemma {:induction false} LastLabelWithoutLast(line: string, before: nat, isWord: char -> bool)
    requires line != [] && IsSpace(line[|line| - 1])
    ensures LastLabel(line, before, isWord) == LastLabel(line[..|line| - 1], before, isWord)
  {
    hide LabelFrom;
    if before > 0 {
      LabelFromWithoutLast(line, before - 1, isWord);
      LastLabelWithoutLast(line, before - 1, isWord);
    }
  }

  /** White space at the end of a line hides no label and makes none. */
  lemma {:induction false} LabelOfStripped(line: string, isWord: char -> bool)
    ensures LabelOf(StripRight(line), isWord) == LabelOf(line, isWord)
  {
    hide LabelFrom;
    if line != [] && IsSpace(line[|line| - 1]) {
      var front := line[..|line| - 1];
      LabelOfStripped(front, isWord);
      LastLabelWithoutLast(line, |line|, isWord);
      assert LabelFrom(front, |front|, isWord).None? by { NothingAtEnd(front, isWord); }
    }
  }

  lemma NothingAtEnd(line: string, isWord: char -> bool)
    ensures LabelFrom(line, |line|, isWord).None?
  {
  }

  /** With one opening brace in the line, the label is the one that stands there. */
  lemma {:induction false} OnlyBrace(line: string, p: nat, before: nat, isWord: char -> bool)
    requires p < before <= |line| && LabelFrom(line, p, isWord).Some?
    requires forall q :: p < q < before ==> line[q] != '{'
    ensures LastLabel(line, before, isWord) == LabelFrom(line, p, isWord)
  {
    if p < before - 1 {
      if before + 1 <= |line| {
        assert line[before - 1..before + 1][0] == line[before - 1];
      }
      OnlyBrace(line, p, before - 1, isWord);
    }
  }

  /** strip removes the white space at both ends and nothing else. */
  lemma StripIs(s: string) returns (before: string, after: string)
    ensures s == before + Strip(s) + after
    ensures forall c :: c in before || c in after ==> IsSpace(c)
    ensures Strip(s) != [] ==> !IsSpace(Strip(s)[0]) && !IsSpace(Strip(s)[|Strip(s)| - 1])
  {
    after := RightStripped(s);
    before := LeftStripped(StripRight(s));
    var left, t := StripRight(s), Strip(s);
    assert left == before + t;
    if t != [] {
      assert left[|left| - 1] == t[|t| - 1];
    }
  }

  lemma {:induction false} RightStripped(s: string) returns (after: string)
    ensures s == StripRight(s) + after && forall c :: c in after ==> IsSpace(c)
    ensures StripRight(s) != [] ==> !IsSpace(StripRight(s)[|StripRight(s)| - 1])
  {
    after := [];
    if s != [] && IsSpace(s[|s| - 1]) {
      var more := RightStripped(s[..|s| - 1]);
      after := more + [s[|s| - 1]];
    }
  }

  lemma {:induction false} LeftStripped(s: string) returns (before: string)
    ensures s == before + StripLeft(s) && forall c :: c in before ==> IsSpace(c)
    ensures StripLeft(s) != [] ==> !IsSpace(StripLeft(s)[0])
  {
    before := [];
    if s != [] && IsSpace(s[0]) {
      var more := LeftStripped(s[1..]);
      before := [s[0]] + more;
      assert s == [s[0]] + s[1..];
    }
  }

  lemma BracesAround(line: string, p: nat, end: nat)
    requires p + 2 <= end < |line| && line[p..p + 2] == "{#" && line[end] == '}'
    ensures line[p..end + 1] == "{#" + line[p + 2..end] + "}"
  {
    assert line[p..end + 1] == line[p..p + 2] + line[p + 2..end] + line[end..end + 1];
  }

  /** A label stands in braces after a hash sign, as `fig:` or `tab:` and a word. */
  lemma LabelFromIs(line: string, p: nat, isWord: char -> bool, tag: string)
    requires LabelFrom(line, p, isWord) == Some(tag)
    ensures |tag| > 4 && (tag[..4] == "fig:" || tag[..4] == "tab:")
    ensures p + |tag| + 3 <= |line| && line[p..p + |tag| + 3] == "{#" + tag + "}"
    ensures forall i :: 4 <= i < |tag| ==> isWord(tag[i]) || tag[i] == '-'
  {
    var n := WordRun(line, p + 6, isWord);
    var end := p + 6 + n;
    RunIsWord(line, p + 6, isWord);
    hide WordRun;
    assert tag == line[p + 2..end] && p + |tag| + 3 == end + 1;
    assert tag[..4] == line[p + 2..p + 6];
    BracesAround(line, p, end);
  }

  /** Whatever stands so is a label. */
  lemma LabelIsFound(line: string, p: nat, isWord: char -> bool, tag: string)
    requires !isWord('}') && |tag| > 4 && (tag[..4] == "fig:" || tag[..4] == "tab:")
    requires p + |tag| + 3 <= |line| && line[p..p + |tag| + 3] == "{#" + tag + "}"
    requires forall i :: 4 <= i < |tag| ==> isWord(tag[i]) || tag[i] == '-'
    ensures LabelFrom(line, p, isWord) == Some(tag)
  {
    var text := "{#" + tag + "}";
    var end := p + |tag| + 2;
    forall q | p <= q < p + |text| ensures line[q] == text[q - p] {
      assert line[p..p + |tag| + 3][q - p] == line[q];
    }
    forall q | p + 2 <= q < end ensures line[q] == tag[q - p - 2] {
      assert text[q - p] == tag[q - p - 2];
    }
    assert line[p..p + 2] == "{#";
    assert line[p + 2..end] == tag;
    assert line[p + 2..p + 6] == tag[..4];
    assert line[end] == text[|tag| + 2];
    forall i | p + 6 <= i < end ensures isWord(line[i]) || line[i] == '-' {
      assert line[i] == tag[i - p - 2];
    }
    RunEnds(line, p + 6, end, isWord);
  }

  lemma {:induction false} RunEnds(line: string, from: nat, end: nat, isWord: char -> bool)
    requires from <= end < |line| && line[end] == '}' && !isWord('}')
    requires forall i :: from <= i < end ==> isWord(line[i]) || line[i] == '-'
    ensures WordRun(line, from, isWord) == end - from
    decreases end - from
  {
    if from < end {
      RunEnds(line, from + 1, end, isWord);
    }
  }

  lemma {:induction false} RunIsWord(line: string, from: nat, isWord: char -> bool)
    requires from <= |line|
    ensures forall i :: from <= i < from + WordRun(line, from, isWord) ==> isWord(line[i]) || line[i] == '-'
    decreases |line| - from
  {
    if from < |line| {
      RunIsWord(line, from + 1, isWord);
    }
  }

  /** The label of a line stands somewhere in it, and no other one stands after it. */
  lemma {:induction false} LabelIsLast(line: string, before: nat, isWord: char -> bool) returns (p: nat)
    requires before <= |line|
    ensures LastLabel(line, before, isWord).Some? ==>
              p < before && LabelFrom(line, p, isWord) == LastLabel(line, before, isWord)
    ensures forall q :: (if LastLabel(line, before, isWord).Some? then p else -1) < q < before ==>
                          q >= 0 && LabelFrom(line, q, isWord).None?
  {
    hide LabelFrom;
    p := 0;
    if before > 0 {
      if LabelFrom(line, before - 1, isWord).Some? {
        p := before - 1;
      } else {
        p := LabelIsLast(line, before - 1, isWord);
      }
    }
  }
}
