/** Merging the gcov files of one source file, as `scan_gcov_files` in `cov.py` does. */
module Coverage {

  /** The first field of a gcov line: "-", "#####" or a number. */
  datatype Info = Dash | Hashes | Count(n: nat)

  /** A gcov line: its first field, what follows the first colon, and the source code in its last field. */
  datatype GcovLine = GcovLine(info: Info, rest: string, code: string)

  type GcovFile = seq<GcovLine>

  const STATE_NOT_CODE := -1
  const STATE_NOT_SEEN := -2
  const STATE_TEST_CODE := -3

  /** How the annotated line is marked: "?????", "+", "-", "#####" or a number. */
  datatype Mark = Unseen | TestCode | NotCode | Missed | Hits(n: int)

  // ----- Specification -----

  /** A unit-test region has been opened on this line or an earlier one. It is never left again. */
  predicate InTestCode(file: GcovFile, i: nat)
    requires i < |file|
  {
    exists j :: 0 <= j <= i && "#ifdef BUILD_UNIT_TESTS" <= file[j].code
  }

  predicate HasNumber(line: GcovLine) {
    !line.info.Dash?
  }

  function Number(line: GcovLine): nat {
    if line.info.Count? then line.info.n else 0
  }

  /** The numbers that files of length `n` give for line `i`: how many, and their sum. */
  function Numbers(files: seq<GcovFile>, n: nat, i: nat): nat
    requires i < n
  {
    if files == [] then 0
    else
      var last := files[|files| - 1];
      Numbers(files[..|files| - 1], n, i) + (if |last| == n && HasNumber(last[i]) then 1 else 0)
  }

  function Sum(files: seq<GcovFile>, n: nat, i: nat): nat
    requires i < n
  {
    if files == [] then 0
    else
      var last := files[|files| - 1];
      Sum(files[..|files| - 1], n, i) + (if |last| == n then Number(last[i]) else 0)
  }

  /** How line `i` is to be marked: by the sum of its numbers, if there are any. */
  function MarkOf(files: seq<GcovFile>, i: nat): Mark
    requires |files| >= 1 && i < |files[0]|
  {
    var n := |files[0]|;
    if InTestCode(files[0], i) then TestCode
    else if Numbers(files, n, i) == 0 then NotCode
    else if Sum(files, n, i) == 0 then Missed
    else Hits(Sum(files, n, i))
  }

  function Marks(files: seq<GcovFile>): (r: seq<Mark>)
    requires |files| >= 1
    ensures |r| == |files[0]|
  {
    seq(|files[0]|, i requires 0 <= i < |files[0]| => MarkOf(files, i))
  }

  function TotalLines(marks: seq<Mark>): nat {
    if marks == [] then 0
    else
      var last := marks[|marks| - 1];
      TotalLines(marks[..|marks| - 1]) + (if last.Missed? || last.Hits? then 1 else 0)
  }

  function CoveredLines(marks: seq<Mark>): nat {
    if marks == [] then 0
    else
      var last := marks[|marks| - 1];
      CoveredLines(marks[..|marks| - 1]) + (if last.Hits? then 1 else 0)
  }

  /** The state of line `i` after some of the files have been merged. */
  function StateOf(first: GcovFile, merged: seq<GcovFile>, i: nat): int
    requires i < |first|
  {
    var n := |first|;
    if InTestCode(first, i) then STATE_TEST_CODE
    else if Numbers(merged, n, i) > 0 then Sum(merged, n, i)
    else if exists k :: 0 <= k < |merged| && |merged[k]| == n then STATE_NOT_CODE
    else STATE_NOT_SEEN
  }

  // ----- The program -----

  method ParseSourceFile(file: GcovFile) returns (states: array<int>)
    ensures fresh(states) && states.Length == |file|
    ensures forall i :: 0 <= i < |file| ==> states[i] == StateOf(file, [], i)
  {
    states := new int[|file|];
    var inTestCode := false;
    var nesting := 0;
    for i := 0 to |file|
      invariant inTestCode <==> exists j :: 0 <= j < i && "#ifdef BUILD_UNIT_TESTS" <= file[j].code
      invariant forall j :: 0 <= j < i ==> states[j] == StateOf(file, [], j)
    {
      var code := file[i].code;
      if !inTestCode && "#ifdef BUILD_UNIT_TESTS" <= code {
        inTestCode := true;
      }
      if inTestCode && "#if" <= code {
        nesting := nesting + 1;
      }
      if inTestCode && "#endif" <= code {
        nesting := nesting - 1;
        if nesting == 0 {
          inTestCode := true;
        }
      }
      states[i] := if inTestCode then STATE_TEST_CODE else STATE_NOT_SEEN;
    }
  }

  /** Merging one file: the inner loop over its lines. */
  method MergeFile(states: array<int>, first: GcovFile, ghost merged: seq<GcovFile>, file: GcovFile)
    requires states.Length == |first|
    requires forall i :: 0 <= i < |first| ==> states[i] == StateOf(first, merged, i)
    modifies states
    ensures forall i :: 0 <= i < |first| ==> states[i] == StateOf(first, merged + [file], i)
  {
    if |file| != |first| {
      forall i | 0 <= i < |first| ensures StateOf(first, merged + [file], i) == StateOf(first, merged, i) {
        OtherLengthChangesNothing(first, merged, file, i);
      }
      return;
    }
    for i := 0 to |file|
      invariant forall j :: 0 <= j < i ==> states[j] == StateOf(first, merged + [file], j)
      invariant forall j :: i <= j < |first| ==> states[j] == StateOf(first, merged, j)
    {
      MergeLine(first, merged, file, i);
      if states[i] != STATE_TEST_CODE {
        if file[i].info.Dash? {
          if states[i] == STATE_NOT_SEEN {
            states[i] := STATE_NOT_CODE;
          }
        } else {
          var num := if file[i].info.Hashes? then 0 else file[i].info.n;
          if states[i] == STATE_NOT_SEEN || states[i] == STATE_NOT_CODE {
            states[i] := 0;
          }
          states[i] := states[i] + num;
        }
      }
    }
  }

  method ScanGcovFiles(files: seq<GcovFile>) returns (totalLines: nat, totalCovered: nat, annotated: seq<(Mark, string)>)
    requires |files| >= 1
    ensures |annotated| == |files[0]|
    ensures forall i :: 0 <= i < |files[0]| ==> annotated[i] == (MarkOf(files, i), files[0][i].rest)
    ensures totalLines == TotalLines(Marks(files)) && totalCovered == CoveredLines(Marks(files))
  {
    var first := files[0];
    var states := ParseSourceFile(first);
    for k := 0 to |files|
      invariant fresh(states) && states.Length == |first|
      invariant forall i :: 0 <= i < |first| ==> states[i] == StateOf(first, files[..k], i)
    {
      MergeFile(states, first, files[..k], files[k]);
      assert files[..k + 1] == files[..k] + [files[k]];
    }
    assert files[..|files|] == files;
    totalLines, totalCovered, annotated := PostProcess(files, states);
  }

  /** Lines 178 to 196 of `scan_gcov_files`. */
  method PostProcess(files: seq<GcovFile>, states: array<int>)
    returns (totalLines: nat, totalCovered: nat, annotated: seq<(Mark, string)>)
    requires |files| >= 1 && states.Length == |files[0]|
    requires forall i :: 0 <= i < |files[0]| ==> states[i] == StateOf(files[0], files, i)
    ensures |annotated| == |files[0]|
    ensures forall i :: 0 <= i < |files[0]| ==> annotated[i] == (MarkOf(files, i), files[0][i].rest)
    ensures totalLines == TotalLines(Marks(files)) && totalCovered == CoveredLines(Marks(files))
  {
    hide MarkOf, StateOf, TotalLines, CoveredLines;
    totalLines, totalCovered := 0, 0;
    annotated := [];
    ghost var marks := Marks(files);
    NoMarks(marks);
    for i := 0 to |files[0]|
      invariant |annotated| == i
      invariant forall j :: 0 <= j < i ==> annotated[j] == (MarkOf(files, j), files[0][j].rest)
      invariant totalLines == TotalLines(marks[..i]) && totalCovered == CoveredLines(marks[..i])
    {
      var state := states[i];
      var desc;
      FinalState(files, i);
      OneMoreMark(marks, i);
      if state == STATE_NOT_SEEN {
        desc := Unseen;
      } else if state == STATE_TEST_CODE {
        desc := TestCode;
      } else if state == STATE_NOT_CODE {
        desc := NotCode;
      } else if state == 0 {
        desc := Missed;
        totalLines := totalLines + 1;
      } else {
        desc := Hits(state);
        totalLines := totalLines + 1;
        totalCovered := totalCovered + 1;
      }
      annotated := annotated + [(desc, files[0][i].rest)];
    }
  }

  lemma NoMarks(marks: seq<Mark>)
    ensures TotalLines(marks[..0]) == CoveredLines(marks[..0]) == 0
    ensures marks[..|marks|] == marks
  {
  }

  lemma OtherLengthChangesNothing(first: GcovFile, merged: seq<GcovFile>, file: GcovFile, i: nat)
    requires i < |first| && |file| != |first|
    ensures StateOf(first, merged + [file], i) == StateOf(first, merged, i)
  {
    var more := merged + [file];
    assert more[..|merged|] == merged;
    if exists k :: 0 <= k < |merged| && |merged[k]| == |first| {
      var k :| 0 <= k < |merged| && |merged[k]| == |first|;
      assert more[k] == merged[k];
    }
  }

  /** What one line of one file does to the state of that line. */
  lemma MergeLine(first: GcovFile, merged: seq<GcovFile>, file: GcovFile, i: nat)
    requires i < |first| == |file|
    ensures var before, after := StateOf(first, merged, i), StateOf(first, merged + [file], i);
            after ==
            if before == STATE_TEST_CODE then before
            else if file[i].info.Dash? then if before == STATE_NOT_SEEN then STATE_NOT_CODE else before
            else (if before < 0 then 0 else before) + Number(file[i])
  {
    var more := merged + [file];
    assert more[..|merged|] == merged && more[|merged|] == file;
    NoNumbersNoSum(merged, |first|, i);
  }

  lemma {:induction false} NoNumbersNoSum(files: seq<GcovFile>, n: nat, i: nat)
    requires i < n
    ensures Numbers(files, n, i) == 0 ==> Sum(files, n, i) == 0
  {
    if files != [] {
      NoNumbersNoSum(files[..|files| - 1], n, i);
    }
  }

  function MarkOfState(state: int): Mark {
    if state == STATE_NOT_SEEN then Unseen
    else if state == STATE_TEST_CODE then TestCode
    else if state == STATE_NOT_CODE then NotCode
    else if state == 0 then Missed
    else Hits(state)
  }

  /** The first file takes part, so no line stays unseen. */
  lemma FinalState(files: seq<GcovFile>, i: nat)
    requires |files| >= 1 && i < |files[0]|
    ensures MarkOfState(StateOf(files[0], files, i)) == MarkOf(files, i) != Unseen
  {
    assert |files[0]| == |files[0]|;
  }

  lemma OneMoreMark(marks: seq<Mark>, i: nat)
    requires i < |marks|
    ensures TotalLines(marks[..i + 1]) == TotalLines(marks[..i]) + (if marks[i].Missed? || marks[i].Hits? then 1 else 0)
    ensures CoveredLines(marks[..i + 1]) == CoveredLines(marks[..i]) + (if marks[i].Hits? then 1 else 0)
  {
    assert marks[..i + 1][..i] == marks[..i];
  }

  // ----- Marks, told from the gcov fields -----

  /** The mark that a count gives. */
  function CountMark(n: nat): Mark {
    if n == 0 then Missed else Hits(n)
  }

  /** With one file a line is marked as gcov marked it, unless it is test code. */
  lemma OneFileMark(file: GcovFile, i: nat)
    requires i < |file|
    ensures MarkOf([file], i) ==
            if exists j :: 0 <= j <= i && "#ifdef BUILD_UNIT_TESTS" <= file[j].code then TestCode
            else
              match file[i].info
              case Dash => NotCode
              case Hashes => Missed
              case Count(n) => CountMark(n)
  {
    var files := [file];
    assert files[..0] == [] && files[0] == file;
    assert Numbers(files, |file|, i) == if file[i].info.Dash? then 0 else 1;
    assert Sum(files, |file|, i) == Number(file[i]);
    assert InTestCode(file, i) <==> exists j :: 0 <= j <= i && "#ifdef BUILD_UNIT_TESTS" <= file[j].code;
  }

  /** One more file of equal length adds its count to that of the line, and makes code of it if it was none. */
  lemma OneMoreFileMark(files: seq<GcovFile>, file: GcovFile, i: nat)
    requires |files| >= 1 && i < |files[0]|
    ensures var before, after := MarkOf(files, i), MarkOf(files + [file], i);
            var hits := if before.Hits? then before.n else 0;
            after ==
            if before == TestCode || |file| != |files[0]| then before
            else
              match file[i].info
              case Dash => before
              case Hashes => if before == NotCode then Missed else before
              case Count(n) => if hits + n == 0 then Missed else Hits(hits + n)
  {
    var more := files + [file];
    assert more[..|files|] == files && more[|files|] == file && more[0] == files[0];
    NoNumbersNoSum(files, |files[0]|, i);
  }

  predicate IsCovered(m: Mark) {
    m.Hits?
  }

  predicate IsCode(m: Mark) {
    m.Hits? || m.Missed?
  }

  /** The lines whose mark satisfies `p`. */
  function Where(marks: seq<Mark>, p: Mark -> bool): set<nat> {
    set i | 0 <= i < |marks| && p(marks[i])
  }

  lemma WhereMore(marks: seq<Mark>, p: Mark -> bool)
    requires marks != []
    ensures var n := |marks| - 1;
            |Where(marks, p)| == |Where(marks[..n], p)| + if p(marks[n]) then 1 else 0
  {
    var n := |marks| - 1;
    assert Where(marks, p) == Where(marks[..n], p) + if p(marks[n]) then {n} else {};
  }

  /** The totals are numbers of lines. */
  lemma {:induction false} TotalsCountLines(marks: seq<Mark>)
    ensures CoveredLines(marks) == |Where(marks, IsCovered)|
    ensures TotalLines(marks) == |Where(marks, IsCode)|
  {
    hide Where;
    if marks == [] {
      NoneWhere(IsCovered);
      NoneWhere(IsCode);
    } else {
      TotalsCountLines(marks[..|marks| - 1]);
      WhereMore(marks, IsCovered);
      WhereMore(marks, IsCode);
    }
  }

  lemma NoneWhere(p: Mark -> bool)
    ensures Where([], p) == {}
  {
  }

  // ----- Properties of the merge -----

  /** Which file comes after the first in which place makes no difference. */
  lemma OrderDoesNotMatter(files: seq<GcovFile>, files': seq<GcovFile>)
    requires |files| >= 1 && |files'| >= 1 && files[0] == files'[0]
    requires multiset(files) == multiset(files')
    ensures Marks(files) == Marks(files')
  {
    forall i | 0 <= i < |files[0]| ensures MarkOf(files, i) == MarkOf(files', i) {
      SameNumbers(files, files', |files[0]|, i);
    }
  }

  lemma {:induction false} SameNumbers(a: seq<GcovFile>, b: seq<GcovFile>, n: nat, i: nat)
    requires i < n && multiset(a) == multiset(b)
    ensures Numbers(a, n, i) == Numbers(b, n, i) && Sum(a, n, i) == Sum(b, n, i)
    decreases |a|
  {
    hide Numbers, Sum;
    if a == [] {
      assert b == [];
    }
    assert |a| == |multiset(a)| == |multiset(b)| == |b|;
    if a != [] {
      var m := |a| - 1;
      assert a[m] in multiset(b);
      var j :| 0 <= j < |b| && b[j] == a[m];
      Without(a, m);
      Without(b, j);
      var rest := b[..j] + b[j + 1..];
      assert a[..m] + a[m + 1..] == a[..m];
      SameNumbers(a[..m], rest, n, i);
      TakeOut(a, n, i, m);
      TakeOut(b, n, i, j);
    }
  }

  lemma Without(s: seq<GcovFile>, j: nat)
    requires j < |s|
    ensures multiset(s[..j] + s[j + 1..]) == multiset(s) - multiset{s[j]}
  {
    assert s == s[..j] + [s[j]] + s[j + 1..];
  }

  lemma {:induction false} TakeOut(b: seq<GcovFile>, n: nat, i: nat, j: nat)
    requires i < n && j < |b|
    ensures var rest := b[..j] + b[j + 1..];
            Numbers(b, n, i) == Numbers(rest, n, i) + Numbers([b[j]], n, i) &&
            Sum(b, n, i) == Sum(rest, n, i) + Sum([b[j]], n, i)
    decreases |b|
  {
    var m := |b| - 1;
    var rest := b[..j] + b[j + 1..];
    assert [b[j]][..0] == [];
    if j == m {
      assert rest == b[..m];
    } else {
      TakeOut(b[..m], n, i, j);
      assert rest[..m - 1] == b[..m][..j] + b[..m][j + 1..];
      assert rest[m - 1] == b[m];
    }
  }

  lemma {:induction false} CoveredWithinTotal(marks: seq<Mark>)
    ensures CoveredLines(marks) <= TotalLines(marks) <= |marks|
  {
    if marks != [] {
      CoveredWithinTotal(marks[..|marks| - 1]);
    }
  }

  /** One more file never takes coverage away, nor any line out of the total. */
  lemma MoreFilesCoverMore(files: seq<GcovFile>, file: GcovFile)
    requires |files| >= 1
    ensures CoveredLines(Marks(files)) <= CoveredLines(Marks(files + [file]))
    ensures TotalLines(Marks(files)) <= TotalLines(Marks(files + [file]))
  {
    var more := files + [file];
    assert more[..|files|] == files && more[0] == files[0];
    forall i | 0 <= i < |files[0]|
      ensures Marks(files)[i].Hits? ==> Marks(more)[i].Hits?
      ensures Marks(files)[i].Missed? ==> Marks(more)[i].Missed? || Marks(more)[i].Hits?
    {
      assert more[|more| - 1] == file;
    }
    MarksMonotone(Marks(files), Marks(more));
  }

  lemma {:induction false} MarksMonotone(a: seq<Mark>, b: seq<Mark>)
    requires |a| == |b|
    requires forall i :: 0 <= i < |a| ==> a[i].Hits? ==> b[i].Hits?
    requires forall i :: 0 <= i < |a| ==> a[i].Missed? ==> b[i].Missed? || b[i].Hits?
    ensures CoveredLines(a) <= CoveredLines(b) && TotalLines(a) <= TotalLines(b)
  {
    if a != [] {
      var m := |a| - 1;
      MarksMonotone(a[..m], b[..m]);
    }
  }
}
