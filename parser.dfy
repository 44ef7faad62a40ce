/**
 * The exam-file reader: a line-by-line state machine that collects the
 * translation items of each direction from a tagged text file.
 *
 * `ParseExam` is the loop as the program runs it, over the file's lines.
 * `ExamSpec` says directly what the outcome must be, in terms of where the
 * markers stand in the file; the two are proved equal, and the properties of
 * the format are proved about `ExamSpec`.
 */
module ExamParser {
  import opened Wrappers
  import opened Text

  /** The two translation directions, the keys of the result. */
  const ValidTasks: set<string> := {"zh_en", "en_zh"}

  /** One line to translate: its stripped text and its 1-based line number. */
  datatype ExamItem = ExamItem(source: string, lineNo: int)

  /** The items of each direction, keyed by direction. */
  datatype ParseResult = ParseResult(tasks: map<string, seq<ExamItem>>)

  /** The two ways a file can be malformed. */
  datatype ParseError =
    | MissingExamEnd        // `<exam>` was seen, but the lines ran out before `</exam>`
    | MissingExamContainer  // no `<exam>` before the end of the exam (or of the file)

  /** What a stripped line is, as far as the markers go. */
  datatype LineKind =
    | ExamStart              // `<exam>`
    | ExamEnd                // `</exam>`
    | TaskStart(task: string) // `<zh_en>` or `<en_zh>`, carrying the direction it opens
    | TaskEnd                // `</zh_en>` or `</en_zh>`
    | Body                   // anything else

  /**
   * The marker comparisons the reader makes on a stripped line, in its
   * order. A task-opening marker opens the direction named by the marker
   * without its first and last character. (Its properties are in `ClassifySpec`.)
   */
  function Classify(s: string): LineKind {
    if s == "<exam>" then ExamStart
    else if s == "</exam>" then ExamEnd
    else if s == "<zh_en>" then TaskStart("zh_en")
    else if s == "<en_zh>" then TaskStart("en_zh")
    else if s == "</zh_en>" || s == "</en_zh>" then TaskEnd
    else Body
  }

  /** The six markers. */
  const Markers: set<string> := {"<exam>", "</exam>", "<zh_en>", "<en_zh>", "</zh_en>", "</en_zh>"}

  /** `Classify` tells the six markers apart and calls everything else `Body`. */
  lemma ClassifySpec(s: string)
    ensures Classify(s) == ExamStart <==> s == "<exam>"
    ensures Classify(s) == ExamEnd <==> s == "</exam>"
    ensures Classify(s).TaskStart? <==> s == "<zh_en>" || s == "<en_zh>"
    ensures Classify(s).TaskStart? ==> Classify(s).task in ValidTasks && Classify(s).task == s[1..|s| - 1]
    ensures Classify(s) == TaskEnd <==> s == "</zh_en>" || s == "</en_zh>"
    ensures Classify(s) == Body <==> s !in Markers
  {
    assert "<zh_en>"[1..6] == "zh_en";
    assert "<en_zh>"[1..6] == "en_zh";
  }

  /** A line that changes which direction, if any, collects the lines after it. */
  predicate IsStructural(k: LineKind) {
    k.ExamStart? || k.TaskStart? || k.TaskEnd?
  }

  /** A stripped line that is collected when a direction is open: not blank, not a comment, not a marker. */
  predicate IsCapturable(s: string) {
    Classify(s) == Body && s != "" && s[0] != '#'
  }

  // ---------------------------------------------------------------------
  // The declarative description of the outcome
  // ---------------------------------------------------------------------

  /** The index of the first line that strips to `</exam>`, or the number of lines. */
  function FirstClose(lines: seq<string>): (c: nat)
    ensures c <= |lines|
    ensures forall k :: 0 <= k < c ==> Classify(Strip(lines[k])) != ExamEnd
    ensures c < |lines| ==> Classify(Strip(lines[c])) == ExamEnd
  {
    if lines == [] then 0
    else if Classify(Strip(lines[0])) == ExamEnd then 0
    else 1 + FirstClose(lines[1..])
  }

  /** Whether one of the first `n` lines strips to `<exam>`. */
  function OpenSeen(lines: seq<string>, n: nat): (b: bool)
    requires n <= |lines|
    ensures b <==> exists k :: 0 <= k < n && Classify(Strip(lines[k])) == ExamStart
  {
    n > 0 && (Classify(Strip(lines[n - 1])) == ExamStart || OpenSeen(lines, n - 1))
  }

  /** The last structural line among the first `n`, if there is one. */
  function LastMarker(lines: seq<string>, n: nat): (m: Option<nat>)
    requires n <= |lines|
    ensures m.Some? ==> m.value < n && IsStructural(Classify(Strip(lines[m.value])))
    ensures m.Some? ==> forall k :: m.value < k < n ==> !IsStructural(Classify(Strip(lines[k])))
    ensures m.None? ==> forall k :: 0 <= k < n ==> !IsStructural(Classify(Strip(lines[k])))
  {
    if n == 0 then None
    else if IsStructural(Classify(Strip(lines[n - 1]))) then Some(n - 1)
    else LastMarker(lines, n - 1)
  }

  /**
   * The direction open at line index `n`: the last structural line before
   * it opens that direction, and an `<exam>` comes before that marker.
   */
  function ActiveTask(lines: seq<string>, n: nat): (t: Option<string>)
    requires n <= |lines|
    ensures t.Some? ==> t.value in ValidTasks
  {
    match LastMarker(lines, n)
    case None => None
    case Some(j) =>
      match Classify(Strip(lines[j]))
      case TaskStart(t) => if OpenSeen(lines, j) then Some(t) else None
      case _ => None
  }

  /** Whether line index `k` is collected for direction `t`. */
  predicate CapturedAt(lines: seq<string>, t: string, k: nat)
    requires k < |lines|
  {
    IsCapturable(Strip(lines[k])) && ActiveTask(lines, k) == Some(t)
  }

  /** The items of direction `t` among the first `n` lines, in file order. */
  function Captured(lines: seq<string>, t: string, n: nat): seq<ExamItem>
    requires n <= |lines|
  {
    if n == 0 then []
    else Captured(lines, t, n - 1)
         + (if CapturedAt(lines, t, n - 1) then [ExamItem(Strip(lines[n - 1]), n)] else [])
  }

  /** The result map built from the items before line index `n`. */
  function TasksUpTo(lines: seq<string>, n: nat): map<string, seq<ExamItem>>
    requires n <= |lines|
  {
    map["zh_en" := Captured(lines, "zh_en", n), "en_zh" := Captured(lines, "en_zh", n)]
  }

  /**
   * What reading the file must produce. Everything from the first `</exam>`
   * on is never looked at; the file is rejected when no `<exam>` precedes
   * that point, or when there is no `</exam>` at all.
   */
  function ExamSpec(lines: seq<string>): (r: Result<ParseResult, ParseError>)
    ensures r.Ok? ==> r.value.tasks.Keys == ValidTasks
  {
    var c := FirstClose(lines);
    if !OpenSeen(lines, c) then Err(MissingExamContainer)
    else if c == |lines| then Err(MissingExamEnd)
    else Ok(ParseResult(TasksUpTo(lines, c)))
  }

  // ---------------------------------------------------------------------
  // How the description advances by one line
  // ---------------------------------------------------------------------

  lemma OpenSeenStep(lines: seq<string>, i: nat)
    requires i < |lines|
    ensures OpenSeen(lines, i + 1) == (Classify(Strip(lines[i])) == ExamStart || OpenSeen(lines, i))
  {
  }

  /** A line that is not a marker leaves the open direction as it was. */
  lemma ActiveTaskKeep(lines: seq<string>, i: nat)
    requires i < |lines| && !IsStructural(Classify(Strip(lines[i])))
    ensures ActiveTask(lines, i + 1) == ActiveTask(lines, i)
  {
  }

  /** A task-opening marker inside the exam opens its direction. */
  lemma ActiveTaskOpen(lines: seq<string>, i: nat)
    requires i < |lines| && Classify(Strip(lines[i])).TaskStart? && OpenSeen(lines, i)
    ensures ActiveTask(lines, i + 1) == Some(Classify(Strip(lines[i])).task)
  {
  }

  /** Any other marker leaves no direction open. */
  lemma ActiveTaskClose(lines: seq<string>, i: nat)
    requires i < |lines| && IsStructural(Classify(Strip(lines[i])))
    requires !(Classify(Strip(lines[i])).TaskStart? && OpenSeen(lines, i))
    ensures ActiveTask(lines, i + 1) == None
  {
  }

  /** A line that is not collected leaves the items as they were. */
  lemma TasksSkip(lines: seq<string>, i: nat)
    requires i < |lines|
    requires !IsCapturable(Strip(lines[i])) || ActiveTask(lines, i).None?
    ensures TasksUpTo(lines, i + 1) == TasksUpTo(lines, i)
  {
    assert Captured(lines, "zh_en", i + 1) == Captured(lines, "zh_en", i);
    assert Captured(lines, "en_zh", i + 1) == Captured(lines, "en_zh", i);
  }

  /** A collected line is appended to the items of the open direction. */
  lemma TasksCapture(lines: seq<string>, i: nat, t: string)
    requires i < |lines|
    requires IsCapturable(Strip(lines[i])) && ActiveTask(lines, i) == Some(t)
    ensures var before := TasksUpTo(lines, i);
            TasksUpTo(lines, i + 1) == before[t := before[t] + [ExamItem(Strip(lines[i]), i + 1)]]
  {
    var item := ExamItem(Strip(lines[i]), i + 1);
    if t == "zh_en" {
      assert Captured(lines, "zh_en", i + 1) == Captured(lines, "zh_en", i) + [item];
      assert Captured(lines, "en_zh", i + 1) == Captured(lines, "en_zh", i);
    } else {
      assert t == "en_zh";
      assert Captured(lines, "en_zh", i + 1) == Captured(lines, "en_zh", i) + [item];
      assert Captured(lines, "zh_en", i + 1) == Captured(lines, "zh_en", i);
    }
  }

  // ---------------------------------------------------------------------
  // The state machine
  // ---------------------------------------------------------------------

  /**
   * Reads the lines one by one, driven by the flags `insideExam`,
   * `seenStart`, `seenEnd` and `currentTask`, and stops at the first `</exam>`.
   */
  method ParseExam(lines: seq<string>) returns (r: Result<ParseResult, ParseError>)
    ensures r == ExamSpec(lines)
  {
    var tasks: map<string, seq<ExamItem>> := map["zh_en" := [], "en_zh" := []];
    var insideExam, seenStart, seenEnd := false, false, false;
    var currentTask: Option<string> := None;
    var i := 0;
    while i < |lines|
      invariant i <= FirstClose(lines)
      invariant !seenEnd
      invariant insideExam == seenStart == OpenSeen(lines, i)
      invariant !insideExam ==> currentTask == None
      invariant currentTask == ActiveTask(lines, i)
      invariant tasks == TasksUpTo(lines, i)
    {
      var lineNo := i + 1;
      var stripped := Strip(lines[i]);
      var kind := Classify(stripped);
      OpenSeenStep(lines, i);
      if kind == ExamStart {
        ActiveTaskClose(lines, i);
        TasksSkip(lines, i);
        insideExam := true;
        seenStart := true;
        currentTask := None;
      } else if kind == ExamEnd {
        insideExam := false;
        seenEnd := true;
        currentTask := None;
        break;
      } else if !insideExam {
        // lines outside the exam are skipped
        if IsStructural(kind) { ActiveTaskClose(lines, i); } else { ActiveTaskKeep(lines, i); }
        TasksSkip(lines, i);
      } else if kind.TaskStart? {
        ActiveTaskOpen(lines, i);
        TasksSkip(lines, i);
        currentTask := Some(kind.task);
      } else if kind == TaskEnd {
        ActiveTaskClose(lines, i);
        TasksSkip(lines, i);
        currentTask := None;
      } else if currentTask.None? {
        // no direction is open: the line is dropped
        ActiveTaskKeep(lines, i);
        TasksSkip(lines, i);
      } else if stripped == "" || stripped[0] == '#' {
        // blank lines and comments are skipped
        ActiveTaskKeep(lines, i);
        TasksSkip(lines, i);
      } else {
        var t := currentTask.value;
        ActiveTaskKeep(lines, i);
        TasksCapture(lines, i, t);
        tasks := tasks[t := tasks[t] + [ExamItem(stripped, lineNo)]];
      }
      i := i + 1;
    }
    if insideExam || (seenStart && !seenEnd) {
      return Err(MissingExamEnd);
    }
    if !seenStart {
      return Err(MissingExamContainer);
    }
    return Ok(ParseResult(tasks));
  }

  // ---------------------------------------------------------------------
  // Properties of the format
  // ---------------------------------------------------------------------

  /** `FirstClose` in terms of the lines themselves. */
  lemma FirstCloseSpec(lines: seq<string>)
    ensures forall k :: 0 <= k < FirstClose(lines) ==> Strip(lines[k]) != "</exam>"
    ensures FirstClose(lines) < |lines| ==> Strip(lines[FirstClose(lines)]) == "</exam>"
  {
    forall k | 0 <= k < |lines| {
      ClassifySpec(Strip(lines[k]));
    }
  }

  /** A file in which no line strips to `<exam>` is rejected for the missing container. */
  lemma NoExamStartRejected(lines: seq<string>)
    requires forall k :: 0 <= k < |lines| ==> Strip(lines[k]) != "<exam>"
    ensures ExamSpec(lines) == Err(MissingExamContainer)
  {
    forall k | 0 <= k < |lines| {
      ClassifySpec(Strip(lines[k]));
    }
  }

  /**
   * A `</exam>` before any `<exam>` ends the reading with no exam seen, so the
   * file is rejected for the missing container, whatever follows.
   */
  lemma CloseBeforeStartRejected(lines: seq<string>, k: nat)
    requires k < |lines| && Strip(lines[k]) == "</exam>"
    requires forall m :: 0 <= m < k ==> Strip(lines[m]) != "<exam>"
    ensures ExamSpec(lines) == Err(MissingExamContainer)
  {
    ClassifySpec(Strip(lines[k]));
    forall m | 0 <= m < k {
      ClassifySpec(Strip(lines[m]));
    }
  }

  /** An `<exam>` with no `</exam>` anywhere in the file is rejected for the missing end. */
  lemma MissingEndRejected(lines: seq<string>, k: nat)
    requires k < |lines| && Strip(lines[k]) == "<exam>"
    requires forall m :: 0 <= m < |lines| ==> Strip(lines[m]) != "</exam>"
    ensures ExamSpec(lines) == Err(MissingExamEnd)
  {
    forall m | 0 <= m < |lines| {
      ClassifySpec(Strip(lines[m]));
    }
  }

  /**
   * A file is accepted exactly when it has a `</exam>` and some line before
   * the first one strips to `<exam>`.
   */
  lemma AcceptedIff(lines: seq<string>)
    ensures ExamSpec(lines).Ok?
            <==> (exists c :: 0 <= c < |lines| && Strip(lines[c]) == "</exam>")
                 && (exists j :: 0 <= j < FirstClose(lines) && Strip(lines[j]) == "<exam>")
  {
    FirstCloseSpec(lines);
    forall k | 0 <= k < |lines| {
      ClassifySpec(Strip(lines[k]));
    }
  }

  // Two files whose first `n` lines agree agree on everything the description says about those lines.

  lemma {:induction false} OpenSeenAgree(p: seq<string>, q: seq<string>, n: nat)
    requires n <= |p| && n <= |q| && forall k :: 0 <= k < n ==> p[k] == q[k]
    ensures OpenSeen(p, n) == OpenSeen(q, n)
  {
    if n > 0 {
      OpenSeenAgree(p, q, n - 1);
    }
  }

  lemma {:induction false} LastMarkerAgree(p: seq<string>, q: seq<string>, n: nat)
    requires n <= |p| && n <= |q| && forall k :: 0 <= k < n ==> p[k] == q[k]
    ensures LastMarker(p, n) == LastMarker(q, n)
  {
    if n > 0 {
      LastMarkerAgree(p, q, n - 1);
    }
  }

  lemma ActiveTaskAgree(p: seq<string>, q: seq<string>, n: nat)
    requires n <= |p| && n <= |q| && forall k :: 0 <= k < n ==> p[k] == q[k]
    ensures ActiveTask(p, n) == ActiveTask(q, n)
  {
    LastMarkerAgree(p, q, n);
    if LastMarker(p, n).Some? {
      OpenSeenAgree(p, q, LastMarker(p, n).value);
    }
  }

  lemma {:induction false} CapturedAgree(p: seq<string>, q: seq<string>, t: string, n: nat)
    requires n <= |p| && n <= |q| && forall k :: 0 <= k < n ==> p[k] == q[k]
    ensures Captured(p, t, n) == Captured(q, t, n)
  {
    if n > 0 {
      CapturedAgree(p, q, t, n - 1);
      ActiveTaskAgree(p, q, n - 1);
    }
  }

  /** Two files whose first `n` lines agree have seen the same `<exam>` and collected the same items there. */
  lemma PrefixAgree(p: seq<string>, q: seq<string>, n: nat)
    requires n <= |p| && n <= |q| && forall k :: 0 <= k < n ==> p[k] == q[k]
    ensures OpenSeen(p, n) == OpenSeen(q, n)
    ensures TasksUpTo(p, n) == TasksUpTo(q, n)
  {
    OpenSeenAgree(p, q, n);
    CapturedAgree(p, q, "zh_en", n);
    CapturedAgree(p, q, "en_zh", n);
  }

  /** The first `</exam>` of a file is the first `</exam>` of the file with anything appended. */
  lemma FirstCloseOfExtension(a: seq<string>, b: seq<string>)
    requires FirstClose(a) < |a|
    ensures FirstClose(a + b) == FirstClose(a)
  {
    var c := FirstClose(a);
    var c' := FirstClose(a + b);
    assert (a + b)[c] == a[c];
  }

  /**
   * Reading stops at the first `</exam>`: once a file contains one, appending
   * any lines leaves the outcome unchanged.
   */
  lemma TrailingLinesIgnored(a: seq<string>, b: seq<string>)
    requires exists k :: 0 <= k < |a| && Strip(a[k]) == "</exam>"
    ensures ExamSpec(a + b) == ExamSpec(a)
  {
    var k :| 0 <= k < |a| && Strip(a[k]) == "</exam>";
    ClassifySpec(Strip(a[k]));
    var c := FirstClose(a);
    FirstCloseOfExtension(a, b);
    PrefixAgree(a + b, a, c);
  }

  /** Every item among the first `n` lines is a stripped, collectable line, numbered from 1. */
  lemma {:induction false} CapturedWellFormed(lines: seq<string>, t: string, n: nat)
    requires n <= |lines|
    ensures forall item :: item in Captured(lines, t, n) ==>
              1 <= item.lineNo <= n && item.source == Strip(lines[item.lineNo - 1])
              && IsCapturable(item.source) && ActiveTask(lines, item.lineNo - 1) == Some(t)
  {
    if n > 0 {
      CapturedWellFormed(lines, t, n - 1);
    }
  }

  /** Line numbers strictly increase along `items`. */
  predicate Increasing(items: seq<ExamItem>) {
    forall i, j :: 0 <= i < j < |items| ==> items[i].lineNo < items[j].lineNo
  }

  lemma AppendIncreasing(prev: seq<ExamItem>, x: ExamItem)
    requires Increasing(prev)
    requires forall y :: y in prev ==> y.lineNo < x.lineNo
    ensures Increasing(prev + [x])
  {
    var items := prev + [x];
    forall i, j | 0 <= i < j < |items|
      ensures items[i].lineNo < items[j].lineNo
    {
      assert items[i] == prev[i] && prev[i] in prev;
    }
  }

  /** Within one direction, line numbers strictly increase. */
  lemma {:induction false} CapturedIncreasing(lines: seq<string>, t: string, n: nat)
    requires n <= |lines|
    ensures Increasing(Captured(lines, t, n))
  {
    if n > 0 {
      CapturedIncreasing(lines, t, n - 1);
      CapturedWellFormed(lines, t, n - 1);
      if CapturedAt(lines, t, n - 1) {
        AppendIncreasing(Captured(lines, t, n - 1), ExamItem(Strip(lines[n - 1]), n));
      }
    }
  }

  /**
   * Every collected item is its line stripped, is not blank, is not a
   * comment, is not a marker and has no surrounding whitespace; its line
   * number is the 1-based index of that line; and within each direction the
   * line numbers strictly increase.
   */
  lemma ItemsWellFormed(lines: seq<string>, t: string)
    requires ExamSpec(lines).Ok? && t in ValidTasks
    ensures var items := ExamSpec(lines).value.tasks[t];
            (forall item :: item in items ==>
               1 <= item.lineNo <= |lines| && item.source == Strip(lines[item.lineNo - 1])
               && item.source != "" && item.source[0] != '#' && item.source !in Markers
               && !IsSpace(item.source[0]) && !IsSpace(item.source[|item.source| - 1]))
            && (forall i, j :: 0 <= i < j < |items| ==> items[i].lineNo < items[j].lineNo)
  {
    var c := FirstClose(lines);
    assert ExamSpec(lines).value.tasks[t] == Captured(lines, t, c);
    CapturedWellFormed(lines, t, c);
    CapturedIncreasing(lines, t, c);
    forall item | item in Captured(lines, t, c)
      ensures item.source !in Markers
      ensures !IsSpace(item.source[0]) && !IsSpace(item.source[|item.source| - 1])
    {
      ClassifySpec(item.source);
      StripHasNoSurroundingSpace(lines[item.lineNo - 1]);
    }
  }

  /**
   * When a line is collected for a direction: its last marker line before it
   * opens that direction, and an `<exam>` comes before that marker. So lines
   * before `<exam>` are never collected, and nothing is collected after a
   * closing task marker or a repeated `<exam>` until a direction is opened again.
   */
  lemma ActiveTaskSpec(lines: seq<string>, k: nat, t: string)
    requires k <= |lines|
    requires ActiveTask(lines, k) == Some(t)
    ensures exists j :: 0 <= j < k && Strip(lines[j]) == "<" + t + ">"
                        && (forall m :: j < m < k ==> Strip(lines[m]) !in Markers - {"</exam>"})
                        && (exists e :: 0 <= e < j && Strip(lines[e]) == "<exam>")
  {
    var j := LastMarker(lines, k).value;
    ClassifySpec(Strip(lines[j]));
    forall m | j < m < k
      ensures Strip(lines[m]) !in Markers - {"</exam>"}
    {
      ClassifySpec(Strip(lines[m]));
    }
    var e :| 0 <= e < j && Classify(Strip(lines[e])) == ExamStart;
    ClassifySpec(Strip(lines[e]));
    assert Strip(lines[j]) == "<" + t + ">" by {
      assert t == "zh_en" || t == "en_zh";
    }
  }

  /** A closing task marker and an `<exam>` both leave no direction open. */
  lemma ResetMarkers(lines: seq<string>, k: nat)
    requires k < |lines|
    requires Strip(lines[k]) in {"<exam>", "</zh_en>", "</en_zh>"}
    ensures ActiveTask(lines, k + 1) == None
  {
    ClassifySpec(Strip(lines[k]));
  }

  /** The smallest well-formed exam: one Chinese line under `<zh_en>`, on line 3. */
  lemma SingleItemExample()
    ensures ExamSpec(["<exam>\n", "<zh_en>\n", "你好\n", "</zh_en>\n", "</exam>\n"])
            == Ok(ParseResult(map["zh_en" := [ExamItem("你好", 3)], "en_zh" := []]))
  {
    var lines := ["<exam>\n", "<zh_en>\n", "你好\n", "</zh_en>\n", "</exam>\n"];
    assert lines[0] == "<exam>" + "\n";
    StripLineBreak("<exam>");
    assert lines[1] == "<zh_en>" + "\n";
    StripLineBreak("<zh_en>");
    assert lines[2] == "你好" + "\n";
    StripLineBreak("你好");
    assert lines[3] == "</zh_en>" + "\n";
    StripLineBreak("</zh_en>");
    assert lines[4] == "</exam>" + "\n";
    StripLineBreak("</exam>");
    assert Classify(Strip(lines[0])) == ExamStart;
    assert Classify(Strip(lines[1])) == TaskStart("zh_en");
    assert Classify(Strip(lines[2])) == Body;
    assert Classify(Strip(lines[3])) == TaskEnd;
    assert Classify(Strip(lines[4])) == ExamEnd;
    assert FirstClose(lines) == 4;
    assert OpenSeen(lines, 1);
    assert LastMarker(lines, 2) == Some(1);
    assert ActiveTask(lines, 2) == Some("zh_en");
    assert LastMarker(lines, 3) == Some(1);
    assert ActiveTask(lines, 3) == Some("zh_en");
    assert LastMarker(lines, 4) == Some(3);
    assert ActiveTask(lines, 4) == None;
    assert CapturedAt(lines, "zh_en", 2);
    assert Captured(lines, "zh_en", 2) == [];
    assert Captured(lines, "zh_en", 3) == [ExamItem("你好", 3)];
    assert Captured(lines, "zh_en", 4) == [ExamItem("你好", 3)];
    assert Captured(lines, "en_zh", 4) == [];
  }
}
