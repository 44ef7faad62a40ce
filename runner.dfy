/**
 * The benchmark runner's deterministic pieces: reading the `--tasks`
 * option, drawing a sample of items, and dispatching the translations of one
 * direction and collecting their outcomes in item order.
 *
 * The random draw is a parameter (`chosen`, the set of indices the generator
 * picked), and so are the outcomes of the translations and the order in which
 * the worker threads finish them (`results`, `order`).
 */
module Runner {
  import opened Wrappers
  import opened Text
  import ExamParser
  import Translator

  /** The directions the runner accepts on its command line. */
  const ValidTasks: set<string> := {"zh_en", "en_zh"}

  // ---------------------------------------------------------------------
  // The --tasks option
  // ---------------------------------------------------------------------

  /** Why a `--tasks` value is refused. */
  datatype SelectionError = UnknownTask(task: string)

  /** The comma-separated pieces, stripped, with the blank ones dropped, in order. */
  function Tokens(parts: seq<string>): (ts: seq<string>)
    ensures |ts| <= |parts|
    ensures forall t :: t in ts ==> t != []
  {
    if parts == [] then []
    else (if Strip(parts[0]) != [] then [Strip(parts[0])] else []) + Tokens(parts[1..])
  }

  /** The position of the first token that is not a direction, if any. */
  function FirstUnknown(ts: seq<string>): (i: Option<nat>)
    ensures i.Some? ==> i.value < |ts| && ts[i.value] !in ValidTasks
    ensures i.Some? ==> forall j :: 0 <= j < i.value ==> ts[j] in ValidTasks
    ensures i.None? ==> forall t :: t in ts ==> t in ValidTasks
  {
    if ts == [] then None
    else if ts[0] !in ValidTasks then Some(0)
    else match FirstUnknown(ts[1..])
      case None => None
      case Some(j) => Some(j + 1)
  }

  /**
   * The directions named by a `--tasks` value, in the order written and with
   * repetitions kept; the first name that is not a direction is refused.
   */
  function ParseSelectedTasks(raw: string): (r: Result<seq<string>, SelectionError>)
    ensures r.Ok? <==> forall t :: t in Tokens(Split(raw, ',')) ==> t in ValidTasks
    ensures r.Ok? ==> r.value == Tokens(Split(raw, ','))
    ensures r.Err? ==> exists i :: 0 <= i < |Tokens(Split(raw, ','))|
                                && r.error == UnknownTask(Tokens(Split(raw, ','))[i])
                                && Tokens(Split(raw, ','))[i] !in ValidTasks
                                && forall j :: 0 <= j < i ==> Tokens(Split(raw, ','))[j] in ValidTasks
  {
    var ts := Tokens(Split(raw, ','));
    match FirstUnknown(ts)
    case Some(i) => Err(UnknownTask(ts[i]))
    case None => Ok(ts)
  }

  /** Tokenising distributes over the pieces. */
  lemma {:induction false} TokensAppend(a: seq<string>, b: seq<string>)
    ensures Tokens(a + b) == Tokens(a) + Tokens(b)
    decreases |a|
  {
    if a != [] {
      var head := if Strip(a[0]) != [] then [Strip(a[0])] else [];
      assert (a + b)[0] == a[0];
      assert (a + b)[1..] == a[1..] + b;
      assert Tokens(a + b) == head + Tokens(a[1..] + b);
      TokensAppend(a[1..], b);
      assert Tokens(a) == head + Tokens(a[1..]);
      assert head + (Tokens(a[1..]) + Tokens(b)) == (head + Tokens(a[1..])) + Tokens(b);
    } else {
      assert a + b == b;
    }
  }

  /** A non-empty string with no whitespace at either end. */
  predicate Clean(t: string) {
    t != [] && !IsSpace(t[0]) && !IsSpace(t[|t| - 1])
  }

  /** Pieces that are already stripped and non-blank come through unchanged. */
  lemma {:induction false} TokensOfClean(ts: seq<string>)
    requires forall t :: t in ts ==> Clean(t)
    ensures Tokens(ts) == ts
    decreases |ts|
  {
    if ts != [] {
      assert ts[0] in ts;
      StripUnchanged(ts[0]);
      assert forall t :: t in ts[1..] ==> t in ts;
      TokensOfClean(ts[1..]);
    }
  }

  /** Every token is stripped: non-empty, with no whitespace at either end. */
  lemma {:induction false} TokensClean(parts: seq<string>)
    ensures forall t :: t in Tokens(parts) ==> Clean(t)
    decreases |parts|
  {
    if parts != [] {
      StripHasNoSurroundingSpace(parts[0]);
      TokensClean(parts[1..]);
    }
  }

  /** A direction name holds no comma and has no whitespace at either end. */
  lemma DirectionNameClean(t: string)
    requires t in ValidTasks
    ensures ',' !in t && Clean(t)
  {
    assert !IsSpace('z') && !IsSpace('n') && !IsSpace('e') && !IsSpace('h');
  }

  /** A comma-joined list of directions reads back as that list, repetitions and all. */
  lemma SelectionRoundTrip(ts: seq<string>)
    requires |ts| >= 1
    requires forall t :: t in ts ==> t in ValidTasks
    ensures ParseSelectedTasks(Join(ts, ',')) == Ok(ts)
  {
    forall t | t in ts
      ensures ',' !in t && Clean(t)
    {
      DirectionNameClean(t);
    }
    SplitJoin(ts, ',');
    TokensOfClean(ts);
    assert Tokens(Split(Join(ts, ','), ',')) == ts;
  }

  /** The default value selects both directions, Chinese to English first. */
  lemma DefaultSelection()
    ensures ParseSelectedTasks("zh_en,en_zh") == Ok(["zh_en", "en_zh"])
  {
    assert Join(["zh_en", "en_zh"], ',') == "zh_en,en_zh";
    SelectionRoundTrip(["zh_en", "en_zh"]);
  }

  /** A blank piece, such as the one between two adjacent commas, contributes nothing. */
  lemma BlankPieceIgnored(a: seq<string>, blank: string, b: seq<string>)
    requires Strip(blank) == []
    ensures Tokens(a + [blank] + b) == Tokens(a + b)
  {
    TokensAppend(a + [blank], b);
    TokensAppend(a, [blank]);
    TokensAppend(a, b);
    assert Tokens([blank]) == [] + Tokens([blank][1..]);
  }

  /** An empty value selects nothing, so no direction is run. */
  lemma EmptySelection()
    ensures ParseSelectedTasks("") == Ok([])
  {
    assert Split("", ',') == [""];
  }

  // ---------------------------------------------------------------------
  // Sampling
  // ---------------------------------------------------------------------

  /** Why a sample cannot be drawn: a size below -1. */
  datatype SampleError = NegativeSampleSize(limit: int)

  /** Strictly increasing. */
  predicate Ascending(s: seq<nat>) {
    forall i, j :: 0 <= i < j < |s| ==> s[i] < s[j]
  }

  /** The members of `chosen` in `lo` .. `hi` - 1, in increasing order. */
  function Sorted(chosen: set<nat>, lo: nat, hi: nat): seq<nat>
    decreases hi - lo
  {
    if lo >= hi then []
    else (if lo in chosen then [lo] else []) + Sorted(chosen, lo + 1, hi)
  }

  /** `Sorted` is strictly increasing, stays in its range, and holds exactly the members of `chosen` there. */
  lemma SortedSpec(chosen: set<nat>, lo: nat, hi: nat)
    ensures var s := Sorted(chosen, lo, hi);
            Ascending(s)
            && (forall i :: 0 <= i < |s| ==> lo <= s[i] < hi && s[i] in chosen)
            && (forall x :: x in chosen && lo <= x < hi ==> x in s)
  {
    SortedBounds(chosen, lo, hi);
    SortedAscending(chosen, lo, hi);
    SortedComplete(chosen, lo, hi);
  }

  lemma {:induction false} SortedBounds(chosen: set<nat>, lo: nat, hi: nat)
    ensures forall i :: 0 <= i < |Sorted(chosen, lo, hi)| ==>
              lo <= Sorted(chosen, lo, hi)[i] < hi && Sorted(chosen, lo, hi)[i] in chosen
    decreases hi - lo
  {
    if lo < hi {
      SortedBounds(chosen, lo + 1, hi);
      var rest := Sorted(chosen, lo + 1, hi);
      if lo in chosen {
        var s := [lo] + rest;
        assert Sorted(chosen, lo, hi) == s;
        forall i | 0 < i < |s|
          ensures lo <= s[i] < hi && s[i] in chosen
        {
          assert s[i] == rest[i - 1];
        }
      } else {
        assert Sorted(chosen, lo, hi) == rest;
      }
    }
  }

  lemma {:induction false} SortedAscending(chosen: set<nat>, lo: nat, hi: nat)
    ensures Ascending(Sorted(chosen, lo, hi))
    decreases hi - lo
  {
    if lo < hi && lo in chosen {
      SortedAscending(chosen, lo + 1, hi);
      SortedBounds(chosen, lo + 1, hi);
      var rest := Sorted(chosen, lo + 1, hi);
      var s := [lo] + rest;
      assert Sorted(chosen, lo, hi) == s;
      forall i, j | 0 <= i < j < |s|
        ensures s[i] < s[j]
      {
        assert s[j] == rest[j - 1];
        assert lo + 1 <= rest[j - 1];
        if i > 0 {
          assert s[i] == rest[i - 1];
        }
      }
    } else if lo < hi {
      SortedAscending(chosen, lo + 1, hi);
    }
  }

  lemma {:induction false} SortedComplete(chosen: set<nat>, lo: nat, hi: nat)
    ensures forall x :: x in chosen && lo <= x < hi ==> x in Sorted(chosen, lo, hi)
    decreases hi - lo
  {
    if lo < hi {
      SortedComplete(chosen, lo + 1, hi);
      var rest := Sorted(chosen, lo + 1, hi);
      if lo in chosen {
        assert Sorted(chosen, lo, hi) == [lo] + rest;
      } else {
        assert Sorted(chosen, lo, hi) == rest;
      }
    }
  }

  /** `Sorted` only looks at the members in its range. */
  lemma {:induction false} SortedCongruent(c1: set<nat>, c2: set<nat>, lo: nat, hi: nat)
    requires forall x :: lo <= x < hi ==> (x in c1 <==> x in c2)
    ensures Sorted(c1, lo, hi) == Sorted(c2, lo, hi)
    decreases hi - lo
  {
    if lo < hi {
      SortedCongruent(c1, c2, lo + 1, hi);
    }
  }

  /** Sorting a set of indices in `lo` .. `hi` - 1 keeps every one of them and adds none. */
  lemma {:induction false} SortedLength(chosen: set<nat>, lo: nat, hi: nat)
    requires forall x :: x in chosen ==> lo <= x < hi
    ensures |Sorted(chosen, lo, hi)| == |chosen|
    decreases hi - lo
  {
    if lo >= hi {
      assert chosen == {};
    } else if lo in chosen {
      var rest := chosen - {lo};
      SortedCongruent(chosen, rest, lo + 1, hi);
      SortedLength(rest, lo + 1, hi);
      assert chosen == rest + {lo};
    } else {
      SortedLength(chosen, lo + 1, hi);
    }
  }

  /** `r` is `items` at the strictly increasing positions `idx`: an order-preserving subsequence. */
  predicate SubsequenceAt(r: seq<ExamParser.ExamItem>, items: seq<ExamParser.ExamItem>, idx: seq<nat>) {
    |idx| == |r| && Ascending(idx)
    && (forall i :: 0 <= i < |idx| ==> idx[i] < |items|)
    && (forall i :: 0 <= i < |idx| ==> r[i] == items[idx[i]])
  }

  /**
   * At most `limit` items, in their original order: all of them when `limit`
   * is -1 or covers them, none when it is 0, and otherwise the items at the
   * `limit` distinct indices the generator drew, in increasing index order.
   * A size below -1 cannot be drawn.
   */
  function SampleItems(items: seq<ExamParser.ExamItem>, limit: int, chosen: set<nat>): (r: Result<seq<ExamParser.ExamItem>, SampleError>)
    requires 0 < limit < |items| ==> |chosen| == limit && forall x :: x in chosen ==> x < |items|
    ensures limit == -1 || limit >= |items| ==> r == Ok(items)
    ensures limit == 0 ==> r == Ok([])
    ensures r.Err? <==> limit < -1
    ensures r.Err? ==> r.error == NegativeSampleSize(limit)
    ensures 0 < limit < |items| ==>
              r.Ok? && |r.value| == limit && SubsequenceAt(r.value, items, Sorted(chosen, 0, |items|))
  {
    if limit == -1 || limit >= |items| then Ok(items)
    else if limit == 0 then Ok([])
    else if limit < 0 then Err(NegativeSampleSize(limit))
    else
      var idx := Sorted(chosen, 0, |items|);
      SortedSpec(chosen, 0, |items|);
      SortedLength(chosen, 0, |items|);
      Ok(seq(limit, i requires 0 <= i < limit => items[idx[i]]))
  }

  /** The sample's positions are exactly the drawn indices. */
  lemma SampleUsesDrawnIndices(n: nat, chosen: set<nat>)
    requires forall x :: x in chosen ==> x < n
    ensures (set x | x in Sorted(chosen, 0, n)) == chosen
  {
    SortedSpec(chosen, 0, n);
  }

  /** A sample of items whose line numbers increase keeps them increasing, as the parser's lists do. */
  lemma SampleStaysIncreasing(items: seq<ExamParser.ExamItem>, limit: int, chosen: set<nat>)
    requires 0 < limit < |items| ==> |chosen| == limit && forall x :: x in chosen ==> x < |items|
    requires ExamParser.Increasing(items)
    requires SampleItems(items, limit, chosen).Ok?
    ensures ExamParser.Increasing(SampleItems(items, limit, chosen).value)
  {
    if 0 < limit < |items| {
      var r := SampleItems(items, limit, chosen).value;
      var idx := Sorted(chosen, 0, |items|);
      forall i, j | 0 <= i < j < |r|
        ensures r[i].lineNo < r[j].lineNo
      {
        assert idx[i] < idx[j];
      }
    }
  }

  /** An order-preserving subsequence only holds items of the original, each one at most as often. */
  lemma {:induction false} SubsequenceMultiset(r: seq<ExamParser.ExamItem>, items: seq<ExamParser.ExamItem>, idx: seq<nat>)
    requires SubsequenceAt(r, items, idx)
    ensures multiset(r) <= multiset(items)
    decreases |items|
  {
    if items == [] {
      assert r == [];
    } else if |idx| > 0 && idx[|idx| - 1] == |items| - 1 {
      var k := |idx| - 1;
      assert SubsequenceAt(r[..k], items[..|items| - 1], idx[..k]);
      SubsequenceMultiset(r[..k], items[..|items| - 1], idx[..k]);
      assert r == r[..k] + [items[|items| - 1]];
      assert items == items[..|items| - 1] + [items[|items| - 1]];
    } else {
      assert SubsequenceAt(r, items[..|items| - 1], idx);
      SubsequenceMultiset(r, items[..|items| - 1], idx);
      assert items == items[..|items| - 1] + [items[|items| - 1]];
    }
  }

  // ---------------------------------------------------------------------
  // Dispatching one direction
  // ---------------------------------------------------------------------

  /** What a direction's dispatch gives back: the rows and counts, or the error it stopped on. */
  datatype BatchOutcome =
    | Completed(rows: seq<(ExamParser.ExamItem, string)>, successCount: nat, failCount: nat)
    | Aborted(cause: Translator.Error)

  /** `order` lists each of the indices 0 .. `n` - 1 exactly once: the order in which the translations finish. */
  predicate IsCompletionOrder(order: seq<nat>, n: nat) {
    |order| == n
    && (forall k :: 0 <= k < n ==> order[k] < n)
    && (forall k, l :: 0 <= k < l < n ==> order[k] != order[l])
    && (forall i :: 0 <= i < n ==> i in order)
  }

  predicate Failed(t: Translator.TranslationResult) {
    t.error.Some?
  }

  /** The indices whose translation failed. */
  function FailedIndices(results: seq<Translator.TranslationResult>): set<nat> {
    set i | 0 <= i < |results| && Failed(results[i])
  }

  /** The indices whose translation succeeded. */
  function SucceededIndices(results: seq<Translator.TranslationResult>): set<nat> {
    set i | 0 <= i < |results| && !Failed(results[i])
  }

  /** The translation column of a row: the text of a success, empty for a failure. */
  function Cell(t: Translator.TranslationResult): string {
    if Failed(t) then "" else t.text
  }

  /** Each item beside its translation, in item order. */
  function FinalRows(items: seq<ExamParser.ExamItem>, results: seq<Translator.TranslationResult>): (rows: seq<(ExamParser.ExamItem, string)>)
    requires |results| == |items|
    ensures |rows| == |items|
  {
    seq(|items|, i requires 0 <= i < |items| => (items[i], Cell(results[i])))
  }

  /** The first position at or after `p` in the completion order whose translation failed. */
  function FirstFailure(results: seq<Translator.TranslationResult>, order: seq<nat>, p: nat): (q: Option<nat>)
    requires forall k :: 0 <= k < |order| ==> order[k] < |results|
    decreases |order| - p
    ensures q.Some? ==> p <= q.value < |order| && Failed(results[order[q.value]])
    ensures q.Some? ==> forall k :: p <= k < q.value ==> !Failed(results[order[k]])
    ensures q.None? ==> forall k :: p <= k < |order| ==> !Failed(results[order[k]])
  {
    if p >= |order| then None
    else if Failed(results[order[p]]) then Some(p)
    else FirstFailure(results, order, p + 1)
  }

  /**
   * The outcome of dispatching `items` whose translations are `results` and
   * finish in `order`: without `continueOnError`, the error of the first
   * failure to finish, if one fails; otherwise every item beside its
   * translation, with the numbers of successes and failures.
   */
  function DispatchSpec(items: seq<ExamParser.ExamItem>, results: seq<Translator.TranslationResult>,
                        order: seq<nat>, continueOnError: bool): BatchOutcome
    requires |results| == |items| && IsCompletionOrder(order, |items|)
  {
    if items == [] then Completed([], 0, 0)
    else if !continueOnError && FirstFailure(results, order, 0).Some? then
      Aborted(results[order[FirstFailure(results, order, 0).value]].error.value)
    else Completed(FinalRows(items, results), |SucceededIndices(results)|, |FailedIndices(results)|)
  }

  // How the dispatch advances, one finished translation at a time.

  /** Every position of `order` names an item. */
  predicate InRange(order: seq<nat>, n: nat) {
    forall k :: 0 <= k < |order| ==> order[k] < n
  }

  /** The rows after the first `p` translations in `order` have been written. */
  function RowsAfter(items: seq<ExamParser.ExamItem>, results: seq<Translator.TranslationResult>,
                     order: seq<nat>, p: nat): (rows: seq<(ExamParser.ExamItem, string)>)
    requires |results| == |items| && p <= |order| && InRange(order, |items|)
    ensures |rows| == |items|
  {
    if p == 0 then seq(|items|, i requires 0 <= i < |items| => (items[i], ""))
    else
      var idx := order[p - 1];
      RowsAfter(items, results, order, p - 1)[idx := (items[idx], Cell(results[idx]))]
  }

  /** The number of failures among the first `p` translations in `order`. */
  function FailsAfter(results: seq<Translator.TranslationResult>, order: seq<nat>, p: nat): (n: nat)
    requires p <= |order| && InRange(order, |results|)
    ensures n <= p
  {
    if p == 0 then 0
    else FailsAfter(results, order, p - 1) + (if Failed(results[order[p - 1]]) then 1 else 0)
  }

  /** The indices at the first `p` positions of the completion order. */
  function Done(order: seq<nat>, p: nat): set<nat>
    requires p <= |order|
  {
    if p == 0 then {} else Done(order, p - 1) + {order[p - 1]}
  }

  lemma {:induction false} DoneMembers(order: seq<nat>, p: nat, x: nat)
    requires p <= |order| && x in Done(order, p)
    ensures exists k :: 0 <= k < p && order[k] == x
  {
    if x != order[p - 1] {
      DoneMembers(order, p - 1, x);
    }
  }

  lemma {:induction false} DoneCovers(order: seq<nat>, p: nat, k: nat)
    requires p <= |order| && k < p
    ensures order[k] in Done(order, p)
  {
    if k < p - 1 {
      DoneCovers(order, p - 1, k);
    }
  }

  /** The rows written so far: a row holds its translation exactly when its index has finished. */
  lemma {:induction false} RowsAfterSpec(items: seq<ExamParser.ExamItem>, results: seq<Translator.TranslationResult>,
                                         order: seq<nat>, p: nat)
    requires |results| == |items| && p <= |order| && InRange(order, |items|)
    ensures forall i :: 0 <= i < |items| ==>
              RowsAfter(items, results, order, p)[i] == (items[i], if i in Done(order, p) then Cell(results[i]) else "")
  {
    if p > 0 {
      RowsAfterSpec(items, results, order, p - 1);
    }
  }

  /** Adding a new index to the finished ones adds it to exactly one of the failed and the succeeded part. */
  lemma CardStep(done: set<nat>, idx: nat, failed: set<nat>)
    requires idx !in done
    ensures idx in failed ==> |(done + {idx}) * failed| == |done * failed| + 1
                              && |(done + {idx}) - failed| == |done - failed|
    ensures idx !in failed ==> |(done + {idx}) * failed| == |done * failed|
                               && |(done + {idx}) - failed| == |done - failed| + 1
  {
    if idx in failed {
      assert (done + {idx}) * failed == (done * failed) + {idx};
      assert (done + {idx}) - failed == done - failed;
    } else {
      assert (done + {idx}) * failed == done * failed;
      assert (done + {idx}) - failed == (done - failed) + {idx};
    }
  }

  /** Counted over distinct indices, the failures so far are the finished indices that failed. */
  lemma {:induction false} FailsAfterSpec(results: seq<Translator.TranslationResult>, order: seq<nat>, p: nat)
    requires IsCompletionOrder(order, |results|) && p <= |order|
    ensures FailsAfter(results, order, p) == |Done(order, p) * FailedIndices(results)|
    ensures p - FailsAfter(results, order, p) == |Done(order, p) - FailedIndices(results)|
  {
    if p > 0 {
      FailsAfterSpec(results, order, p - 1);
      var done, idx, failedSet := Done(order, p - 1), order[p - 1], FailedIndices(results);
      assert idx !in done by {
        if idx in done {
          DoneMembers(order, p - 1, idx);
        }
      }
      assert Done(order, p) == done + {idx};
      assert idx in failedSet <==> Failed(results[idx]);
      CardStep(done, idx, failedSet);
    }
  }

  /** Once every translation has finished, each index has. */
  lemma AllDone(order: seq<nat>, n: nat, i: nat)
    requires IsCompletionOrder(order, n) && i < n
    ensures i in Done(order, n)
  {
    assert i in order;
    var k :| 0 <= k < |order| && order[k] == i;
    DoneCovers(order, n, k);
  }

  /** Once every translation has finished, the finished indices are exactly the item indices. */
  lemma AllDoneExactly(order: seq<nat>, n: nat)
    requires IsCompletionOrder(order, n)
    ensures forall x: nat :: x in Done(order, n) <==> x < n
  {
    forall x: nat | x < n
      ensures x in Done(order, n)
    {
      AllDone(order, n, x);
    }
    forall x | x in Done(order, n)
      ensures x < n
    {
      DoneMembers(order, n, x);
    }
  }

  /** The item indices split into the failed and the succeeded ones. */
  lemma IndicesPartition(results: seq<Translator.TranslationResult>, all: set<nat>)
    requires forall x: nat :: x in all <==> x < |results|
    ensures all * FailedIndices(results) == FailedIndices(results)
    ensures all - FailedIndices(results) == SucceededIndices(results)
  {
  }

  /** When every translation has finished, the rows are the final rows and the counts are those of the outcomes. */
  lemma DispatchComplete(items: seq<ExamParser.ExamItem>, results: seq<Translator.TranslationResult>, order: seq<nat>)
    requires |results| == |items| && IsCompletionOrder(order, |items|)
    ensures RowsAfter(items, results, order, |order|) == FinalRows(items, results)
    ensures FailsAfter(results, order, |order|) == |FailedIndices(results)|
    ensures |order| - FailsAfter(results, order, |order|) == |SucceededIndices(results)|
  {
    var n := |items|;
    AllDoneExactly(order, n);
    RowsAfterSpec(items, results, order, n);
    FailsAfterSpec(results, order, n);
    IndicesPartition(results, Done(order, n));
  }

  /** One more finished translation: its row is written, the failure count moves with it, and the first failure stays ahead. */
  lemma DispatchStep(items: seq<ExamParser.ExamItem>, results: seq<Translator.TranslationResult>,
                     order: seq<nat>, p: nat)
    requires |results| == |items| && p < |order| && InRange(order, |items|)
    ensures RowsAfter(items, results, order, p + 1)
            == RowsAfter(items, results, order, p)[order[p] := (items[order[p]], Cell(results[order[p]]))]
    ensures FailsAfter(results, order, p + 1)
            == FailsAfter(results, order, p) + (if Failed(results[order[p]]) then 1 else 0)
    ensures Failed(results[order[p]]) ==> FirstFailure(results, order, p) == Some(p)
    ensures !Failed(results[order[p]]) ==> FirstFailure(results, order, p) == FirstFailure(results, order, p + 1)
  {
  }

  /**
   * Dispatch the translations of one direction. `results[i]` is the outcome
   * of translating `items[i]`, `order` the order in which the worker threads
   * finish, and `workers` the size of their pool. Each outcome is written
   * into the row of its item as it finishes; `written` lists the rows written,
   * in the order they were written.
   */
  method TranslateTask(items: seq<ExamParser.ExamItem>, results: seq<Translator.TranslationResult>,
                       order: seq<nat>, continueOnError: bool, workers: int)
    returns (r: BatchOutcome, ghost written: seq<nat>)
    requires workers >= 1
    requires |results| == |items| && IsCompletionOrder(order, |items|)
    ensures r == DispatchSpec(items, results, order, continueOnError)
    ensures r.Completed? ==> written == order
    ensures r.Aborted? ==>
              FirstFailure(results, order, 0).Some? && written == order[..FirstFailure(results, order, 0).value + 1]
  {
    if |items| == 0 {
      return Completed([], 0, 0), [];
    }
    var rows := new (ExamParser.ExamItem, string)[|items|](i requires 0 <= i < |items| => (items[i], ""));
    var successCount, failCount := 0, 0;
    written := [];
    var p := 0;
    while p < |order|
      invariant 0 <= p <= |order|
      invariant written == order[..p]
      invariant rows[..] == RowsAfter(items, results, order, p)
      invariant failCount == FailsAfter(results, order, p) && successCount == p - failCount
      invariant !continueOnError ==> FirstFailure(results, order, 0) == FirstFailure(results, order, p)
    {
      var idx := order[p];
      var item := items[idx];
      var result := results[idx];
      DispatchStep(items, results, order, p);
      assert order[..p + 1] == order[..p] + [idx];
      written := written + [idx];
      if result.error.Some? {
        failCount := failCount + 1;
        rows[idx] := (item, "");
        assert rows[..] == RowsAfter(items, results, order, p + 1);
        if !continueOnError {
          assert FirstFailure(results, order, 0) == Some(p);
          assert DispatchSpec(items, results, order, continueOnError) == Aborted(result.error.value);
          return Aborted(result.error.value), written;
        }
      } else {
        successCount := successCount + 1;
        rows[idx] := (item, result.text);
        assert rows[..] == RowsAfter(items, results, order, p + 1);
      }
      p := p + 1;
    }
    DispatchComplete(items, results, order);
    assert order[..p] == order;
    assert DispatchSpec(items, results, order, continueOnError) == Completed(rows[..], successCount, failCount);
    return Completed(rows[..], successCount, failCount), written;
  }

  // ---------------------------------------------------------------------
  // Properties of the dispatch
  // ---------------------------------------------------------------------

  /** Nothing to translate: no rows and no counts. */
  lemma EmptyBatch(results: seq<Translator.TranslationResult>, order: seq<nat>, continueOnError: bool)
    requires results == [] && order == []
    ensures DispatchSpec([], results, order, continueOnError) == Completed([], 0, 0)
  {
  }

  /**
   * A completed dispatch has one row per item, in item order: the item beside
   * its translated text, or beside empty text when its translation failed.
   */
  lemma RowsFollowItems(items: seq<ExamParser.ExamItem>, results: seq<Translator.TranslationResult>,
                        order: seq<nat>, continueOnError: bool)
    requires |results| == |items| && IsCompletionOrder(order, |items|)
    requires DispatchSpec(items, results, order, continueOnError).Completed?
    ensures var rows := DispatchSpec(items, results, order, continueOnError).rows;
            |rows| == |items|
            && forall i :: 0 <= i < |items| ==>
                 rows[i].0 == items[i]
                 && rows[i].1 == (if results[i].error.None? then results[i].text else "")
  {
  }

  /** A completed dispatch accounts for every item once: its counts add up to the number of items. */
  lemma CountsCoverItems(items: seq<ExamParser.ExamItem>, results: seq<Translator.TranslationResult>,
                         order: seq<nat>, continueOnError: bool)
    requires |results| == |items| && IsCompletionOrder(order, |items|)
    requires DispatchSpec(items, results, order, continueOnError).Completed?
    ensures var o := DispatchSpec(items, results, order, continueOnError);
            o.successCount + o.failCount == |items| && o.failCount == |FailedIndices(results)|
  {
    if items != [] {
      DispatchComplete(items, results, order);
    }
  }

  /** The dispatch stops exactly when errors are not tolerated and some translation failed. */
  lemma AbortedIff(items: seq<ExamParser.ExamItem>, results: seq<Translator.TranslationResult>,
                   order: seq<nat>, continueOnError: bool)
    requires |results| == |items| && IsCompletionOrder(order, |items|)
    ensures DispatchSpec(items, results, order, continueOnError).Aborted?
            <==> !continueOnError && exists i :: 0 <= i < |items| && Failed(results[i])
  {
    if exists i :: 0 <= i < |items| && Failed(results[i]) {
      var i :| 0 <= i < |items| && Failed(results[i]);
      assert i in order;
      var k :| 0 <= k < |order| && order[k] == i;
      assert FirstFailure(results, order, 0).Some?;
    }
  }

  /** The error a dispatch stops on is that of the first failed translation to finish. */
  lemma AbortCauseFinishedFirst(items: seq<ExamParser.ExamItem>, results: seq<Translator.TranslationResult>,
                                order: seq<nat>, continueOnError: bool)
    requires |results| == |items| && IsCompletionOrder(order, |items|)
    requires DispatchSpec(items, results, order, continueOnError).Aborted?
    ensures exists q :: 0 <= q < |order|
              && results[order[q]].error == Some(DispatchSpec(items, results, order, continueOnError).cause)
              && forall k :: 0 <= k < q ==> !Failed(results[order[k]])
  {
    var q := FirstFailure(results, order, 0).value;
    assert results[order[q]].error == Some(DispatchSpec(items, results, order, continueOnError).cause);
  }

  /** When errors are tolerated, the order in which translations finish makes no difference. */
  lemma ContinuingIgnoresOrder(items: seq<ExamParser.ExamItem>, results: seq<Translator.TranslationResult>,
                               order1: seq<nat>, order2: seq<nat>)
    requires |results| == |items| && IsCompletionOrder(order1, |items|) && IsCompletionOrder(order2, |items|)
    ensures DispatchSpec(items, results, order1, true) == DispatchSpec(items, results, order2, true)
  {
  }

  /**
   * A translation allowed no attempts has empty text and no error, so the
   * dispatch counts it as a success: with no attempts, every row is empty
   * and every item succeeds.
   */
  lemma NoAttemptsCountAsSuccess(items: seq<ExamParser.ExamItem>, results: seq<Translator.TranslationResult>,
                                 order: seq<nat>, continueOnError: bool,
                                 task: string, retries: int, remotes: seq<Translator.Remote>)
    requires |results| == |items| && IsCompletionOrder(order, |items|) && |remotes| == |items|
    requires task in Translator.SystemPrompts && retries < 1
    requires forall i :: 0 <= i < |items| ==>
               results[i] == Translator.TranslateSpec(task, items[i].source, retries, remotes[i])
    ensures DispatchSpec(items, results, order, continueOnError)
            == Completed(seq(|items|, i requires 0 <= i < |items| => (items[i], "")), |items|, 0)
  {
    forall i | 0 <= i < |items|
      ensures results[i] == Translator.TranslationResult("", None)
    {
      Translator.NoAttemptsNoError(task, items[i].source, retries, remotes[i]);
    }
    if items != [] {
      assert FailedIndices(results) == {};
      assert FirstFailure(results, order, 0).None?;
      DispatchComplete(items, results, order);
    }
  }

  /**
   * An unsupported direction fails every item: tolerated, every row is empty
   * and every item counts as a failure; otherwise the dispatch stops on it.
   */
  lemma UnsupportedTaskFailsAll(items: seq<ExamParser.ExamItem>, results: seq<Translator.TranslationResult>,
                                order: seq<nat>, continueOnError: bool,
                                task: string, retries: int, remotes: seq<Translator.Remote>)
    requires |results| == |items| && IsCompletionOrder(order, |items|) && |remotes| == |items|
    requires task !in Translator.SystemPrompts && items != []
    requires forall i :: 0 <= i < |items| ==>
               results[i] == Translator.TranslateSpec(task, items[i].source, retries, remotes[i])
    ensures continueOnError ==>
              DispatchSpec(items, results, order, continueOnError)
              == Completed(seq(|items|, i requires 0 <= i < |items| => (items[i], "")), 0, |items|)
    ensures !continueOnError ==>
              DispatchSpec(items, results, order, continueOnError) == Aborted(Translator.UnsupportedTask(task))
  {
    forall i | 0 <= i < |items|
      ensures results[i] == Translator.TranslationResult("", Some(Translator.UnsupportedTask(task)))
    {
      Translator.UnsupportedMakesNoCall(task, items[i].source, retries, remotes[i]);
    }
    assert Failed(results[order[0]]);
    assert FirstFailure(results, order, 0) == Some(0);
    if continueOnError {
      assert SucceededIndices(results) == {};
      DispatchComplete(items, results, order);
    }
  }

  /**
   * Three items whose second one fails, with errors tolerated: whatever the
   * order they finish in, three rows with the failure's empty, two successes
   * and one failure.
   */
  lemma OneFailureScenario(items: seq<ExamParser.ExamItem>, order: seq<nat>, a: string, c: string, e: Translator.Error)
    requires |items| == 3 && IsCompletionOrder(order, 3)
    ensures DispatchSpec(items, [Translator.TranslationResult(a, None), Translator.TranslationResult("", Some(e)),
                                 Translator.TranslationResult(c, None)], order, true)
            == Completed([(items[0], a), (items[1], ""), (items[2], c)], 2, 1)
  {
    var results := [Translator.TranslationResult(a, None), Translator.TranslationResult("", Some(e)),
                    Translator.TranslationResult(c, None)];
    assert FailedIndices(results) == {1};
    assert SucceededIndices(results) == {0, 2};
    assert FinalRows(items, results) == [(items[0], a), (items[1], ""), (items[2], c)];
  }
}
