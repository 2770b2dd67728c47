/**
 The reporter: an append-only log of successes and failures, each a
 `[message, file, index]` triple, and the summary `output` derives from it —
 the number of checks run, whether they all passed, and the failures grouped
 by file.
 */
module ReporterLog {
  import opened Optional
  import opened Dict

  /** A JavaScript argument slot: left `undefined`, `null`, or given a value. */
  datatype Arg<+T> = Undefined | Null | Given(value: T)

  /** One logged `[message, file, index]` triple. */
  datatype Entry = Entry(message: string, file: Arg<string>, index: Arg<nat>)

  datatype Reporter = Reporter(successes: seq<Entry>, failures: seq<Entry>)

  /** `new Reporter()`: both logs empty. */
  const Fresh: Reporter := Reporter([], [])

  /** An argument the caller passed (`Some`) or omitted (`None`), with `d` standing in for an omitted one. */
  function Passed<T>(a: Option<T>, d: Arg<T>): Arg<T> {
    match a
    case Some(v) => Given(v)
    case None => d
  }

  /**
   `success(message, file = null, index = null)`: appends the triple, an
   omitted file or index reading as `null`, and leaves the failures alone.
   */
  function Success(r: Reporter, message: string, file: Option<string>, index: Option<nat>): (r': Reporter)
    ensures r'.failures == r.failures
    ensures |r'.successes| == |r.successes| + 1 && r'.successes[..|r.successes|] == r.successes
    ensures r'.successes[|r.successes|].message == message
    ensures r'.successes[|r.successes|].file == if file.Some? then Given(file.value) else Null
    ensures r'.successes[|r.successes|].index == if index.Some? then Given(index.value) else Null
  {
    r.(successes := r.successes + [Entry(message, Passed(file, Null), Passed(index, Null))])
  }

  /**
   `failure(message, file, index)`: appends the triple, an omitted file or
   index staying `undefined`, and leaves the successes alone.
   */
  function Failure(r: Reporter, message: string, file: Option<string>, index: Option<nat>): (r': Reporter)
    ensures r'.successes == r.successes
    ensures |r'.failures| == |r.failures| + 1 && r'.failures[..|r.failures|] == r.failures
    ensures r'.failures[|r.failures|].message == message
    ensures r'.failures[|r.failures|].file == if file.Some? then Given(file.value) else Undefined
    ensures r'.failures[|r.failures|].index == if index.Some? then Given(index.value) else Undefined
  {
    r.(failures := r.failures + [Entry(message, Passed(file, Undefined), Passed(index, Undefined))])
  }

  /** `testsRun`: how many checks have been logged. */
  function ChecksRun(r: Reporter): nat {
    |r.failures| + |r.successes|
  }

  /** Logging a success or a failure counts one more check. */
  lemma ChecksRunCounts(r: Reporter, message: string, file: Option<string>, index: Option<nat>)
    ensures ChecksRun(Success(r, message, file, index)) == ChecksRun(r) + 1
    ensures ChecksRun(Failure(r, message, file, index)) == ChecksRun(r) + 1
  {
  }

  /** The property name a file argument becomes when used as an object key: `String(file)`. */
  function FileLabel(file: Arg<string>): string {
    match file
    case Undefined => "undefined"
    case Null => "null"
    case Given(f) => f
  }

  /** The file labels of the entries, in order. */
  function Labels(es: seq<Entry>): (ls: seq<string>)
    ensures |ls| == |es|
    ensures forall i :: 0 <= i < |es| ==> ls[i] == FileLabel(es[i].file)
    decreases |es|
  {
    if |es| == 0 then [] else Labels(es[..|es| - 1]) + [FileLabel(es[|es| - 1].file)]
  }

  /** Adding one failure to the groups, as `_.groupBy` does: onto its file's group, or as a new group at the end. */
  function AddToGroup(groups: Dict<seq<Entry>>, e: Entry): Dict<seq<Entry>> {
    var fileKey := FileLabel(e.file);
    Put(groups, fileKey, Get(groups, fileKey).GetOr([]) + [e])
  }

  /** `_.groupBy(failures, failure => failure[1])`. */
  function GroupBy(es: seq<Entry>): Dict<seq<Entry>>
    decreases |es|
  {
    if |es| == 0 then [] else AddToGroup(GroupBy(es[..|es| - 1]), es[|es| - 1])
  }

  /** The reference definition of a group: the entries whose file label is `fileKey`, in their original order. */
  function WithLabel(es: seq<Entry>, fileKey: string): (out: seq<Entry>)
    ensures forall e :: e in out ==> e in es && FileLabel(e.file) == fileKey
    decreases |es|
  {
    if |es| == 0 then []
    else
      var e := es[|es| - 1];
      WithLabel(es[..|es| - 1], fileKey) + (if FileLabel(e.file) == fileKey then [e] else [])
  }

  /** The position of the first occurrence of `x`. */
  function FirstIndex(xs: seq<string>, x: string): (i: nat)
    requires x in xs
    ensures i < |xs| && xs[i] == x
    ensures forall j :: 0 <= j < i ==> xs[j] != x
  {
    if xs[0] == x then 0 else 1 + FirstIndex(xs[1..], x)
  }

  /**
   The failure groups partition the failures by file: a file label has a
   group exactly when some failure carries it, and that group is the
   failures with that label in their original order.
   */
  lemma {:induction false} GroupByWithLabel(es: seq<Entry>, fileKey: string)
    ensures Get(GroupBy(es), fileKey) == if fileKey in Labels(es) then Some(WithLabel(es, fileKey)) else None
    decreases |es|
  {
    if |es| > 0 {
      var n := |es| - 1;
      var init := es[..n];
      var e := es[n];
      var l := FileLabel(e.file);
      var g := GroupBy(init);
      var v := Get(g, l).GetOr([]) + [e];
      assert GroupBy(es) == Put(g, l, v);
      assert Labels(es) == Labels(init) + [l];
      GroupByWithLabel(init, fileKey);
      PutGet(g, l, v, fileKey);
      if fileKey == l {
        GroupByWithLabel(init, l);
        if l !in Labels(init) {
          WithLabelAbsent(init, l);
        }
      } else {
        WithLabelOther(init, e, fileKey);
      }
    }
  }

  /** No group lists its file twice. */
  lemma {:induction false} GroupByDistinct(es: seq<Entry>)
    ensures DistinctKeys(GroupBy(es))
    decreases |es|
  {
    if |es| > 0 {
      var init := es[..|es| - 1];
      GroupByDistinct(init);
      var g := GroupBy(init);
      var e := es[|es| - 1];
      PutDistinct(g, FileLabel(e.file), Get(g, FileLabel(e.file)).GetOr([]) + [e]);
    }
  }

  /** No entry carries a label that does not occur among the labels. */
  lemma {:induction false} WithLabelAbsent(es: seq<Entry>, fileKey: string)
    requires fileKey !in Labels(es)
    ensures WithLabel(es, fileKey) == []
    decreases |es|
  {
    if |es| > 0 {
      var init := es[..|es| - 1];
      assert Labels(es) == Labels(init) + [FileLabel(es[|es| - 1].file)];
      WithLabelAbsent(init, fileKey);
    }
  }

  /** An entry with another label does not join the group. */
  lemma WithLabelOther(es: seq<Entry>, e: Entry, fileKey: string)
    requires FileLabel(e.file) != fileKey
    ensures WithLabel(es + [e], fileKey) == WithLabel(es, fileKey)
  {
    assert (es + [e])[..|es|] == es;
  }

  /** There is a group for a file exactly when some failure carries that file. */
  lemma GroupByKeys(es: seq<Entry>, fileKey: string)
    ensures fileKey in Keys(GroupBy(es)) <==> fileKey in Labels(es)
  {
    GroupByWithLabel(es, fileKey);
  }

  /** Adding a failure adds its file at the end of the group list if it is new, and leaves the list alone otherwise. */
  lemma GroupByKeysStep(es: seq<Entry>)
    requires |es| > 0
    ensures var init := es[..|es| - 1];
      var l := FileLabel(es[|es| - 1].file);
      Keys(GroupBy(es)) == if l in Keys(GroupBy(init)) then Keys(GroupBy(init)) else Keys(GroupBy(init)) + [l]
  {
    var init := es[..|es| - 1];
    var e := es[|es| - 1];
    var g := GroupBy(init);
    var l := FileLabel(e.file);
    PutKeys(g, l, Get(g, l).GetOr([]) + [e]);
  }

  /** `ks` lists values that occur in `ls`, ordered by where each first occurs there. */
  ghost predicate FirstAppearanceOrder(ks: seq<string>, ls: seq<string>) {
    && (forall x :: x in ks ==> x in ls)
    && forall i, j :: 0 <= i < j < |ks| ==> FirstIndex(ls, ks[i]) < FirstIndex(ls, ks[j])
  }

  /** The groups come in the order their files first appear among the failures. */
  lemma {:induction false} GroupByOrder(es: seq<Entry>)
    ensures FirstAppearanceOrder(Keys(GroupBy(es)), Labels(es))
    decreases |es|
  {
    if |es| > 0 {
      var init := es[..|es| - 1];
      var l := FileLabel(es[|es| - 1].file);
      GroupByOrder(init);
      GroupByKeysStep(es);
      GroupByKeys(init, l);
      FirstAppearanceStep(Keys(GroupBy(init)), Labels(init), l);
      assert Labels(es) == Labels(init) + [l];
    }
  }

  /**
   One step of the fold, on keys alone: if `ks` lists keys of `ls` in order
   of first appearance, adding the next label keeps it so.
   */
  lemma FirstAppearanceStep(ks: seq<string>, ls: seq<string>, l: string)
    requires FirstAppearanceOrder(ks, ls)
    requires l in ks <==> l in ls
    ensures FirstAppearanceOrder(if l in ks then ks else ks + [l], ls + [l])
  {
    var ls' := ls + [l];
    var ks' := if l in ks then ks else ks + [l];
    forall x | x in ls
      ensures FirstIndex(ls', x) == FirstIndex(ls, x)
    {
      FirstIndexPrefix(ls, [l], x);
    }
    if l !in ks {
      assert FirstIndex(ls', l) == |ls| by {
        assert forall j :: 0 <= j < |ls| ==> ls'[j] == ls[j];
      }
    }
    forall i, j | 0 <= i < j < |ks'|
      ensures FirstIndex(ls', ks'[i]) < FirstIndex(ls', ks'[j])
    {
      assert ks'[i] == ks[i] && ks[i] in ks;
      if j < |ks| {
        assert ks'[j] == ks[j] && ks[j] in ks;
      } else {
        assert FirstIndex(ls, ks[i]) < |ls|;
      }
    }
  }

  /** Appending to a list does not move the first occurrence of anything already in it. */
  lemma FirstIndexPrefix(xs: seq<string>, ys: seq<string>, x: string)
    requires x in xs
    ensures FirstIndex(xs + ys, x) == FirstIndex(xs, x)
  {
    var i := FirstIndex(xs, x);
    var k := FirstIndex(xs + ys, x);
    assert (xs + ys)[i] == x;
    assert k <= i;
    assert xs[k] == x;
  }

  /** What `output` decides and prints, less the stream and the colours. */
  datatype Summary = Summary(passed: bool, checksRun: nat, listing: seq<(string, seq<string>)>)

  /** The messages of the entries, in order. */
  function Messages(es: seq<Entry>): (ms: seq<string>)
    ensures |ms| == |es|
    ensures forall i :: 0 <= i < |es| ==> ms[i] == es[i].message
  {
    seq(|es|, i requires 0 <= i < |es| => es[i].message)
  }

  /**
   `output()`: "Success" with the number of checks when nothing failed, and
   nothing else; otherwise "Failed" with that number and, for each file in
   turn, the file and the messages of its failures.
   */
  function Output(r: Reporter): (s: Summary)
    ensures s.checksRun == |r.failures| + |r.successes|
    ensures s.passed <==> |r.failures| == 0
    ensures s.passed ==> s.listing == []
    ensures |s.listing| == |GroupBy(r.failures)|
    ensures forall i :: 0 <= i < |s.listing| ==>
      s.listing[i] == (GroupBy(r.failures)[i].0, Messages(GroupBy(r.failures)[i].1))
  {
    var groups := GroupBy(r.failures);
    Summary(|r.failures| == 0, ChecksRun(r),
            seq(|groups|, i requires 0 <= i < |groups| => (groups[i].0, Messages(groups[i].1))))
  }

  /** Whether a check passed or failed. */
  datatype Verdict = Pass | Fail

  /** A call a linter pass makes on the reporter: `success` or `failure`, with its message and the arguments it passes. */
  datatype Report = Report(verdict: Verdict, message: string, file: Option<string>, index: Option<nat>)

  /** The reporter after the calls, in order. */
  function Record(r: Reporter, reports: seq<Report>): Reporter
    decreases |reports|
  {
    if |reports| == 0 then r
    else
      var rep := reports[0];
      var r' := if rep.verdict == Pass then Success(r, rep.message, rep.file, rep.index)
                else Failure(r, rep.message, rep.file, rep.index);
      Record(r', reports[1..])
  }

  /** The number of failing calls. */
  function FailCount(reports: seq<Report>): nat
    decreases |reports|
  {
    if |reports| == 0 then 0 else (if reports[0].verdict == Fail then 1 else 0) + FailCount(reports[1..])
  }

  /** One check is counted per call, and the failures grow by the failing calls alone. */
  lemma {:induction false} RecordCounts(r: Reporter, reports: seq<Report>)
    ensures ChecksRun(Record(r, reports)) == ChecksRun(r) + |reports|
    ensures |Record(r, reports).failures| == |r.failures| + FailCount(reports)
    decreases |reports|
  {
    if |reports| > 0 {
      var rep := reports[0];
      RecordCounts(if rep.verdict == Pass then Success(r, rep.message, rep.file, rep.index)
                   else Failure(r, rep.message, rep.file, rep.index), reports[1..]);
    }
  }

  /** The triple `failure` logs for a failing call. */
  function FailureEntry(rep: Report): Entry {
    Entry(rep.message, Passed(rep.file, Undefined), Passed(rep.index, Undefined))
  }

  /** The triple `success` logs for a passing call. */
  function SuccessEntry(rep: Report): Entry {
    Entry(rep.message, Passed(rep.file, Null), Passed(rep.index, Null))
  }

  /** The triples the failing calls log, in call order. */
  function FailureEntries(reports: seq<Report>): seq<Entry>
    decreases |reports|
  {
    if |reports| == 0 then []
    else (if reports[0].verdict == Fail then [FailureEntry(reports[0])] else []) + FailureEntries(reports[1..])
  }

  /** The triples the passing calls log, in call order. */
  function SuccessEntries(reports: seq<Report>): seq<Entry>
    decreases |reports|
  {
    if |reports| == 0 then []
    else (if reports[0].verdict == Pass then [SuccessEntry(reports[0])] else []) + SuccessEntries(reports[1..])
  }

  /** Making the calls appends the passing calls' triples to the successes and the failing calls' to the failures. */
  lemma {:induction false} RecordLogs(r: Reporter, reports: seq<Report>)
    ensures Record(r, reports).successes == r.successes + SuccessEntries(reports)
    ensures Record(r, reports).failures == r.failures + FailureEntries(reports)
    decreases |reports|
  {
    if |reports| > 0 {
      var rep := reports[0];
      var r' := if rep.verdict == Pass then Success(r, rep.message, rep.file, rep.index)
                else Failure(r, rep.message, rep.file, rep.index);
      assert Record(r, reports) == Record(r', reports[1..]);
      RecordLogs(r', reports[1..]);
      if rep.verdict == Pass {
        assert r'.successes == r.successes + [SuccessEntry(rep)] && r'.failures == r.failures;
      } else {
        assert r'.failures == r.failures + [FailureEntry(rep)] && r'.successes == r.successes;
      }
    }
  }

  /** The k-th call, if it fails, is logged as the failure numbered by the failing calls before it. */
  lemma {:induction false} FailureEntryAt(reports: seq<Report>, k: nat)
    requires k < |reports| && reports[k].verdict == Fail
    ensures FailCount(reports[..k]) < |FailureEntries(reports)|
    ensures FailureEntries(reports)[FailCount(reports[..k])] == FailureEntry(reports[k])
    decreases k
  {
    CountsTail(reports);
    if k == 0 {
      assert reports[..0] == [];
    } else {
      FailureEntryAt(reports[1..], k - 1);
      assert reports[..k][1..] == reports[1..][..k - 1];
      assert reports[..k][0] == reports[0];
    }
  }

  /** The k-th call, if it passes, is logged as the success numbered by the passing calls before it. */
  lemma {:induction false} SuccessEntryAt(reports: seq<Report>, k: nat)
    requires k < |reports| && reports[k].verdict == Pass
    ensures FailCount(reports[..k]) <= k
    ensures k - FailCount(reports[..k]) < |SuccessEntries(reports)|
    ensures SuccessEntries(reports)[k - FailCount(reports[..k])] == SuccessEntry(reports[k])
    decreases k
  {
    CountsTail(reports);
    if k == 0 {
      assert reports[..0] == [];
    } else {
      SuccessEntryAt(reports[1..], k - 1);
      assert reports[..k][1..] == reports[1..][..k - 1];
      assert reports[..k][0] == reports[0];
    }
  }

  /**
   After the calls, the k-th call sits in the reporter's logs: a failing call
   as the failure after those logged before it and the failing calls before
   it, with an omitted file or index left `undefined`; a passing call likewise
   among the successes, with `null` for an omitted argument.
   */
  lemma RecordEntries(r: Reporter, reports: seq<Report>, k: nat)
    requires k < |reports|
    ensures reports[k].verdict == Fail ==>
      |r.failures| + FailCount(reports[..k]) < |Record(r, reports).failures| &&
      Record(r, reports).failures[|r.failures| + FailCount(reports[..k])]
        == Entry(reports[k].message, Passed(reports[k].file, Undefined), Passed(reports[k].index, Undefined))
    ensures reports[k].verdict == Pass ==>
      FailCount(reports[..k]) <= k &&
      |r.successes| + k - FailCount(reports[..k]) < |Record(r, reports).successes| &&
      Record(r, reports).successes[|r.successes| + k - FailCount(reports[..k])]
        == Entry(reports[k].message, Passed(reports[k].file, Null), Passed(reports[k].index, Null))
  {
    RecordLogs(r, reports);
    if reports[k].verdict == Fail {
      FailureEntryAt(reports, k);
    } else {
      SuccessEntryAt(reports, k);
    }
  }

  /** The log lengths of a non-empty run, from those of its tail. */
  lemma {:induction false} CountsTail(reports: seq<Report>)
    ensures |FailureEntries(reports)| == FailCount(reports)
    ensures |SuccessEntries(reports)| == |reports| - FailCount(reports)
    ensures FailCount(reports) <= |reports|
    decreases |reports|
  {
    if |reports| > 0 {
      CountsTail(reports[1..]);
    }
  }

  /** A run passes exactly when none of its calls was a failure. */
  lemma {:induction false} FailCountZero(reports: seq<Report>)
    ensures FailCount(reports) == 0 <==> forall i :: 0 <= i < |reports| ==> reports[i].verdict == Pass
    decreases |reports|
  {
    if |reports| > 0 {
      FailCountZero(reports[1..]);
      assert forall i :: 1 <= i < |reports| ==> reports[i] == reports[1..][i - 1];
    }
  }
}
