/**
 * The `CustomReporterConfig` reporter: `onTestEnd` classifies each finished test and
 * records failures in the insertion-ordered table; `onEnd` turns the table into the
 * end-of-run summary, returned here as a list of output records instead of printed.
 */
module Reporter {
  import opened Wrappers
  import opened JsString
  import opened Quotes
  import opened FailureTable

  /** The statuses the test runner reports for a finished test. */
  datatype Status = Passed | Failed | TimedOut | Skipped | Interrupted

  /** One error of a test result: message and stack may each be absent. */
  datatype TestError = TestError(message: Option<string>, stack: Option<string>)

  /** The fields of a test result the reporter reads; `duration` is in milliseconds. */
  datatype TestResult = TestResult(status: Status, duration: real, errors: seq<TestError>)

  /** ✅ or ❌. */
  datatype Icon = PassIcon | FailIcon

  /** The content of the line logged for every finished test. */
  datatype LogEntry = LogEntry(icon: Icon, title: string, status: Status, timeTaken: string)

  /** One element of the end-of-run summary, in printing order. */
  datatype Output =
    | FailureHeader
    | FailureBlock(number: nat, title: string, failure: Failure)
    | SuccessHeader
    | QuoteLine(text: string)

  /** The icon of the log line: ✅ for a passed test and ❌ for every other status. */
  function StatusIcon(s: Status): (icon: Icon)
    ensures icon == PassIcon <==> s == Passed
  {
    if s == Passed then PassIcon else FailIcon
  }

  /** `stack.replace(message, '').trim()`. */
  function CleanStack(message: string, stack: string): (r: string)
    ensures Trimmed(r)
    ensures |r| <= |stack|
  {
    TrimSpec(RemoveFirst(stack, message));
    Trim(RemoveFirst(stack, message))
  }

  /** When the message does not occur in the stack, or is empty, cleaning only trims. */
  lemma CleanStackWithoutMessage(message: string, stack: string)
    requires message == "" || IndexOf(stack, message).None?
    ensures CleanStack(message, stack) == Trim(stack)
  {
    if message == "" {
      RemoveEmpty(stack);
    }
  }

  /** When the message occurs, its first occurrence `k` is cut out and the rest trimmed:
      putting the message back at `k` gives the stack again. */
  lemma CleanStackWithMessage(message: string, stack: string)
    requires IndexOf(stack, message).Some?
    ensures var k := IndexOf(stack, message).value;
            && k + |message| <= |stack| && stack[k..k + |message|] == message
            && (forall j :: 0 <= j < k ==> !OccursAt(stack, message, j))
            && CleanStack(message, stack) == Trim(stack[..k] + stack[k + |message|..])
    ensures var k := IndexOf(stack, message).value;
            var cut := RemoveFirst(stack, message);
            CleanStack(message, stack) == Trim(cut) && cut[..k] + message + cut[k..] == stack
  {
    IndexOfSpec(stack, message);
    RemoveFirstSpec(stack, message);
  }

  /** Only the message text is cut out of the stack, not the text around it. */
  lemma CleanStackExample()
    ensures CleanStack("boom", "Error: boom\n  at foo()") == "Error: \n  at foo()"
  {
    var s := "Error: boom\n  at foo()";
    BoomFirstAtSeven(s);
    var cut := RemoveFirst(s, "boom");
    assert cut == s[..7] + s[11..];
    assert cut == "Error: \n  at foo()";
    assert Trimmed(cut);
    TrimmedFixed(cut);
  }

  lemma BoomFirstAtSeven(s: string)
    requires s == "Error: boom\n  at foo()"
    ensures IndexOf(s, "boom") == Some(7)
  {
    IndexOfSpec(s, "boom");
    assert s[7..11] == "boom";
    assert OccursAt(s, "boom", 7);
    assert 'b' !in s[..7];
    forall j | 0 <= j < 7 ensures !OccursAt(s, "boom", j) {
      assert s[..7][j] == s[j];
      assert s[j] != 'b';
      if j + 4 <= |s| {
        assert s[j..j + 4][0] == s[j];
      }
    }
  }

  /** The record kept for a failed test: built from its first error only, absent fields
      read as "". */
  function FailureOf(e: TestError, timeTaken: string): (f: Failure)
    ensures f.message == e.message.GetOr("") && f.timeTaken == timeTaken
    ensures f.stack == CleanStack(f.message, e.stack.GetOr(""))
    ensures Trimmed(f.stack) && |f.stack| <= |e.stack.GetOr("")|
    ensures e.stack.None? ==> f.stack == ""
  {
    var message := e.message.GetOr("");
    var stack := e.stack.GetOr("");
    Failure(message, CleanStack(message, stack), timeTaken)
  }

  /** Whether a result writes to the table: status "failed" with at least one error. */
  predicate Records(result: TestResult) {
    result.status == Failed && |result.errors| > 0
  }

  /** The table after `onTestEnd(test, result)`, with `timeTaken` the formatted duration. */
  function Recorded(t: Table, title: string, result: TestResult, timeTaken: string): (r: Table)
    requires Valid(t)
    ensures Valid(r)
  {
    if result.status == Failed && |result.errors| > 0 then
      Put(t, title, FailureOf(result.errors[0], timeTaken))
    else
      t
  }

  /** A result that is not "failed", or "failed" without errors, leaves the table as it
      was. Otherwise the title maps to the record of the first error, every other record is
      unchanged, and the order grows only when the title is new. */
  lemma RecordedSpec(t: Table, title: string, result: TestResult, timeTaken: string)
    requires Valid(t)
    ensures var r := Recorded(t, title, result, timeTaken);
            && (!Records(result) ==> r == t)
            && (Records(result) ==>
                  && title in r.records
                  && r.records[title] == FailureOf(result.errors[0], timeTaken)
                  && r.records.Keys == t.records.Keys + {title})
            && (forall k :: k in t.records && k != title ==> r.records[k] == t.records[k])
            && r.order == if Records(result) && title !in t.records then t.order + [title] else t.order
  {
    if Records(result) {
      PutSpec(t, title, FailureOf(result.errors[0], timeTaken));
    }
  }

  /** Only the first error is read: dropping the others changes nothing. */
  lemma RecordedReadsFirstErrorOnly(t: Table, title: string, result: TestResult, timeTaken: string)
    requires Valid(t) && |result.errors| > 0
    ensures var first := result.(errors := result.errors[..1]);
            Recorded(t, title, result, timeTaken) == Recorded(t, title, first, timeTaken)
  {
    var first := result.(errors := result.errors[..1]);
    assert first.errors[0] == result.errors[0];
  }

  /** One `onTestEnd` call: the test's title and its result. */
  datatype Event = Event(title: string, result: TestResult)

  /** The table after a run's `onTestEnd` calls, in order, starting from an empty table;
      `fmt` formats a duration in seconds. */
  function Replay(events: seq<Event>, fmt: real -> string): (t: Table)
    ensures Valid(t)
  {
    if events == [] then Empty()
    else
      var e := events[|events| - 1];
      Recorded(Replay(events[..|events| - 1], fmt), e.title, e.result, fmt(e.result.duration / 1000.0))
  }

  /** Reference: the record of the last event that recorded `title`, if any. */
  function LastFailure(events: seq<Event>, title: string, fmt: real -> string): (r: Option<Failure>)
    ensures r.None? <==> forall i :: 0 <= i < |events| ==> !RecordsAt(events, i, title)
  {
    if events == [] then None
    else
      var p := events[..|events| - 1];
      var e := events[|events| - 1];
      assert forall j :: 0 <= j < |p| ==> (RecordsAt(events, j, title) <==> RecordsAt(p, j, title));
      if e.title == title && Records(e.result) then
        assert RecordsAt(events, |p|, title);
        Some(FailureOf(e.result.errors[0], fmt(e.result.duration / 1000.0)))
      else
        LastFailure(p, title, fmt)
  }

  /** Event `i` records a failure for `title`. */
  ghost predicate RecordsAt(events: seq<Event>, i: nat, title: string) {
    i < |events| && events[i].title == title && Records(events[i].result)
  }

  /** Reference: the index of the first event that recorded `title`, if any. */
  function FirstFailure(events: seq<Event>, title: string): (r: Option<nat>)
    ensures r.Some? ==> RecordsAt(events, r.value, title)
    ensures r.Some? ==> forall j :: 0 <= j < r.value ==> !RecordsAt(events, j, title)
    ensures r.None? ==> forall j :: 0 <= j < |events| ==> !RecordsAt(events, j, title)
  {
    if events == [] then None
    else
      var p := events[..|events| - 1];
      var e := events[|events| - 1];
      assert forall j :: 0 <= j < |p| ==> (RecordsAt(events, j, title) <==> RecordsAt(p, j, title));
      match FirstFailure(p, title)
      case Some(i) => Some(i)
      case None => if e.title == title && Records(e.result) then Some(|events| - 1) else None
  }

  /** Last write wins: after a run the table holds a title exactly when some event recorded
      it, and then holds the record of the last such event. Later events of any other kind
      (passed, skipped, failed without errors) never remove or change it. */
  lemma {:induction false} ReplayLastWriteWins(events: seq<Event>, title: string, fmt: real -> string)
    ensures title in Replay(events, fmt).records <==> LastFailure(events, title, fmt).Some?
    ensures title in Replay(events, fmt).records ==>
              Replay(events, fmt).records[title] == LastFailure(events, title, fmt).value
  {
    if events != [] {
      var pre := events[..|events| - 1];
      var e := events[|events| - 1];
      ReplayLastWriteWins(pre, title, fmt);
      RecordedSpec(Replay(pre, fmt), e.title, e.result, fmt(e.result.duration / 1000.0));
    }
  }

  /** One more event leaves the first recording index of every other title as it was. */
  lemma FirstFailureExtend(events: seq<Event>, k: string)
    requires events != []
    ensures var pre := events[..|events| - 1];
            FirstFailure(events, k) ==
              if FirstFailure(pre, k).Some? then FirstFailure(pre, k)
              else if RecordsAt(events, |pre|, k) then Some(|pre|) else None
  {
  }

  /** `o` lists exactly the titles some event recorded, ordered by the first event that
      recorded each of them. */
  ghost predicate OrderedByFirstFailure(events: seq<Event>, o: seq<string>) {
    && (forall k :: k in o <==> FirstFailure(events, k).Some?)
    && (forall p, q :: 0 <= p < q < |o| ==>
          FirstFailure(events, o[p]).value < FirstFailure(events, o[q]).value)
  }

  /** Insertion order: the table's iteration order lists exactly the titles some event
      recorded, ordered by the first event that recorded each of them. */
  lemma {:induction false} ReplayOrder(events: seq<Event>, fmt: real -> string)
    ensures OrderedByFirstFailure(events, Replay(events, fmt).order)
  {
    if events != [] {
      var pre := events[..|events| - 1];
      ReplayOrder(pre, fmt);
      ReplayStepOrder(events, fmt);
      OrderStep(events, Replay(pre, fmt).order, Replay(events, fmt).order);
    }
  }

  /** One more event keeps the order sorted by first recording: a title is appended only
      when this event is the first to record it. */
  lemma OrderStep(events: seq<Event>, o0: seq<string>, o: seq<string>)
    requires events != []
    requires OrderedByFirstFailure(events[..|events| - 1], o0)
    requires var e := events[|events| - 1];
             o == if RecordsAt(events, |events| - 1, e.title) && e.title !in o0
                  then o0 + [e.title] else o0
    ensures OrderedByFirstFailure(events, o)
  {
    forall k ensures k in o <==> FirstFailure(events, k).Some? {
      FirstFailureExtend(events, k);
    }
    forall p, q | 0 <= p < q < |o|
      ensures FirstFailure(events, o[p]).value < FirstFailure(events, o[q]).value
    {
      FirstFailureExtend(events, o[p]);
      FirstFailureExtend(events, o[q]);
    }
  }

  /** The order after one more event: its title is appended exactly when the event records
      a title not yet in the table. */
  lemma ReplayStepOrder(events: seq<Event>, fmt: real -> string)
    requires events != []
    ensures var pre := events[..|events| - 1];
            var t0 := Replay(pre, fmt);
            Replay(events, fmt).order ==
              if RecordsAt(events, |pre|, events[|pre|].title) && events[|pre|].title !in t0.order
              then t0.order + [events[|pre|].title] else t0.order
  {
    var pre := events[..|events| - 1];
    var e := events[|events| - 1];
    RecordedSpec(Replay(pre, fmt), e.title, e.result, fmt(e.result.duration / 1000.0));
  }

  /** The blocks `Failure #1` … for the first `n` titles of the table, in iteration order. */
  function Blocks(t: Table, n: nat): (bs: seq<Output>)
    requires Valid(t) && n <= |t.order|
    ensures |bs| == n
  {
    if n == 0 then []
    else Blocks(t, n - 1) + [FailureBlock(n, t.order[n - 1], t.records[t.order[n - 1]])]
  }

  /** Block `i` is `Failure #i+1`: the `i`-th title in iteration order with its record. */
  lemma {:induction false} BlocksSpec(t: Table, n: nat)
    requires Valid(t) && n <= |t.order|
    ensures forall i :: 0 <= i < n ==>
              Blocks(t, n)[i] == FailureBlock(i + 1, t.order[i], t.records[t.order[i]])
  {
    if n > 0 {
      BlocksSpec(t, n - 1);
    }
  }

  /** What `onEnd` prints, with `r` the random draw. */
  function Summarize(t: Table, r: real): (out: seq<Output>)
    requires Valid(t) && IsRandom(r)
    ensures |out| == if |t.records| > 0 then |t.order| + 2 else 2
  {
    if |t.records| > 0 then
      [FailureHeader] + Blocks(t, |t.order|) + [QuoteLine(FailureQuote(r))]
    else
      [SuccessHeader, QuoteLine(SuccessQuote(r))]
  }

  /** A non-empty table gives a header, one block per entry numbered 1..N in iteration
      order and one failure quote; an empty table gives the success header and one success
      quote. */
  lemma SummarizeSpec(t: Table, r: real)
    requires Valid(t) && IsRandom(r)
    ensures var out := Summarize(t, r);
            |t.records| > 0 ==>
              && out[0] == FailureHeader
              && (forall i :: 0 <= i < |t.order| ==>
                    out[i + 1] == FailureBlock(i + 1, t.order[i], t.records[t.order[i]]))
              && out[|out| - 1] == QuoteLine(FailureQuote(r))
    ensures |t.records| == 0 ==> Summarize(t, r) == [SuccessHeader, QuoteLine(SuccessQuote(r))]
  {
    if |t.records| > 0 {
      var out := Summarize(t, r);
      var bs := Blocks(t, |t.order|);
      var hb := [FailureHeader] + bs;
      assert out == hb + [QuoteLine(FailureQuote(r))];
      BlocksSpec(t, |t.order|);
      forall i | 0 <= i < |t.order|
        ensures out[i + 1] == FailureBlock(i + 1, t.order[i], t.records[t.order[i]])
      {
        assert out[i + 1] == hb[i + 1] == bs[i];
      }
    }
  }

  /** The two kinds of summary element that are counted. */
  datatype Kind = Block | Quote

  predicate OfKind(o: Output, k: Kind) {
    match k
    case Block => o.FailureBlock?
    case Quote => o.QuoteLine?
  }

  /** The number of elements of `s` of kind `k`. */
  function Count(s: seq<Output>, k: Kind): nat
  {
    if s == [] then 0 else Count(s[..|s| - 1], k) + (if OfKind(s[|s| - 1], k) then 1 else 0)
  }

  lemma {:induction false} CountAppend(a: seq<Output>, b: seq<Output>, p: Kind)
    ensures Count(a + b, p) == Count(a, p) + Count(b, p)
    decreases |b|
  {
    if b == [] {
      assert a + b == a;
    } else {
      CountAppend(a, b[..|b| - 1], p);
      assert (a + b)[..|a + b| - 1] == a + b[..|b| - 1];
      assert (a + b)[|a + b| - 1] == b[|b| - 1];
    }
  }

  lemma {:induction false} CountBlocks(t: Table, n: nat)
    requires Valid(t) && n <= |t.order|
    ensures Count(Blocks(t, n), Block) == n
    ensures Count(Blocks(t, n), Quote) == 0
  {
    if n > 0 {
      CountBlocks(t, n - 1);
      var bs := Blocks(t, n);
      var last := FailureBlock(n, t.order[n - 1], t.records[t.order[n - 1]]);
      assert bs == Blocks(t, n - 1) + [last];
      assert bs[..|bs| - 1] == Blocks(t, n - 1) && bs[|bs| - 1] == last;
      assert Count(bs, Block) == Count(Blocks(t, n - 1), Block) + 1;
      assert Count(bs, Quote) == Count(Blocks(t, n - 1), Quote);
    }
  }

  /** The summary has exactly one quote line, taken from the list that matches the branch,
      and exactly as many failure blocks as the table has entries. */
  lemma SummaryCounts(t: Table, r: real)
    requires Valid(t) && IsRandom(r)
    ensures Count(Summarize(t, r), Quote) == 1
    ensures Count(Summarize(t, r), Block) == |t.records|
    ensures |t.records| > 0 ==> Summarize(t, r)[|Summarize(t, r)| - 1].text in FailureQuotes
    ensures |t.records| == 0 ==> Summarize(t, r)[|Summarize(t, r)| - 1].text in SuccessQuotes
  {
    var out := Summarize(t, r);
    SizeIsOrderLength(t);
    if |t.records| > 0 {
      var bs := Blocks(t, |t.order|);
      var q := [QuoteLine(FailureQuote(r))];
      assert out == [FailureHeader] + bs + q;
      CountBlocks(t, |t.order|);
      CountAppend([FailureHeader], bs, Block);
      CountAppend([FailureHeader] + bs, q, Block);
      CountAppend([FailureHeader], bs, Quote);
      CountAppend([FailureHeader] + bs, q, Quote);
      assert Count([FailureHeader], Block) == 0 && Count(q, Block) == 0;
      assert Count([FailureHeader], Quote) == 0 && Count(q, Quote) == 1;
    } else {
      assert out[..1] == [SuccessHeader] && out[..1][..0] == [];
      assert Count(out[..1], Block) == 0;
      assert Count(out[..1], Quote) == 0;
      assert Count(out, Block) == 0;
      assert Count(out, Quote) == 1;
    }
  }

  /** The reporter object: its `failures` map, held as iteration order plus records, and the
      `toFixed(2)` formatting it applies to `duration / 1000`. */
  class CustomReporter {
    var order: seq<string>
    var records: map<string, Failure>
    const toFixed2: real -> string

    ghost predicate Valid()
      reads this
    {
      FailureTable.Valid(Table(order, records))
    }

    /** The failures table as a value. */
    function Failures(): Table
      reads this
    {
      Table(order, records)
    }

    constructor (toFixed2: real -> string)
      ensures Valid() && Failures() == Empty() && this.toFixed2 == toFixed2
    {
      order := [];
      records := map[];
      this.toFixed2 := toFixed2;
    }

    /** `onTestEnd(test, result)`: returns the logged line and updates the table in place. */
    method OnTestEnd(title: string, result: TestResult) returns (entry: LogEntry)
      requires Valid()
      modifies this
      ensures Valid()
      ensures entry == LogEntry(StatusIcon(result.status), title, result.status,
                                toFixed2(result.duration / 1000.0))
      ensures Failures() == Recorded(old(Failures()), title, result, entry.timeTaken)
    {
      ghost var before := Failures();
      var icon := if result.status == Passed then PassIcon else FailIcon;
      var timeTaken := toFixed2(result.duration / 1000.0);
      entry := LogEntry(icon, title, result.status, timeTaken);
      if result.status == Failed {
        if |result.errors| > 0 {
          var failure := result.errors[0];
          var message := failure.message.GetOr("");
          var stack := failure.stack.GetOr("");
          var stackWithoutMessage := Trim(RemoveFirst(stack, message));
          if title !in records {
            order := order + [title];
          }
          records := records[title := Failure(message, stackWithoutMessage, timeTaken)];
          assert Failure(message, stackWithoutMessage, timeTaken) == FailureOf(failure, timeTaken);
          assert Failures() == Put(before, title, FailureOf(failure, timeTaken));
        }
      }
    }

    /** `onEnd()` with the random draw `r`: the summary, built by numbering the entries in
        iteration order; the table is only read. */
    method OnEnd(r: real) returns (out: seq<Output>)
      requires Valid() && IsRandom(r)
      ensures out == Summarize(Failures(), r)
    {
      ghost var t := Failures();
      if |records| > 0 {
        out := [FailureHeader];
        var index := 1;
        while index <= |order|
          invariant 1 <= index <= |order| + 1
          invariant out == [FailureHeader] + Blocks(t, index - 1)
        {
          var title := order[index - 1];
          assert Blocks(t, index) == Blocks(t, index - 1) + [FailureBlock(index, title, records[title])];
          out := out + [FailureBlock(index, title, records[title])];
          index := index + 1;
        }
        out := out + [QuoteLine(FailureQuote(r))];
        assert |t.records| > 0;
        assert Summarize(t, r) == [FailureHeader] + Blocks(t, |t.order|) + [QuoteLine(FailureQuote(r))];
      } else {
        out := [SuccessHeader, QuoteLine(SuccessQuote(r))];
      }
    }
  }

  /** The table after the first `i + 1` events is the one after the first `i`, updated by
      event `i`. */
  lemma ReplayStep(events: seq<Event>, i: nat, fmt: real -> string)
    requires i < |events|
    ensures Replay(events[..i + 1], fmt)
         == Recorded(Replay(events[..i], fmt), events[i].title, events[i].result,
                     fmt(events[i].result.duration / 1000.0))
  {
    var ev := events[..i + 1];
    var e := ev[|ev| - 1];
    assert ev[..|ev| - 1] == events[..i];
    assert e == events[i];
  }

  /** The host's calls of `onTestEnd` for a run's events, in order, on a fresh reporter:
      the reporter's table ends as `Replay` of the events, so the lemmas about `Replay`
      hold of the object. */
  method RunTests(events: seq<Event>, fmt: real -> string) returns (reporter: CustomReporter)
    ensures fresh(reporter) && reporter.Valid() && reporter.toFixed2 == fmt
    ensures reporter.Failures() == Replay(events, fmt)
  {
    reporter := new CustomReporter(fmt);
    var i := 0;
    while i < |events|
      invariant 0 <= i <= |events|
      invariant reporter.Valid() && reporter.toFixed2 == fmt
      invariant reporter.Failures() == Replay(events[..i], fmt)
    {
      ReplayStep(events, i, fmt);
      var entry := reporter.OnTestEnd(events[i].title, events[i].result);
      i := i + 1;
    }
    assert events[..i] == events;
  }
}
