/** The derive macro's error collector (`Context`): errors are accumulated
    while unchecked; `check` consumes it; dropping one that was never checked
    panics unless the thread is already panicking. */
module ErrorContext {

  /** What a recorded `syn::Error` says. Spans and message text are not
      modelled; the variant names which misuse was reported. */
  datatype Message =
    | NotAStruct
    | AutoKeyNotU64
    | UnknownAttribute(name: string)
    | UnexpectedLiteral

  /** `errors: Some(list)` before `check`, `None` after it. */
  datatype Context = Unchecked(errors: seq<Message>) | Checked

  /** The outcome of `check`: `Ok(())`, or `Err` with every recorded error. */
  datatype CheckResult = Pass | Fail(errors: seq<Message>)

  /** What dropping a context does. */
  datatype DropOutcome = Panics | Quiet

  /** `Context::new`: unchecked, no errors yet. */
  function New(): (c: Context)
    ensures c.Unchecked? && |c.errors| == 0
  {
    Unchecked([])
  }

  /** `error_spanned_by`: records one more error after the earlier ones. The
      source unwraps the error list, which panics on a context whose list is
      gone. No caller in the crate reaches that state: `check` consumes the
      context and `Context::default()` is never called. Hence the
      precondition. */
  function ErrorSpannedBy(c: Context, m: Message): (c': Context)
    requires c.Unchecked?
    ensures c'.Unchecked?
    ensures |c'.errors| == |c.errors| + 1
    ensures c'.errors[..|c.errors|] == c.errors && c'.errors[|c.errors|] == m
  {
    Unchecked(c.errors + [m])
  }

  /** `check`: passes iff nothing was recorded, otherwise hands back all
      errors; the context it leaves behind is checked. */
  function Check(c: Context): (r: (CheckResult, Context))
    requires c.Unchecked?
    ensures r.1 == Checked
    ensures r.0.Pass? <==> |c.errors| == 0
    ensures r.0.Fail? ==> r.0.errors == c.errors
  {
    if |c.errors| == 0 then (Pass, Checked) else (Fail(c.errors), Checked)
  }

  /** The `Drop` guard; `threadPanicking` stands for `thread::panicking()`. */
  function Drop(c: Context, threadPanicking: bool): (r: DropOutcome)
    ensures r == Panics ==> c.Unchecked?
    ensures c.Unchecked? && !threadPanicking ==> r == Panics
    ensures threadPanicking ==> r == Quiet
  {
    if !threadPanicking && c.Unchecked? then Panics else Quiet
  }

  /** Records the given errors one after another. */
  function RecordAll(c: Context, ms: seq<Message>): (c': Context)
    requires c.Unchecked?
    ensures c'.Unchecked?
    decreases |ms|
  {
    if |ms| == 0 then c else RecordAll(ErrorSpannedBy(c, ms[0]), ms[1..])
  }

  /** Recording appends in insertion order. */
  lemma {:induction false} RecordAllAppends(c: Context, ms: seq<Message>)
    requires c.Unchecked?
    ensures RecordAll(c, ms).errors == c.errors + ms
    decreases |ms|
  {
    if |ms| > 0 {
      RecordAllAppends(ErrorSpannedBy(c, ms[0]), ms[1..]);
      assert c.errors + [ms[0]] + ms[1..] == c.errors + ms;
    }
  }

  /** Whatever sequence of errors a fresh context records, `check` reports
      exactly that sequence, in order, and passes only when it is empty. */
  lemma CheckReportsEverything(ms: seq<Message>)
    ensures Check(RecordAll(New(), ms)).0 == if |ms| == 0 then Pass else Fail(ms)
  {
    RecordAllAppends(New(), ms);
  }

  /** A checked context is dropped quietly; an unchecked one panics unless
      the thread is already unwinding. */
  lemma DropAfterCheck(c: Context, threadPanicking: bool)
    requires c.Unchecked?
    ensures Drop(Check(c).1, threadPanicking) == Quiet
    ensures Drop(c, threadPanicking) == Panics <==> !threadPanicking
  {
  }
}
