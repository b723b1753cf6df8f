/**
 * Unchecked reports (src/models/report.rs): the record a report is read
 * from, the page-by-page fetch loop, and the accessors.
 *
 * A missing token, a transport failure or an undecodable body is returned
 * as an error; a body without a `reports` array or a record lacking one of
 * the four string fields panics.
 */
module Reports {
  import opened Wrappers
  import opened Json
  import opened Pagination

  datatype Report = Report(title: string, url: string, reportedOn: string, loginName: string)
  {
    /** `title()`: the `title` field of the report's record. */
    function Title(): (t: string)
      ensures Get(ReportRecord(this), "title") == Str(t)
    { title }

    /** `reported_on()`: the `reportedOn` field of the report's record. */
    function ReportedOn(): (d: string)
      ensures Get(ReportRecord(this), "reportedOn") == Str(d)
    { reportedOn }

    /** `login_name()`: the `user.login_name` field of the report's record. */
    function LoginName(): (n: string)
      ensures Get(Get(ReportRecord(this), "user"), "login_name") == Str(n)
    { loginName }
  }

  /** The report a record stands for: `title`, `url`, `reportedOn` and `user.login_name`, all strings. */
  function ToReport(rec: Value): Option<Report>
  {
    var title := AsStr(Get(rec, "title"));
    var url := AsStr(Get(rec, "url"));
    var reportedOn := AsStr(Get(rec, "reportedOn"));
    var loginName := AsStr(Get(Get(rec, "user"), "login_name"));
    if title.Some? && url.Some? && reportedOn.Some? && loginName.Some? then
      Some(Report(title.value, url.value, reportedOn.value, loginName.value))
    else None
  }

  /**
   * A record gives a report exactly when `title`, `url`, `reportedOn` and
   * `user.login_name` are all strings, and the report holds those strings.
   */
  lemma ToReportReads(rec: Value)
    ensures ToReport(rec).Some? <==>
      Get(rec, "title").Str? && Get(rec, "url").Str? && Get(rec, "reportedOn").Str?
      && Get(Get(rec, "user"), "login_name").Str?
    ensures ToReport(rec).Some? ==>
      && Str(ToReport(rec).value.title) == Get(rec, "title")
      && Str(ToReport(rec).value.url) == Get(rec, "url")
      && Str(ToReport(rec).value.reportedOn) == Get(rec, "reportedOn")
      && Str(ToReport(rec).value.loginName) == Get(Get(rec, "user"), "login_name")
  {
  }

  /** The accessors of a report read from a record give back that record's fields. */
  lemma ReportAccessorsReadRecord(rec: Value, rep: Report)
    requires ToReport(rec) == Some(rep)
    ensures Get(rec, "title") == Str(rep.Title())
    ensures Get(rec, "reportedOn") == Str(rep.ReportedOn())
    ensures Get(Get(rec, "user"), "login_name") == Str(rep.LoginName())
  {
  }

  /** The record the server would send for a report. */
  function ReportRecord(rep: Report): Value
  {
    Object(map[
      "title" := Str(rep.title),
      "url" := Str(rep.url),
      "reportedOn" := Str(rep.reportedOn),
      "user" := Object(map["login_name" := Str(rep.loginName)])])
  }

  /** A report survives being sent as a record and read back. */
  lemma ReportRecordRoundTrip(rep: Report)
    ensures ToReport(ReportRecord(rep)) == Some(rep)
  {
  }

  /** Only the four selected fields are read: any other field of a record is ignored. */
  lemma ToReportIgnoresOtherFields(fields: map<string, Value>, key: string, v: Value)
    requires key !in {"title", "url", "reportedOn", "user"}
    ensures ToReport(Object(fields[key := v])) == ToReport(Object(fields))
  {
    GetAfterSet(fields, key, v, "title");
    GetAfterSet(fields, key, v, "url");
    GetAfterSet(fields, key, v, "reportedOn");
    GetAfterSet(fields, key, v, "user");
  }

  /** How the fetch loop reads the reply to one page request. */
  function ReportStep(reply: Reply): Step<Report>
  {
    match reply
    case TransportFailed => Failed(TransportError)
    case Undecodable => Failed(DecodeError)
    case Body(json) =>
      var arr := Get(json, "reports");
      if !arr.Array? then Aborted
      else if arr.elems == [] then EndOfPages
      else
        var reports := DecodeAll(ToReport, arr.elems);
        if reports.Some? then Records(reports.value) else Aborted
  }

  /**
   * Reading a reply: a transport or decode failure is that error; an
   * empty `reports` array ends the list; a non-empty page is every record
   * decoded, in order; anything else aborts.
   */
  lemma ReportStepReads(reply: Reply)
    ensures ReportStep(reply).Failed? <==> reply.TransportFailed? || reply.Undecodable?
    ensures reply.TransportFailed? ==> ReportStep(reply) == Failed(TransportError)
    ensures reply.Undecodable? ==> ReportStep(reply) == Failed(DecodeError)
    ensures ReportStep(reply).EndOfPages? <==> reply.Body? && Get(reply.json, "reports") == Array([])
    ensures ReportStep(reply).Records? ==>
      && reply.Body? && Get(reply.json, "reports").Array?
      && Get(reply.json, "reports").elems != []
      && DecodeAll(ToReport, Get(reply.json, "reports").elems) == Some(ReportStep(reply).items)
    ensures
      && reply.Body? && Get(reply.json, "reports").Array?
      && Get(reply.json, "reports").elems != []
      && DecodeAll(ToReport, Get(reply.json, "reports").elems).Some?
      ==> ReportStep(reply) == Records(DecodeAll(ToReport, Get(reply.json, "reports").elems).value)
  {
  }

  /** The loop's reading of every reply of the page source, page by page. */
  function ReportSteps(pages: seq<Reply>): seq<Step<Report>>
  {
    seq(|pages|, k requires 0 <= k < |pages| => ReportStep(pages[k]))
  }

  /** What `Report::fetch` returns for a token (absent when the variable is unset) and a page source. */
  function ReportFetch(token: Option<string>, pages: seq<Reply>): Outcome<seq<Report>>
    requires token.Some? ==> FirstStop(ReportSteps(pages)) < |pages|
  {
    if token.None? then Err(AuthMissing) else Fetch(ReportSteps(pages))
  }

  /**
   * Without a token the fetch ends before any request; with one, its outcome
   * is read off the first reply that stops the loop, holding the records of
   * every reply before it.
   */
  lemma ReportFetchOutcome(token: Option<string>, pages: seq<Reply>)
    requires token.Some? ==> FirstStop(ReportSteps(pages)) < |pages|
    ensures token.None? ==> ReportFetch(token, pages) == Err(AuthMissing)
    ensures token.Some? ==>
      var n := FirstStop(ReportSteps(pages));
      ReportFetch(token, pages) == StopOutcome(ReportStep(pages[n]), Gathered(ReportSteps(pages[..n])))
  {
    if token.Some? {
      var n := FirstStop(ReportSteps(pages));
      assert ReportSteps(pages)[..n] == ReportSteps(pages[..n]);
    }
  }

  /**
   * No reply after the one that stops the loop is read: replacing every
   * later reply leaves the fetch's result unchanged.
   */
  lemma ReportFetchIgnoresLaterReplies(token: Option<string>, pages: seq<Reply>, rest: seq<Reply>)
    requires FirstStop(ReportSteps(pages)) < |pages|
    ensures var n := FirstStop(ReportSteps(pages));
      && FirstStop(ReportSteps(pages[..n + 1] + rest)) < |pages[..n + 1] + rest|
      && ReportFetch(token, pages[..n + 1] + rest) == ReportFetch(token, pages)
  {
    var steps := ReportSteps(pages);
    var n := FirstStop(steps);
    var later := pages[..n + 1] + rest;
    forall i | 0 <= i < |later|
      ensures ReportSteps(later)[i] == (steps[..n + 1] + ReportSteps(rest))[i]
    {
      if i <= n {
        assert later[i] == pages[i];
      } else {
        assert later[i] == rest[i - n - 1];
      }
    }
    assert ReportSteps(later) == steps[..n + 1] + ReportSteps(rest);
    FetchIgnoresLaterPages(steps, ReportSteps(rest));
  }

  /**
   * One pass of the fetch loop's body over the reply to a request: the
   * body's `reports` array is read and each record is pushed in turn.
   */
  method ReadReportPage(reply: Reply) returns (step: Step<Report>)
    ensures step == ReportStep(reply)
  {
    if reply.TransportFailed? {
      return Failed(TransportError);
    }
    if reply.Undecodable? {
      return Failed(DecodeError);
    }
    var arr := Get(reply.json, "reports");
    if !arr.Array? {
      return Aborted;
    }
    if |arr.elems| == 0 {
      return EndOfPages;
    }
    var pushed: seq<Report> := [];
    for j := 0 to |arr.elems|
      invariant DecodeAll(ToReport, arr.elems[..j]) == Some(pushed)
    {
      DecodeAllSnoc(ToReport, arr.elems, j);
      var rep := ToReport(arr.elems[j]);
      if rep.None? {
        DecodeAllSpec(ToReport, arr.elems);
        return Aborted;
      }
      pushed := pushed + [rep.value];
    }
    assert arr.elems[..|arr.elems|] == arr.elems;
    return Records(pushed);
  }

  /**
   * The fetch loop.  `requested` lists the page numbers whose request was
   * sent, in order; `pauses` counts the waits between requests.
   */
  method FetchReports(token: Option<string>, pages: seq<Reply>)
    returns (r: Outcome<seq<Report>>, requested: seq<nat>, pauses: nat)
    requires token.Some? ==> FirstStop(ReportSteps(pages)) < |pages|
    ensures r == ReportFetch(token, pages)
    ensures token.None? ==> requested == [] && pauses == 0
    ensures token.Some? ==> requested == PageNumbers(FirstStop(ReportSteps(pages)) + 1)
    ensures token.Some? ==> pauses == FirstStop(ReportSteps(pages))
  {
    ghost var steps := ReportSteps(pages);
    var page: nat := 1;
    var reports: seq<Report> := [];
    requested, pauses := [], 0;
    while true
      invariant 1 <= page <= FirstStop(steps) + 1
      invariant token.None? ==> page == 1
      invariant reports == Gathered(steps[..page - 1])
      invariant requested == PageNumbers(page - 1) && pauses == page - 1
      decreases FirstStop(steps) + 1 - page
    {
      if token.None? {
        return Err(AuthMissing), requested, pauses;
      }
      requested := requested + [page];
      var step := ReadReportPage(pages[page - 1]);
      if !step.Records? {
        FetchStopsAt(steps, page - 1);
        r := StopOutcome(step, reports);
        return;
      }
      GatherOneMore(steps, page - 1, reports);
      reports := reports + step.items;
      page := page + 1;
      pauses := pauses + 1;
    }
  }

  /**
   * The fetch fails with an error exactly when the token is missing or the
   * reply that stops the loop is a transport failure or an undecodable body.
   */
  lemma ReportFetchErrors(token: Option<string>, pages: seq<Reply>)
    requires token.Some? ==> FirstStop(ReportSteps(pages)) < |pages|
    ensures ReportFetch(token, pages).Err? <==>
      token.None? || pages[FirstStop(ReportSteps(pages))].TransportFailed?
      || pages[FirstStop(ReportSteps(pages))].Undecodable?
    ensures token.None? ==> ReportFetch(token, pages) == Err(AuthMissing)
    ensures token.Some? && pages[FirstStop(ReportSteps(pages))].TransportFailed? ==>
      ReportFetch(token, pages) == Err(TransportError)
    ensures token.Some? && pages[FirstStop(ReportSteps(pages))].Undecodable? ==>
      ReportFetch(token, pages) == Err(DecodeError)
  {
  }

  /** The fetch returns a list exactly when the loop stops at a page whose `reports` array is empty. */
  lemma ReportFetchSucceeds(token: Option<string>, pages: seq<Reply>)
    requires token.Some? ==> FirstStop(ReportSteps(pages)) < |pages|
    ensures ReportFetch(token, pages).Ok? <==>
      token.Some? && pages[FirstStop(ReportSteps(pages))].Body?
      && Get(pages[FirstStop(ReportSteps(pages))].json, "reports") == Array([])
  {
  }

  /** A page holding the given records. */
  function ReportPage(records: seq<Value>): Reply
  {
    Body(Object(map["reports" := Array(records)]))
  }

  /** A page holding the record of one report is read as that report alone. */
  lemma SingleReportPage(rep: Report)
    ensures ReportStep(ReportPage([ReportRecord(rep)])) == Records([rep])
  {
    var records := [ReportRecord(rep)];
    ReportRecordRoundTrip(rep);
    DecodeAllSpec(ToReport, records);
    assert DecodeAll(ToReport, records).value == [rep];
  }

  /** Pages `[a]`, `[b]`, `[]` yield exactly `[a, b]`, after three requests and two pauses. */
  lemma TwoPagesThenEmpty(token: string, a: Report, b: Report)
    ensures var pages := [ReportPage([ReportRecord(a)]), ReportPage([ReportRecord(b)]), ReportPage([])];
      && FirstStop(ReportSteps(pages)) == 2
      && ReportFetch(Some(token), pages) == Ok([a, b])
  {
    var pages := [ReportPage([ReportRecord(a)]), ReportPage([ReportRecord(b)]), ReportPage([])];
    SingleReportPage(a);
    SingleReportPage(b);
    var steps := ReportSteps(pages);
    assert steps[0] == Records([a]) && steps[1] == Records([b]) && steps[2] == EndOfPages;
    assert steps == [Records([a]), Records([b]), EndOfPages];
    TwoPagesThenEnd([a], [b]);
    assert [a] + [b] == [a, b];
  }
}
