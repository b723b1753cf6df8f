/**
 * Page-by-page fetching of a remote list, shared by the report and the
 * product fetchers.
 *
 * The remote side is an abstract page source: the reply to the request
 * for page `k + 1` is read, by a kind-specific function, into `steps[k]`:
 * the records of a non-empty page, the end-of-list sentinel (an empty
 * array), an error returned to the caller, or an abort (a panic).  A fetch
 * requests pages 1, 2, 3, ... and stops at the first step that is not a
 * non-empty page.
 */
module Pagination {
  import opened Wrappers
  import opened Json

  datatype FetchError = AuthMissing | TransportError | DecodeError

  /** What one page request yields before its body is interpreted. */
  datatype Reply = TransportFailed | Undecodable | Body(json: Value)

  /** How the fetch loop reads one reply. */
  datatype Step<T> = Records(items: seq<T>) | EndOfPages | Failed(error: FetchError) | Aborted

  /** The end of a whole fetch: a list, an error result, or a panic (the process dies). */
  datatype Outcome<T> = Ok(value: T) | Err(error: FetchError) | Panicked

  /**
   * The index of the first step at which the loop stops, or `|steps|`
   * when none of the given steps stops it.
   */
  function FirstStop<T>(steps: seq<Step<T>>): (n: nat)
    ensures n <= |steps|
    ensures n < |steps| ==> !steps[n].Records?
  {
    if steps == [] then 0
    else if steps[0].Records? then 1 + FirstStop(steps[1..])
    else 0
  }

  /** The page numbers a fetch that reads `n` pages requests: 1, 2, ..., `n`, in order. */
  function PageNumbers(n: nat): (s: seq<nat>)
    ensures |s| == n
    ensures forall i :: 0 <= i < n ==> s[i] == i + 1
  {
    if n == 0 then [] else PageNumbers(n - 1) + [n]
  }

  /** The records one step contributes to the list: those of a non-empty page, none otherwise. */
  function PageItems<T>(s: Step<T>): seq<T>
  {
    if s.Records? then s.items else []
  }

  /** The records of the given pages, page after page, in server order. */
  function Gathered<T>(steps: seq<Step<T>>): (r: seq<T>)
    ensures steps == [] ==> r == []
  {
    if steps == [] then []
    else Gathered(steps[..|steps| - 1]) + PageItems(steps[|steps| - 1])
  }

  /**
   * Reading more pages only appends: the records gathered from any leading
   * run of the pages are a prefix of the records gathered from all of them.
   */
  lemma {:induction false} GatheredPrefix<T>(steps: seq<Step<T>>, k: nat)
    requires k <= |steps|
    ensures Gathered(steps[..k]) <= Gathered(steps)
  {
    if k < |steps| {
      var init := steps[..|steps| - 1];
      GatheredPrefix(init, k);
      assert init[..k] == steps[..k];
    } else {
      assert steps[..k] == steps;
    }
  }

  /**
   * What the fetch returns once the loop stops at `last` holding `gathered`:
   * the list on the end-of-list sentinel, the error of a failed request, a
   * panic otherwise.
   */
  function StopOutcome<T>(last: Step<T>, gathered: seq<T>): (o: Outcome<seq<T>>)
    ensures o.Ok? <==> last.EndOfPages?
    ensures o.Err? <==> last.Failed?
    ensures o.Ok? ==> o.value == gathered
    ensures o.Err? ==> o.error == last.error
  {
    if last.EndOfPages? then Ok(gathered)
    else if last.Failed? then Err(last.error)
    else Panicked
  }

  /** What a fetch over the page source returns. */
  function Fetch<T>(steps: seq<Step<T>>): (o: Outcome<seq<T>>)
    requires FirstStop(steps) < |steps|
  {
    var n := FirstStop(steps);
    StopOutcome(steps[n], Gathered(steps[..n]))
  }

  /**
   * A fetch returns the list exactly when the first stop is the end-of-list
   * sentinel, and then the list is every record before it; it returns an
   * error exactly when the first stop is a failed request.
   */
  lemma FetchOutcome<T>(steps: seq<Step<T>>)
    requires FirstStop(steps) < |steps|
    ensures Fetch(steps).Ok? <==> steps[FirstStop(steps)].EndOfPages?
    ensures Fetch(steps).Err? <==> steps[FirstStop(steps)].Failed?
    ensures Fetch(steps).Ok? ==> Fetch(steps).value == Gathered(steps[..FirstStop(steps)])
    ensures Fetch(steps).Err? ==> Fetch(steps).error == steps[FirstStop(steps)].error
  {
  }

  /** Two non-empty pages and then the end of the list: the fetch stops at the third and returns both pages' records. */
  lemma TwoPagesThenEnd<T>(x: seq<T>, y: seq<T>)
    ensures FirstStop([Records(x), Records(y), EndOfPages]) == 2
    ensures Fetch([Records(x), Records(y), EndOfPages]) == Ok(x + y)
  {
    var steps := [Records(x), Records(y), EndOfPages];
    assert steps[1..] == [Records(y), EndOfPages];
    assert steps[1..][1..] == [EndOfPages];
    assert FirstStop(steps[1..][1..]) == 0;
    assert FirstStop(steps[1..]) == 1;
    assert steps[..2] == [Records(x), Records(y)];
    assert [Records(x), Records(y)][..1] == [Records(x)];
    assert [Records(x)][..0] == [];
    assert Gathered([Records(x)]) == x;
    assert Gathered(steps[..2]) == x + y;
  }

  /**
   * Decoding every record of a page, as the loop that pushes them does:
   * all of them decode, in order, or the page fails.
   */
  function DecodeAll<T>(decode: Value -> Option<T>, records: seq<Value>): (r: Option<seq<T>>)
    ensures r.Some? ==> |r.value| == |records|
  {
    if records == [] then Some([])
    else
      var init := DecodeAll(decode, records[..|records| - 1]);
      var last := decode(records[|records| - 1]);
      if init.Some? && last.Some? then Some(init.value + [last.value]) else None
  }

  /**
   * A page decodes exactly when each of its records does, and then the
   * page's items are the records' decodings, one per record, in order.
   */
  lemma {:induction false} DecodeAllSpec<T>(decode: Value -> Option<T>, records: seq<Value>)
    ensures DecodeAll(decode, records).Some? <==> forall i :: 0 <= i < |records| ==> decode(records[i]).Some?
    ensures DecodeAll(decode, records).Some? ==>
      forall i :: 0 <= i < |records| ==> decode(records[i]) == Some(DecodeAll(decode, records).value[i])
  {
    if records != [] {
      var init := records[..|records| - 1];
      DecodeAllSpec(decode, init);
      assert forall i :: 0 <= i < |init| ==> init[i] == records[i];
    }
  }

  /** Decoding one more record extends a decoded prefix by that record's decoding. */
  lemma DecodeAllSnoc<T>(decode: Value -> Option<T>, records: seq<Value>, j: nat)
    requires j < |records|
    ensures DecodeAll(decode, records[..j + 1]) ==
      if DecodeAll(decode, records[..j]).Some? && decode(records[j]).Some?
      then Some(DecodeAll(decode, records[..j]).value + [decode(records[j]).value])
      else None
  {
    assert records[..j + 1][..j] == records[..j];
  }

  /** Every step before the first stop is a non-empty page. */
  lemma {:induction false} BeforeFirstStop<T>(steps: seq<Step<T>>, k: nat)
    requires k < FirstStop(steps)
    ensures steps[k].Records?
  {
    if k > 0 {
      BeforeFirstStop(steps[1..], k - 1);
    }
  }

  /**
   * One more pass of the fetch loop over a non-empty page at or before the
   * first stop: the loop goes on, and its list grows by that page's records.
   */
  lemma GatherOneMore<T>(steps: seq<Step<T>>, k: nat, gathered: seq<T>)
    requires k < |steps| && k <= FirstStop(steps)
    requires steps[k].Records?
    requires gathered == Gathered(steps[..k])
    ensures k < FirstStop(steps)
    ensures gathered + steps[k].items == Gathered(steps[..k + 1])
  {
    GatheredSnoc(steps, k);
  }

  /** Gathering one more page appends that page's records. */
  lemma GatheredSnoc<T>(steps: seq<Step<T>>, k: nat)
    requires k < |steps|
    ensures Gathered(steps[..k + 1]) == Gathered(steps[..k]) + PageItems(steps[k])
  {
    assert steps[..k + 1][..k] == steps[..k];
  }

  /**
   * A step at or before the first stop that is not a non-empty page is the
   * first stop, and it decides the fetch's outcome.
   */
  lemma FetchStopsAt<T>(steps: seq<Step<T>>, k: nat)
    requires k <= FirstStop(steps) < |steps|
    requires !steps[k].Records?
    ensures k == FirstStop(steps)
    ensures Fetch(steps) == StopOutcome(steps[k], Gathered(steps[..k]))
    ensures steps[k].EndOfPages? ==> Fetch(steps) == Ok(Gathered(steps[..k]))
    ensures steps[k].Failed? ==> Fetch(steps) == Err(steps[k].error)
    ensures steps[k].Aborted? ==> Fetch(steps) == Panicked
  {
    if k < FirstStop(steps) {
      BeforeFirstStop(steps, k);
    }
  }

  /** Gathering a first page and then the rest is the same as gathering them all. */
  lemma {:induction false} GatheredCons<T>(steps: seq<Step<T>>)
    requires steps != []
    ensures Gathered(steps) == PageItems(steps[0]) + Gathered(steps[1..])
  {
    if |steps| > 1 {
      var init := steps[..|steps| - 1];
      GatheredCons(init);
      assert init[1..] == steps[1..][..|steps[1..]| - 1];
    }
  }

  /**
   * The fetch reads page by page: a non-empty first page contributes its
   * records, in order, in front of whatever the fetch of the remaining pages
   * yields; an error or a panic later on discards them.
   */
  lemma FetchUnfold<T>(steps: seq<Step<T>>)
    requires FirstStop(steps) < |steps|
    requires steps[0].Records?
    ensures FirstStop(steps[1..]) == FirstStop(steps) - 1
    ensures Fetch(steps[1..]).Ok? ==> Fetch(steps) == Ok(steps[0].items + Fetch(steps[1..]).value)
    ensures Fetch(steps[1..]).Err? ==> Fetch(steps) == Err(Fetch(steps[1..]).error)
    ensures Fetch(steps[1..]).Panicked? ==> Fetch(steps).Panicked?
  {
    var n := FirstStop(steps);
    var tail := steps[1..];
    assert FirstStop(tail) == n - 1;
    assert tail[n - 1] == steps[n];
    assert steps[..n][0] == steps[0];
    assert steps[..n][1..] == tail[..n - 1];
    GatheredCons(steps[..n]);
    assert Gathered(steps[..n]) == steps[0].items + Gathered(tail[..n - 1]);
  }

  /** The first stop of a source is unchanged by what follows it. */
  lemma {:induction false} FirstStopPrefix<T>(steps: seq<Step<T>>, rest: seq<Step<T>>)
    requires FirstStop(steps) < |steps|
    ensures FirstStop(steps[..FirstStop(steps) + 1] + rest) == FirstStop(steps)
  {
    var n := FirstStop(steps);
    var ext := steps[..n + 1] + rest;
    if n > 0 {
      FirstStopPrefix(steps[1..], rest);
      assert steps[1..][..n] + rest == ext[1..];
    }
  }

  /**
   * No page after the first stop is looked at: replacing everything after
   * it leaves the fetch's result unchanged.
   */
  lemma FetchIgnoresLaterPages<T>(steps: seq<Step<T>>, rest: seq<Step<T>>)
    requires FirstStop(steps) < |steps|
    ensures FirstStop(steps[..FirstStop(steps) + 1] + rest) < |steps[..FirstStop(steps) + 1] + rest|
    ensures Fetch(steps[..FirstStop(steps) + 1] + rest) == Fetch(steps)
  {
    var n := FirstStop(steps);
    var ext := steps[..n + 1] + rest;
    FirstStopPrefix(steps, rest);
    assert ext[..n] == steps[..n];
    assert ext[n] == steps[n];
  }
}
