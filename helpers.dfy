/** Shared helpers of the content script: the active metrics of the configuration
    and the reading of a background reply to a status request. */
module Helpers {
  import opened Js

  /** A configuration field `{ value, active }`; an absent property is `Undefined`. */
  datatype Field = Field(active: JsValue, value: JsValue)

  /** `Object.entries(config)`, in property order. */
  type Entries = seq<(string, Field)>

  /** The filter of `getActiveConfigMetrics`: `field.active && field.value !== undefined`. */
  predicate Selected(f: Field) {
    Truthy(f.active) && f.value != Undefined
  }

  /** An object never has the same property twice. */
  predicate DistinctKeys(es: Entries) {
    forall i, j :: 0 <= i < j < |es| ==> es[i].0 != es[j].0
  }

  /** `getActiveConfigMetrics()`: the reduce over the filtered entries into a fresh object. */
  function ActiveConfigMetrics(es: Entries): (r: map<string, JsValue>)
    ensures r.Keys <= set i | 0 <= i < |es| :: es[i].0
  {
    if es == [] then map[]
    else
      var acc := ActiveConfigMetrics(es[..|es| - 1]);
      var (k, f) := es[|es| - 1];
      if Selected(f) then acc[k := f.value] else acc
  }

  /** Every key of the result is a selected field's key and carries that field's value. */
  lemma {:induction false} ActiveConfigMetricsSound(es: Entries, k: string)
    requires k in ActiveConfigMetrics(es)
    ensures exists i :: 0 <= i < |es| && es[i].0 == k && Selected(es[i].1)
                        && ActiveConfigMetrics(es)[k] == es[i].1.value
  {
    var n := |es| - 1;
    var (k', f) := es[n];
    if k == k' && Selected(f) {
      assert es[n].0 == k && Selected(es[n].1);
    } else {
      ActiveConfigMetricsSound(es[..n], k);
      var i :| 0 <= i < n && es[..n][i].0 == k && Selected(es[..n][i].1)
               && ActiveConfigMetrics(es[..n])[k] == es[..n][i].1.value;
      assert es[i] == es[..n][i];
    }
  }

  /** Every selected field's key is in the result. */
  lemma {:induction false} ActiveConfigMetricsComplete(es: Entries, i: nat)
    requires i < |es| && Selected(es[i].1)
    ensures es[i].0 in ActiveConfigMetrics(es)
  {
    var n := |es| - 1;
    if i < n {
      assert es[..n][i] == es[i];
      ActiveConfigMetricsComplete(es[..n], i);
    }
  }

  /** On an object's entries the result is exact: a key is present iff its field is
      selected, and then it maps to that field's value. Inactive or valueless fields
      never appear. */
  lemma ActiveConfigMetricsExact(es: Entries, i: nat)
    requires DistinctKeys(es) && i < |es|
    ensures es[i].0 in ActiveConfigMetrics(es) <==> Selected(es[i].1)
    ensures Selected(es[i].1) ==> ActiveConfigMetrics(es)[es[i].0] == es[i].1.value
  {
    var r := ActiveConfigMetrics(es);
    if Selected(es[i].1) {
      ActiveConfigMetricsComplete(es, i);
    }
    if es[i].0 in r {
      ActiveConfigMetricsSound(es, es[i].0);
      var j :| 0 <= j < |es| && es[j].0 == es[i].0 && Selected(es[j].1) && r[es[i].0] == es[j].1.value;
      assert j == i;
    }
  }

  /** The configuration of the unit test: three selected fields out of six, one of
      them without a value. */
  lemma ControlTestMetrics()
    ensures ActiveConfigMetrics([
              ("emoji_active", Field(Bool(true), Str("✅"))),
              ("emoji_inactive", Field(Bool(true), Str("❌"))),
              ("max_repo_update_time", Field(Bool(false), Num(365))),
              ("max_open_issue_age", Field(Bool(true), Num(180))),
              ("ignored_field", Field(Bool(false), Num(123))),
              ("field_without_value", Field(Bool(true), Undefined))])
            == map["emoji_active" := Str("✅"), "emoji_inactive" := Str("❌"), "max_open_issue_age" := Num(180)]
  {
    var es: Entries := [
      ("emoji_active", Field(Bool(true), Str("✅"))),
      ("emoji_inactive", Field(Bool(true), Str("❌"))),
      ("max_repo_update_time", Field(Bool(false), Num(365))),
      ("max_open_issue_age", Field(Bool(true), Num(180))),
      ("ignored_field", Field(Bool(false), Num(123))),
      ("field_without_value", Field(Bool(true), Undefined))];
    var m0 := ActiveConfigMetrics(es[..0]);
    var m1 := MetricsStep(es, 0, m0);
    var m2 := MetricsStep(es, 1, m1);
    var m3 := MetricsStep(es, 2, m2);
    var m4 := MetricsStep(es, 3, m3);
    var m5 := MetricsStep(es, 4, m4);
    var m6 := MetricsStep(es, 5, m5);
    assert es[..6] == es;
  }

  /** One step of the reduce: the metrics of the first `n + 1` entries. */
  lemma MetricsStep(es: Entries, n: nat, prev: map<string, JsValue>) returns (next: map<string, JsValue>)
    requires n < |es| && prev == ActiveConfigMetrics(es[..n])
    ensures next == ActiveConfigMetrics(es[..n + 1])
    ensures next == if Selected(es[n].1) then prev[es[n].0 := es[n].1.value] else prev
  {
    assert es[..n + 1][..n] == es[..n];
    next := ActiveConfigMetrics(es[..n + 1]);
  }

  /** The `result` object of a background reply; an absent `status` is `Undefined`. */
  datatype StatusResult = StatusResult(status: JsValue)

  /** A background reply `{ ok, result }`; an absent property is `Undefined` / `None`. */
  datatype Response = Response(ok: JsValue, result: Option<StatusResult>)

  /** How `await isRepoActive(url)` ends: the message throws, or it returns with the
      reply (`None`: no reply object). */
  datatype Lookup = Threw | Returned(response: Option<Response>)

  /** `isRepoActive(url)` once the reply has arrived (`None`: no reply object).
      A missing reply or `ok === false` fails closed to `false`; otherwise the result's
      status is passed through unchanged, `undefined` when there is none. */
  function IsRepoActive(res: Option<Response>): (status: JsValue)
    ensures res.None? ==> status == Bool(false)
    ensures res.Some? && res.value.ok == Bool(false) ==> status == Bool(false)
    ensures res.Some? && res.value.ok != Bool(false) && res.value.result.Some? ==>
              status == res.value.result.value.status
    ensures res.Some? && res.value.ok != Bool(false) && res.value.result.None? ==> status == Undefined
  {
    match res
    case None => Bool(false)
    case Some(r) =>
      if r.ok == Bool(false) then Bool(false)
      else match r.result
        case None => Undefined
        case Some(sr) => sr.status
  }
}
