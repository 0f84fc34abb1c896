/**
 * The PubMed-to-PubMed-Central identifier mapper: the input ids are sent to
 * the converter service in slices of at most 200, each slice in one call,
 * and the per-slice answers are gathered into one list of mappings. A slice
 * whose call fails contributes one unresolved mapping per id it holds.
 *
 * The converter service is an oracle: `remote(k, batch)` is what the k-th
 * call (counting from 0) answers when it is sent `batch`.
 */
module PmcidMapper {
  import opened PyRuntime

  /** One record of a converter answer; a `None` field is a key the record lacks. */
  datatype Record = Record(pmid: Option<Value>, requestedId: Option<Value>, pmcid: Option<Value>)

  /**
   * What one converter call yields. `CallFailed` covers every exception the
   * call raises before a record is processed (network error, a body that is
   * not JSON); `Answered(None)` is a JSON object without a `records` key.
   */
  datatype Response = CallFailed | Answered(records: Option<seq<Record>>)

  type Remote = (nat, seq<string>) -> Response

  /** One output mapping: `pmc_id` is `Null` when no PMC id was found. */
  datatype Entry = Entry(pubmedId: string, pmcId: Value)

  /** What the mapper does towards the service, in order. */
  datatype Event = Request(call: nat, ids: seq<string>) | Pause

  datatype Metadata = Metadata(totalPmids: nat, pmcidsFound: nat, pmcidsMissing: int)

  datatype Report = Report(metadata: Metadata, mappings: seq<Entry>)

  datatype MapperError = InputFileNotFound

  // ---------------------------------------------------------------------
  // Slicing the input into batches

  /**
   * How many slices `range(0, n, 200)` visits: the converter takes at most
   * 200 ids per request. (The size is written as a literal so that the
   * arithmetic about offsets stays linear for the solver.)
   */
  function BatchCount(n: nat): nat {
    (n + 200 - 1) / 200
  }

  /** The number of remote calls is the ceiling of n / 200. */
  lemma BatchCountIsCeiling(n: nat)
    ensures n <= BatchCount(n) * 200
    ensures n > 0 ==> (BatchCount(n) - 1) * 200 < n
    ensures n == 0 <==> BatchCount(n) == 0
  {
  }

  lemma BatchStartsInside(n: nat, k: nat)
    ensures k < BatchCount(n) <==> k * 200 < n
  {
  }

  /** `pmid_list[i:i+200]` for the k-th offset i = 200 * k. */
  function Batch(ids: seq<string>, k: nat): (b: seq<string>)
    requires k < BatchCount(|ids|)
    ensures 1 <= |b| <= 200
    ensures k + 1 < BatchCount(|ids|) ==> |b| == 200
    ensures k + 1 == BatchCount(|ids|) ==> k * 200 + |b| == |ids|
  {
    BatchStartsInside(|ids|, k);
    BatchStartsInside(|ids|, k + 1);
    var lo := k * 200;
    ids[lo..if lo + 200 <= |ids| then lo + 200 else |ids|]
  }

  function Batches(ids: seq<string>): (bs: seq<seq<string>>)
    ensures |bs| == BatchCount(|ids|)
  {
    seq(BatchCount(|ids|), k requires 0 <= k < BatchCount(|ids|) => Batch(ids, k))
  }

  /** How many ids the first n batches hold between them. */
  function Covered(len: nat, n: nat): nat {
    if n * 200 <= len then n * 200 else len
  }

  lemma {:induction false} BatchesCoverPrefix(ids: seq<string>, n: nat)
    requires n <= BatchCount(|ids|)
    ensures Covered(|ids|, n) <= |ids|
    ensures Concat(Batches(ids)[..n]) == ids[..Covered(|ids|, n)]
  {
    if n > 0 {
      var bs := Batches(ids);
      BatchesCoverPrefix(ids, n - 1);
      assert bs[..n][..n - 1] == bs[..n - 1];
      BatchStartsInside(|ids|, n - 1);
      assert Covered(|ids|, n - 1) == (n - 1) * 200;
      assert bs[n - 1] == ids[(n - 1) * 200..Covered(|ids|, n)];
      assert ids[..(n - 1) * 200] + ids[(n - 1) * 200..Covered(|ids|, n)]
          == ids[..Covered(|ids|, n)];
    }
  }

  /** The batches, concatenated in order, are the input. */
  lemma ConcatBatches(ids: seq<string>)
    ensures Concat(Batches(ids)) == ids
  {
    var bs := Batches(ids);
    BatchesCoverPrefix(ids, |bs|);
    BatchCountIsCeiling(|ids|);
    assert bs[..|bs|] == bs;
  }

  /**
   * The batches are contiguous slices of at most 200 ids, each non-empty
   * and all but the last full, and put back together in order they are
   * exactly the input.
   */
  lemma BatchesPartitionInput(ids: seq<string>)
    ensures |Batches(ids)| == BatchCount(|ids|)
    ensures Concat(Batches(ids)) == ids
    ensures forall k :: 0 <= k < |Batches(ids)| ==> 1 <= |Batches(ids)[k]| <= 200
    ensures forall k :: 0 <= k < |Batches(ids)| - 1 ==> |Batches(ids)[k]| == 200
  {
    var bs := Batches(ids);
    BatchesCoverPrefix(ids, |bs|);
    BatchCountIsCeiling(|ids|);
    assert bs[..|bs|] == bs;
  }

  // ---------------------------------------------------------------------
  // What one batch contributes

  /** `str(record.get('pmid', record.get('requested-id')))`. */
  function PubmedIdOf(r: Record): string {
    ToStr(match r.pmid case Some(v) => v case None => r.requestedId.GetOr(Null))
  }

  /** `pmcid if pmcid else None`, with `pmcid = record.get('pmcid')`. */
  function PmcIdOf(r: Record): (v: Value)
    ensures Truthy(v) || v == Null
    ensures v != Null ==> r.pmcid == Some(v)
  {
    var v := r.pmcid.GetOr(Null);
    if Truthy(v) then v else Null
  }

  function EntryOf(r: Record): Entry {
    Entry(PubmedIdOf(r), PmcIdOf(r))
  }

  /**
   * The correlation rule: the PubMed id is the record's `pmid` when the key
   * is there (whatever its value), else its `requested-id`, rendered with
   * `str`, so a record with neither yields "None"; the PMC id is the
   * record's `pmcid` when that is truthy and `Null` otherwise.
   */
  lemma CorrelationRule(r: Record)
    ensures r.pmid.Some? ==> EntryOf(r).pubmedId == ToStr(r.pmid.value)
    ensures r.pmid.None? && r.requestedId.Some? ==> EntryOf(r).pubmedId == ToStr(r.requestedId.value)
    ensures r.pmid.None? && r.requestedId.None? ==> EntryOf(r).pubmedId == "None"
    ensures EntryOf(r).pmcId != Null <==> r.pmcid.Some? && Truthy(r.pmcid.value)
    ensures EntryOf(r).pmcId != Null ==> EntryOf(r).pmcId == r.pmcid.value
    ensures Truthy(EntryOf(r).pmcId) <==> EntryOf(r).pmcId != Null
  {
  }

  /** The mappings an answered batch appends: one per record, in record order. */
  function RecordEntries(records: seq<Record>): (es: seq<Entry>)
    ensures |es| == |records|
    ensures forall j :: 0 <= j < |es| ==> es[j] == EntryOf(records[j])
  {
    if records == [] then []
    else RecordEntries(records[..|records| - 1]) + [EntryOf(records[|records| - 1])]
  }

  /** The mappings a failed batch appends: one unresolved entry per id, in order. */
  function NullEntries(batch: seq<string>): (es: seq<Entry>)
    ensures |es| == |batch|
    ensures forall j :: 0 <= j < |es| ==> es[j] == Entry(batch[j], Null)
  {
    if batch == [] then []
    else NullEntries(batch[..|batch| - 1]) + [Entry(batch[|batch| - 1], Null)]
  }

  lemma NullEntriesAppend(a: seq<string>, b: seq<string>)
    ensures NullEntries(a + b) == NullEntries(a) + NullEntries(b)
  {
    assert forall j :: 0 <= j < |a + b| ==> NullEntries(a + b)[j] == (NullEntries(a) + NullEntries(b))[j];
  }

  /**
   * A failed call contributes one unresolved entry per id of its batch; an
   * answered call one entry per record, and none when `records` is missing.
   */
  function Contribution(batch: seq<string>, response: Response): (es: seq<Entry>)
    ensures response.CallFailed? ==> |es| == |batch| && forall j :: 0 <= j < |es| ==> es[j].pmcId == Null
    ensures response.Answered? ==> |es| == |response.records.GetOr([])|
    ensures response == Answered(None) ==> es == []
  {
    match response
    case CallFailed => NullEntries(batch)
    case Answered(records) => RecordEntries(records.GetOr([]))
  }

  /** The mappings batch k contributes, given what its call answered. */
  function Contributions(ids: seq<string>, remote: Remote): (cs: seq<seq<Entry>>)
    ensures |cs| == BatchCount(|ids|)
  {
    seq(BatchCount(|ids|), k requires 0 <= k < BatchCount(|ids|) =>
      Contribution(Batch(ids, k), remote(k, Batch(ids, k))))
  }

  /** The full mapping list: every batch's contribution, in batch order. */
  function Mapping(ids: seq<string>, remote: Remote): seq<Entry> {
    Concat(Contributions(ids, remote))
  }

  /** The calls and pauses made for batch k: a pause follows only an answered call. */
  function Step(ids: seq<string>, remote: Remote, k: nat): (s: seq<Event>)
    requires k < BatchCount(|ids|)
  {
    var b := Batch(ids, k);
    [Request(k, b)] + if remote(k, b).Answered? then [Pause] else []
  }

  function Steps(ids: seq<string>, remote: Remote): (ss: seq<seq<Event>>)
    ensures |ss| == BatchCount(|ids|)
  {
    seq(BatchCount(|ids|), k requires 0 <= k < BatchCount(|ids|) => Step(ids, remote, k))
  }

  function Trace(ids: seq<string>, remote: Remote): seq<Event> {
    Concat(Steps(ids, remote))
  }

  // ---------------------------------------------------------------------
  // The batch loop

  lemma ConcatSnoc<T>(xss: seq<seq<T>>, n: nat)
    requires n < |xss|
    ensures Concat(xss[..n + 1]) == Concat(xss[..n]) + xss[n]
  {
    assert xss[..n + 1][..n] == xss[..n];
  }

  /**
   * The record loop of an answered batch: one mapping per record, in record
   * order, appended to what is already there.
   */
  method AppendRecords(results: seq<Entry>, records: seq<Record>) returns (out: seq<Entry>)
    ensures out == results + RecordEntries(records)
  {
    out := results;
    var j := 0;
    while j < |records|
      invariant 0 <= j <= |records|
      invariant out == results + RecordEntries(records[..j])
    {
      out := out + [EntryOf(records[j])];
      assert records[..j + 1][..j] == records[..j];
      j := j + 1;
    }
    assert records[..j] == records;
  }

  /** The loop of a failed batch: one unresolved mapping per id of the batch. */
  method AppendUnresolved(results: seq<Entry>, batch: seq<string>) returns (out: seq<Entry>)
    ensures out == results + NullEntries(batch)
  {
    out := results;
    var j := 0;
    while j < |batch|
      invariant 0 <= j <= |batch|
      invariant out == results + NullEntries(batch[..j])
    {
      out := out + [Entry(batch[j], Null)];
      assert batch[..j + 1][..j] == batch[..j];
      j := j + 1;
    }
    assert batch[..j] == batch;
  }

  /** The slice the loop takes at offset `i = 200 * k` is batch k. */
  lemma BatchAtOffset(ids: seq<string>, k: nat, i: nat)
    requires i == k * 200 && i < |ids|
    ensures k < BatchCount(|ids|) && i / 200 == k
    ensures Batch(ids, k) == ids[i..if i + 200 <= |ids| then i + 200 else |ids|]
    ensures i + 200 < |ids| <==> k + 1 < BatchCount(|ids|)
  {
    BatchStartsInside(|ids|, k);
    BatchStartsInside(|ids|, k + 1);
  }

  /** Processing batch k extends the mappings and the trace by that batch's part. */
  lemma LoopStep(ids: seq<string>, remote: Remote, k: nat)
    requires k < BatchCount(|ids|)
    ensures Concat(Contributions(ids, remote)[..k + 1])
      == Concat(Contributions(ids, remote)[..k]) + Contribution(Batch(ids, k), remote(k, Batch(ids, k)))
    ensures Concat(Steps(ids, remote)[..k + 1]) == Concat(Steps(ids, remote)[..k]) + Step(ids, remote, k)
  {
    ConcatSnoc(Contributions(ids, remote), k);
    ConcatSnoc(Steps(ids, remote), k);
  }

  /**
   * `get_pmcids`: one converter call per batch, in order; an answered call
   * appends one mapping per record and then pauses, a failed call appends
   * one unresolved mapping per id of its batch. The ghost `trace` records the
   * calls and the pauses.
   */
  method GetPmcids(pmids: seq<string>, remote: Remote) returns (results: seq<Entry>, ghost trace: seq<Event>)
    ensures results == Mapping(pmids, remote)
    ensures trace == Trace(pmids, remote)
  {
    if |pmids| == 0 {
      return [], [];
    }
    results := [];
    trace := [];
    var i := 0;
    ghost var k: nat := 0;
    ghost var n := BatchCount(|pmids|);
    while i < |pmids|
      invariant k <= n
      invariant i == k * 200
      invariant i < |pmids| <==> k < n
      invariant results == Concat(Contributions(pmids, remote)[..k])
      invariant trace == Concat(Steps(pmids, remote)[..k])
      decreases |pmids| - i
    {
      BatchAtOffset(pmids, k, i);
      LoopStep(pmids, remote, k);
      var batch := pmids[i..if i + 200 <= |pmids| then i + 200 else |pmids|];
      var response := remote(i / 200, batch);
      ghost var step := Step(pmids, remote, k);
      assert response == remote(k, Batch(pmids, k));
      match response {
        case Answered(records) =>
          results := AppendRecords(results, records.GetOr([]));
          assert step == [Request(k, batch), Pause];
          trace := trace + [Request(k, batch), Pause];
        case CallFailed =>
          results := AppendUnresolved(results, batch);
          assert step == [Request(k, batch)];
          trace := trace + [Request(k, batch)];
      }
      i := i + 200;
      k := k + 1;
    }
    assert Contributions(pmids, remote)[..k] == Contributions(pmids, remote);
    assert Steps(pmids, remote)[..k] == Steps(pmids, remote);
  }

  // ---------------------------------------------------------------------
  // Properties of the mapping list

  /** An empty input yields no mappings and makes no call. */
  lemma EmptyInputMakesNoCall(remote: Remote)
    ensures Mapping([], remote) == []
    ensures Trace([], remote) == []
  {
  }

  /** Mapping = (batches before j) + (batch j's contribution) + (batches after j). */
  lemma BatchSlice(ids: seq<string>, remote: Remote, j: nat)
    requires j < BatchCount(|ids|)
    ensures var cs := Contributions(ids, remote);
      Mapping(ids, remote) == Concat(cs[..j]) + Contribution(Batch(ids, j), remote(j, Batch(ids, j))) + Concat(cs[j + 1..])
  {
    var cs := Contributions(ids, remote);
    assert cs == cs[..j] + [cs[j]] + cs[j + 1..];
    ConcatAppend(cs[..j] + [cs[j]], cs[j + 1..]);
    ConcatAppend(cs[..j], [cs[j]]);
    assert Concat([cs[j]]) == cs[j] by {
      assert |[cs[j]][..0]| == 0;
    }
  }

  /**
   * Batches are independent: two runs whose calls answer alike for every
   * batch but j produce the same mappings before and after batch j's
   * contribution. In particular a failure of batch j leaves every other
   * batch's mappings as they were.
   */
  lemma OtherBatchesUnaffected(ids: seq<string>, f: Remote, g: Remote, j: nat)
    requires j < BatchCount(|ids|)
    requires forall k :: 0 <= k < BatchCount(|ids|) && k != j ==> f(k, Batch(ids, k)) == g(k, Batch(ids, k))
    ensures var cf, cg := Contributions(ids, f), Contributions(ids, g);
      && Concat(cf[..j]) == Concat(cg[..j])
      && Concat(cf[j + 1..]) == Concat(cg[j + 1..])
      && Mapping(ids, f) == Concat(cf[..j]) + Contribution(Batch(ids, j), f(j, Batch(ids, j))) + Concat(cf[j + 1..])
      && Mapping(ids, g) == Concat(cf[..j]) + Contribution(Batch(ids, j), g(j, Batch(ids, j))) + Concat(cf[j + 1..])
  {
    var cf, cg := Contributions(ids, f), Contributions(ids, g);
    assert cf[..j] == cg[..j];
    assert cf[j + 1..] == cg[j + 1..];
    BatchSlice(ids, f, j);
    BatchSlice(ids, g, j);
  }

  /** Every converter call of the run fails. */
  predicate AllCallsFail(ids: seq<string>, remote: Remote) {
    forall k :: 0 <= k < BatchCount(|ids|) ==> remote(k, Batch(ids, k)).CallFailed?
  }

  lemma {:induction false} AllFailedPrefix(ids: seq<string>, remote: Remote, n: nat)
    requires n <= BatchCount(|ids|)
    requires AllCallsFail(ids, remote)
    ensures Concat(Contributions(ids, remote)[..n]) == NullEntries(Concat(Batches(ids)[..n]))
  {
    if n > 0 {
      AllFailedPrefix(ids, remote, n - 1);
      ConcatSnoc(Contributions(ids, remote), n - 1);
      ConcatSnoc(Batches(ids), n - 1);
      NullEntriesAppend(Concat(Batches(ids)[..n - 1]), Batches(ids)[n - 1]);
    }
  }

  /**
   * When every call fails, the output has one unresolved mapping per input
   * id, in input order, and the summary finds nothing.
   */
  lemma AllFailedMapsEveryId(ids: seq<string>, remote: Remote)
    requires AllCallsFail(ids, remote)
    ensures Mapping(ids, remote) == NullEntries(ids)
    ensures Summarize(Mapping(ids, remote)) == Metadata(|ids|, 0, |ids|)
  {
    var cs, bs := Contributions(ids, remote), Batches(ids);
    calc {
      Mapping(ids, remote);
      Concat(cs);
      { assert cs[..|cs|] == cs; }
      Concat(cs[..|cs|]);
      { AllFailedPrefix(ids, remote, |cs|); }
      NullEntries(Concat(bs[..|cs|]));
      { assert bs[..|cs|] == bs; }
      NullEntries(Concat(bs));
      { ConcatBatches(ids); }
      NullEntries(ids);
    }
    assert Summarize(NullEntries(ids)) == Metadata(|ids|, 0, |ids|) by {
      NoneFoundAmongNulls(ids);
    }
  }

  lemma {:induction false} ConcatSameLengths<S, T>(xss: seq<seq<S>>, yss: seq<seq<T>>)
    requires |xss| == |yss|
    requires forall k :: 0 <= k < |xss| ==> |xss[k]| == |yss[k]|
    ensures |Concat(xss)| == |Concat(yss)|
  {
    if xss != [] {
      ConcatSameLengths(xss[..|xss| - 1], yss[..|yss| - 1]);
    }
  }

  /**
   * If each answered call returns exactly as many records as its batch had
   * ids, the output is as long as the input; nothing in the mapper enforces
   * that. Other batches may make up for a short answer, so the converse
   * does not hold.
   */
  lemma LengthWhenAnswersMatch(ids: seq<string>, remote: Remote)
    requires forall k :: 0 <= k < BatchCount(|ids|) ==>
      remote(k, Batch(ids, k)).Answered? ==> |remote(k, Batch(ids, k)).records.GetOr([])| == |Batch(ids, k)|
    ensures |Mapping(ids, remote)| == |ids|
  {
    var cs, bs := Contributions(ids, remote), Batches(ids);
    forall k | 0 <= k < |cs| ensures |cs[k]| == |bs[k]| {
      var b := Batch(ids, k);
      if remote(k, b).Answered? {
        assert |cs[k]| == |remote(k, b).records.GetOr([])|;
      }
    }
    ConcatSameLengths(cs, bs);
    BatchesPartitionInput(ids);
  }

  lemma {:induction false} ConcatNoLonger<S, T>(xss: seq<seq<S>>, yss: seq<seq<T>>)
    requires |xss| == |yss|
    requires forall k :: 0 <= k < |xss| ==> |xss[k]| <= |yss[k]|
    ensures |Concat(xss)| <= |Concat(yss)|
  {
    if xss != [] {
      ConcatNoLonger(xss[..|xss| - 1], yss[..|yss| - 1]);
    }
  }

  lemma {:induction false} ConcatShorter<S, T>(xss: seq<seq<S>>, yss: seq<seq<T>>, j: nat)
    requires |xss| == |yss| && j < |xss|
    requires forall k :: 0 <= k < |xss| ==> |xss[k]| <= |yss[k]|
    requires |xss[j]| < |yss[j]|
    ensures |Concat(xss)| < |Concat(yss)|
  {
    var n := |xss| - 1;
    if j == n {
      ConcatNoLonger(xss[..n], yss[..n]);
    } else {
      ConcatShorter(xss[..n], yss[..n], j);
    }
  }

  /** No answered call returns more records than its batch had ids. */
  predicate AnswersNoLonger(ids: seq<string>, remote: Remote) {
    forall k :: 0 <= k < BatchCount(|ids|) ==>
      remote(k, Batch(ids, k)).Answered? ==> |remote(k, Batch(ids, k)).records.GetOr([])| <= |Batch(ids, k)|
  }

  /**
   * When no answer is longer than its batch, one answer that is shorter than
   * its batch (too few records, or no `records` key at all) makes the output
   * shorter than the input: the ids it left out are not reported.
   */
  lemma ShortAnswerDropsIds(ids: seq<string>, remote: Remote, j: nat)
    requires AnswersNoLonger(ids, remote)
    requires j < BatchCount(|ids|) && remote(j, Batch(ids, j)).Answered?
    requires |remote(j, Batch(ids, j)).records.GetOr([])| < |Batch(ids, j)|
    ensures |Mapping(ids, remote)| < |ids|
  {
    var cs, bs := Contributions(ids, remote), Batches(ids);
    forall k | 0 <= k < |cs| ensures |cs[k]| <= |bs[k]| {
      var b := Batch(ids, k);
      assert cs[k] == Contribution(b, remote(k, b));
    }
    assert cs[j] == Contribution(Batch(ids, j), remote(j, Batch(ids, j)));
    ConcatShorter(cs, bs, j);
    ConcatBatches(ids);
  }

  /** In particular an answer without a `records` key drops its whole batch. */
  lemma MissingRecordsDropBatch(ids: seq<string>, remote: Remote, j: nat)
    requires AnswersNoLonger(ids, remote)
    requires j < BatchCount(|ids|) && remote(j, Batch(ids, j)) == Answered(None)
    ensures Contributions(ids, remote)[j] == []
    ensures |Mapping(ids, remote)| < |ids|
  {
    ShortAnswerDropsIds(ids, remote, j);
  }

  // ---------------------------------------------------------------------
  // Calls and pacing

  /** The batch ids of the calls, in call order. */
  function Requested(events: seq<Event>): seq<seq<string>> {
    if events == [] then []
    else
      var last := events[|events| - 1];
      Requested(events[..|events| - 1]) + if last.Request? then [last.ids] else []
  }

  lemma {:induction false} RequestedAppend(a: seq<Event>, b: seq<Event>)
    ensures Requested(a + b) == Requested(a) + Requested(b)
    decreases |b|
  {
    if b == [] {
      assert a + b == a;
    } else {
      assert (a + b)[..|a + b| - 1] == a + b[..|b| - 1];
      RequestedAppend(a, b[..|b| - 1]);
    }
  }

  /** Each batch's step holds exactly one request, for that batch. */
  lemma RequestedStep(ids: seq<string>, remote: Remote, k: nat)
    requires k < BatchCount(|ids|)
    ensures Requested(Step(ids, remote, k)) == [Batch(ids, k)]
  {
    var b := Batch(ids, k);
    var r: seq<Event> := [Request(k, b)];
    assert |r[..0]| == 0;
    assert Requested(r) == [b];
    if remote(k, b).Answered? {
      var p: seq<Event> := [Pause];
      assert |p[..0]| == 0;
      assert Requested(p) == [];
      RequestedAppend(r, p);
    } else {
      assert Step(ids, remote, k) == r;
    }
  }

  lemma {:induction false} RequestedPrefix(ids: seq<string>, remote: Remote, n: nat)
    requires n <= BatchCount(|ids|)
    ensures Requested(Concat(Steps(ids, remote)[..n])) == Batches(ids)[..n]
  {
    if n > 0 {
      var ss, bs := Steps(ids, remote), Batches(ids);
      var done, step := Concat(ss[..n - 1]), ss[n - 1];
      calc {
        Requested(Concat(ss[..n]));
        { ConcatSnoc(ss, n - 1); }
        Requested(done + step);
        { RequestedAppend(done, step); }
        Requested(done) + Requested(step);
        { RequestedPrefix(ids, remote, n - 1); RequestedStep(ids, remote, n - 1); }
        bs[..n - 1] + [Batch(ids, n - 1)];
        bs[..n];
      }
    }
  }

  /**
   * One request per batch, in batch order: ceil(L / 200) calls, and the ids
   * sent, taken in order, are exactly the input.
   */
  lemma CallsCoverInput(ids: seq<string>, remote: Remote)
    ensures Requested(Trace(ids, remote)) == Batches(ids)
    ensures |Requested(Trace(ids, remote))| == BatchCount(|ids|)
    ensures Concat(Requested(Trace(ids, remote))) == ids
  {
    var ss := Steps(ids, remote);
    RequestedPrefix(ids, remote, |ss|);
    assert ss[..|ss|] == ss;
    assert Batches(ids)[..|ss|] == Batches(ids);
    BatchesPartitionInput(ids);
  }

  /** A call is followed by a pause exactly when it was answered. */
  ghost predicate PauseAfterAnswered(t: seq<Event>, remote: Remote) {
    forall i :: 0 <= i < |t| && t[i].Request? ==>
      (remote(t[i].call, t[i].ids).Answered? <==> i + 1 < |t| && t[i + 1] == Pause)
  }

  /** Every pause directly follows a call. */
  predicate PauseOnlyAfterCall(t: seq<Event>) {
    forall i :: 0 <= i < |t| && t[i] == Pause ==> 0 < i && t[i - 1].Request?
  }

  /**
   * The pacing rule: a call is followed by a pause exactly when it was
   * answered (the last call included), and every pause directly follows a
   * call.
   */
  ghost predicate PausesFollowAnswers(t: seq<Event>, remote: Remote) {
    PauseAfterAnswered(t, remote) && PauseOnlyAfterCall(t)
  }

  lemma {:induction false} PauseAfterAnsweredPrefix(ids: seq<string>, remote: Remote, n: nat)
    requires n <= BatchCount(|ids|)
    ensures PauseAfterAnswered(Concat(Steps(ids, remote)[..n]), remote)
  {
    if n > 0 {
      var ss := Steps(ids, remote);
      PauseAfterAnsweredPrefix(ids, remote, n - 1);
      ConcatSnoc(ss, n - 1);
      var t: seq<Event>, s: seq<Event> := Concat(ss[..n - 1]), ss[n - 1];
      var u: seq<Event> := t + s;
      assert s[0].Request?;
      forall i | 0 <= i < |u| && u[i].Request?
        ensures remote(u[i].call, u[i].ids).Answered? <==> i + 1 < |u| && u[i + 1] == Pause
      {
        if i + 1 < |t| {
          assert u[i] == t[i] && u[i + 1] == t[i + 1];
        } else if i + 1 == |t| {
          assert u[i] == t[i] && u[i + 1] == s[0];
        } else {
          assert u[i] == s[i - |t|];
        }
      }
    }
  }

  lemma {:induction false} PauseOnlyAfterCallPrefix(ids: seq<string>, remote: Remote, n: nat)
    requires n <= BatchCount(|ids|)
    ensures PauseOnlyAfterCall(Concat(Steps(ids, remote)[..n]))
  {
    if n > 0 {
      var ss := Steps(ids, remote);
      PauseOnlyAfterCallPrefix(ids, remote, n - 1);
      ConcatSnoc(ss, n - 1);
      var t: seq<Event>, s: seq<Event> := Concat(ss[..n - 1]), ss[n - 1];
      var u: seq<Event> := t + s;
      forall i | 0 <= i < |u| && u[i] == Pause
        ensures 0 < i && u[i - 1].Request?
      {
        if i < |t| {
          assert u[i] == t[i] && u[i - 1] == t[i - 1];
        } else {
          assert u[i] == s[i - |t|];
        }
      }
    }
  }

  lemma Pacing(ids: seq<string>, remote: Remote)
    ensures PausesFollowAnswers(Trace(ids, remote), remote)
  {
    var ss := Steps(ids, remote);
    PauseAfterAnsweredPrefix(ids, remote, |ss|);
    PauseOnlyAfterCallPrefix(ids, remote, |ss|);
    assert ss[..|ss|] == ss;
  }

  // ---------------------------------------------------------------------
  // The summary `main` writes

  /** `sum(1 for m in mappings if m['pmc_id'])`. */
  function CountFound(mappings: seq<Entry>): (n: nat)
    ensures n <= |mappings|
  {
    if mappings == [] then 0
    else CountFound(mappings[..|mappings| - 1]) + if Truthy(mappings[|mappings| - 1].pmcId) then 1 else 0
  }

  /** The metadata block: total, found and missing. */
  function Summarize(mappings: seq<Entry>): (md: Metadata)
    ensures md.totalPmids == |mappings|
    ensures md.pmcidsFound + md.pmcidsMissing == md.totalPmids
    ensures md.pmcidsMissing >= 0
  {
    var found := CountFound(mappings);
    Metadata(|mappings|, found, |mappings| - found)
  }

  lemma {:induction false} NoneFoundAmongNulls(ids: seq<string>)
    ensures CountFound(NullEntries(ids)) == 0
  {
    if ids != [] {
      var es := NullEntries(ids);
      assert es[..|es| - 1] == NullEntries(ids[..|ids| - 1]);
      NoneFoundAmongNulls(ids[..|ids| - 1]);
    }
  }
  /** The found count of two lists put together is the sum of their counts. */
  lemma {:induction false} CountFoundAppend(a: seq<Entry>, b: seq<Entry>)
    ensures CountFound(a + b) == CountFound(a) + CountFound(b)
    decreases |b|
  {
    if b == [] {
      assert a + b == a;
    } else {
      var ab := a + b;
      assert ab[..|ab| - 1] == a + b[..|b| - 1];
      assert ab[|ab| - 1] == b[|b| - 1];
      CountFoundAppend(a, b[..|b| - 1]);
    }
  }

  /**
   * A failed batch adds nothing to `pmcids_found`: the found count of the
   * whole run is that of the batches before it plus that of the batches
   * after it, so its ids only add to the missing count.
   */
  lemma FailedBatchFindsNothing(ids: seq<string>, remote: Remote, j: nat)
    requires j < BatchCount(|ids|) && remote(j, Batch(ids, j)).CallFailed?
    ensures var cs := Contributions(ids, remote);
      CountFound(Mapping(ids, remote)) == CountFound(Concat(cs[..j])) + CountFound(Concat(cs[j + 1..]))
  {
    var cs := Contributions(ids, remote);
    var b := Batch(ids, j);
    BatchSlice(ids, remote, j);
    assert Contribution(b, remote(j, b)) == NullEntries(b);
    NoneFoundAmongNulls(b);
    CountFoundAppend(Concat(cs[..j]) + NullEntries(b), Concat(cs[j + 1..]));
    CountFoundAppend(Concat(cs[..j]), NullEntries(b));
  }


  /** The id a single line contributes: its stripped text, unless that is empty. */
  function StrippedId(l: string): (ids: seq<string>)
    ensures |ids| <= 1
    ensures forall k :: 0 <= k < |ids| ==> ids[k] != "" && Strip(ids[k]) == ids[k]
  {
    StripIdempotent(l);
    if Strip(l) != "" then [Strip(l)] else []
  }

  /** `[line.strip() for line in f if line.strip()]` over the lines of the file. */
  function NonBlankStripped(lines: seq<string>): (ids: seq<string>)
    ensures |ids| <= |lines|
    ensures forall k :: 0 <= k < |ids| ==> ids[k] != "" && Strip(ids[k]) == ids[k]
  {
    if lines == [] then [] else NonBlankStripped(lines[..|lines| - 1]) + StrippedId(lines[|lines| - 1])
  }

  /** The ids `main` reads from the input file's text. */
  function InputIds(text: string): seq<string> {
    NonBlankStripped(Lines(UniversalNewlines(text)))
  }

  lemma NonBlankStrippedLast(lines: seq<string>)
    requires lines != []
    ensures NonBlankStripped(lines) == NonBlankStripped(lines[..|lines| - 1]) + StrippedId(lines[|lines| - 1])
  {
  }

  lemma {:induction false} NonBlankStrippedAppend(a: seq<string>, b: seq<string>)
    ensures NonBlankStripped(a + b) == NonBlankStripped(a) + NonBlankStripped(b)
    decreases |b|
  {
    if b == [] {
      assert a + b == a;
    } else {
      var ab, front := a + b, b[..|b| - 1];
      assert ab[..|ab| - 1] == a + front;
      assert ab[|ab| - 1] == b[|b| - 1];
      NonBlankStrippedLast(ab);
      NonBlankStrippedLast(b);
      NonBlankStrippedAppend(a, front);
      AppendAssociates(NonBlankStripped(a), NonBlankStripped(front), StrippedId(b[|b| - 1]));
    }
  }

  /** One line gives its stripped text as an id, unless that is empty. */
  lemma NonBlankStrippedOne(l: string)
    ensures NonBlankStripped([l]) == if Strip(l) == "" then [] else [Strip(l)]
  {
    assert [l][..0] == [];
  }

  /** Two files, the first ending its last line, give their ids one after the other. */
  lemma InputIdsAppend(a: string, b: string)
    requires a == [] || a[|a| - 1] == '\n'
    ensures InputIds(a + b) == InputIds(a) + InputIds(b)
  {
    NewlinesAppend(a, b);
    if a != [] {
      NewlinesKeepFinalNewline(a);
    }
    LinesAppend(UniversalNewlines(a), UniversalNewlines(b));
    NonBlankStrippedAppend(Lines(UniversalNewlines(a)), Lines(UniversalNewlines(b)));
  }

  /** A file of one line gives that line, stripped, as its one id unless it is blank. */
  lemma InputIdsOfLine(l: string)
    requires forall i :: 0 <= i < |l| ==> l[i] != '\n' && l[i] != '\r'
    ensures InputIds(l + "\n") == if Strip(l) == "" then [] else [Strip(l)]
  {
    var text := l + "\n";
    NewlinesKeepPlainText(text);
    var n := FirstLineLength(text);
    assert text[..n] == text && text[n..] == [];
    assert Lines(text) == [text];
    NonBlankStrippedOne(text);
    StripSpaceAtEnd(l, '\n');
  }

  /** A last line without "\n" gives its stripped text as the one id, unless it is blank. */
  lemma InputIdsOfLastLine(l: string)
    requires forall i :: 0 <= i < |l| ==> l[i] != '\n' && l[i] != '\r'
    ensures InputIds(l) == StrippedId(l)
  {
    NewlinesKeepPlainText(l);
    if l != [] {
      var n := FirstLineLength(l);
      assert l[..n] == l && l[n..] == [];
      assert Lines(l) == [l];
      NonBlankStrippedOne(l);
    }
  }

  /** A line as `for line in f` yields it from a text already in universal-newline form. */
  predicate IsFileLine(l: string) {
    IsLine(l) && forall i :: 0 <= i < |l| ==> l[i] != '\r'
  }

  lemma StrippedLineIsToken(l: string)
    requires IsFileLine(l)
    ensures forall i :: 0 <= i < |Strip(l)| ==> Strip(l)[i] != '\n' && Strip(l)[i] != '\r'
  {
    var r, a := Strip(l), StripStart(l);
    StripIsInfix(l);
    forall i | 0 <= i < |r| ensures r[i] != '\n' && r[i] != '\r' {
      assert r[i] == l[a + i];
      if r[i] == '\n' {
        assert a + i == |l| - 1;
        assert i == |r| - 1;
        assert IsSpace(r[i]);
      }
    }
  }

  lemma LinesOfTranslatedText(text: string)
    requires forall i :: 0 <= i < |text| ==> text[i] != '\r'
    ensures forall k :: 0 <= k < |Lines(text)| ==> IsFileLine(Lines(text)[k])
  {
    LinesAreLines(text);
    LinesDrawFromText(text);
  }

  lemma {:induction false} TokensFromLines(lines: seq<string>)
    requires forall k :: 0 <= k < |lines| ==> IsFileLine(lines[k])
    ensures forall k, i :: 0 <= k < |NonBlankStripped(lines)| && 0 <= i < |NonBlankStripped(lines)[k]| ==>
      NonBlankStripped(lines)[k][i] != '\n' && NonBlankStripped(lines)[k][i] != '\r'
  {
    if lines != [] {
      TokensFromLines(lines[..|lines| - 1]);
      StrippedLineIsToken(lines[|lines| - 1]);
    }
  }

  /**
   * Every input id is non-empty, carries no whitespace at either end, and
   * lies within one line of the file. That blank lines yield no id is
   * `NonBlankStrippedOne`.
   */
  lemma InputIdsAreTokens(text: string)
    ensures forall k :: 0 <= k < |InputIds(text)| ==>
      InputIds(text)[k] != "" && Strip(InputIds(text)[k]) == InputIds(text)[k]
    ensures forall k, i :: 0 <= k < |InputIds(text)| && 0 <= i < |InputIds(text)[k]| ==>
      InputIds(text)[k][i] != '\n' && InputIds(text)[k][i] != '\r'
  {
    LinesOfTranslatedText(UniversalNewlines(text));
    TokensFromLines(Lines(UniversalNewlines(text)));
  }

  /**
   * `main` without its file output: a missing input file is an error and
   * makes no call; otherwise the ids of the file are mapped and summarised.
   */
  method MapPmidFile(input: Option<string>, remote: Remote)
    returns (r: Result<Report, MapperError>, ghost trace: seq<Event>)
    ensures input.None? ==> r == Failure(InputFileNotFound) && trace == []
    ensures input.Some? ==>
      && r.Success?
      && r.value.mappings == Mapping(InputIds(input.value), remote)
      && r.value.metadata == Summarize(r.value.mappings)
      && trace == Trace(InputIds(input.value), remote)
  {
    if input.None? {
      return Failure(InputFileNotFound), [];
    }
    var pmids := InputIds(input.value);
    var mappings;
    mappings, trace := GetPmcids(pmids, remote);
    r := Success(Report(Summarize(mappings), mappings));
  }

  /** Input that fits one batch makes exactly one call, and an answered call gives its records' mappings. */
  lemma SingleAnsweredBatch(ids: seq<string>, remote: Remote, records: seq<Record>)
    requires 0 < |ids| <= 200
    requires remote(0, ids) == Answered(Some(records))
    ensures Mapping(ids, remote) == RecordEntries(records)
    ensures Trace(ids, remote) == [Request(0, ids), Pause]
  {
    var es: seq<Entry> := RecordEntries(records);
    var step: seq<Event> := [Request(0, ids), Pause];
    assert BatchCount(|ids|) == 1 && Batch(ids, 0) == ids;
    calc {
      Mapping(ids, remote);
      Concat(Contributions(ids, remote));
      { assert Contributions(ids, remote) == [es]; }
      Concat([es]);
      { assert |[es][..0]| == 0; }
      es;
    }
    calc {
      Trace(ids, remote);
      Concat(Steps(ids, remote));
      { assert Steps(ids, remote)[0] == step; assert Steps(ids, remote) == [step]; }
      Concat([step]);
      { assert |[step][..0]| == 0; }
      step;
    }
  }

  lemma FoundCountOfExample()
    ensures CountFound([Entry("1", Str("PMC100")), Entry("2", Null), Entry("3", Str("PMC300"))]) == 2
  {
    var es: seq<Entry> := [Entry("1", Str("PMC100")), Entry("2", Null), Entry("3", Str("PMC300"))];
    assert es[..1] == [Entry("1", Str("PMC100"))];
    assert CountFound(es[..1]) == 1 by {
      assert |es[..1][..0]| == 0;
    }
    assert CountFound(es[..2]) == 1 by {
      assert es[..2][..1] == es[..1];
    }
    assert es[..|es| - 1] == es[..2];
  }

  /**
   * The worked example: three ids in one call whose answer resolves "1" and
   * "3" and not "2" give three mappings in that order, two found and one
   * missing, and one call followed by one pause.
   */
  lemma ThreeIdExample()
    ensures var ids := ["1", "2", "3"];
      var remote: Remote := (k: nat, b: seq<string>) => Answered(Some([
        Record(Some(Str("1")), None, Some(Str("PMC100"))),
        Record(Some(Str("2")), None, None),
        Record(Some(Str("3")), None, Some(Str("PMC300")))]));
      && Mapping(ids, remote) == [Entry("1", Str("PMC100")), Entry("2", Null), Entry("3", Str("PMC300"))]
      && Summarize(Mapping(ids, remote)) == Metadata(3, 2, 1)
      && Trace(ids, remote) == [Request(0, ids), Pause]
  {
    var ids := ["1", "2", "3"];
    var recs := [
      Record(Some(Str("1")), None, Some(Str("PMC100"))),
      Record(Some(Str("2")), None, None),
      Record(Some(Str("3")), None, Some(Str("PMC300")))];
    var remote: Remote := (k: nat, b: seq<string>) => Answered(Some(recs));
    SingleAnsweredBatch(ids, remote, recs);
    assert RecordEntries(recs) == [Entry("1", Str("PMC100")), Entry("2", Null), Entry("3", Str("PMC300"))];
    FoundCountOfExample();
  }
}
