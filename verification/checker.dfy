/** One run of the multi-source checker (`main`): load the previous record,
    read every configured page in order, notify for each page whose reading is
    not `error` and differs from the stored one, and write every reading back
    when at least one notification went out. */
module Checker {
  import opened Types
  import opened Classifier
  import opened UrlConfig
  import opened Store

  /** A notification the run emits; its text is `Notify.Message(url, status)`. */
  datatype Notification = Notification(url: string, status: Status)

  /** The loop's state: `current_statuses`, the notifications so far, and
      `changes_found`. */
  datatype RunState = RunState(current: map<string, Status>, sent: seq<Notification>, changed: bool)

  /** What a completed run produces: the notifications in order, the record
      written to the state file (if any), and `main`'s return value. */
  datatype RunOutput = RunOutput(sent: seq<Notification>, saved: Option<map<string, Status>>, changed: bool)

  /** The decision rule for one page: the reading is not `error` and differs
      from the stored value (`"unknown"` when the page has none). */
  predicate Notifies(prev: map<string, Json>, url: string, cur: Status) {
    cur != Error && JStr(Name(cur)) != Lookup(prev, url)
  }

  /** One loop iteration: an empty URL is skipped; otherwise the reading is
      recorded and a notification is added when the decision rule fires. */
  function Step(prev: map<string, Json>, st: RunState, url: string, cur: Status): (r: RunState)
    ensures url == "" ==> r == st
    ensures url != "" ==> r.current == st.current[url := cur]
    ensures url != "" && Notifies(prev, url, cur) ==>
              r.sent == st.sent + [Notification(url, cur)] && r.changed
    ensures url != "" && !Notifies(prev, url, cur) ==>
              r.sent == st.sent && r.changed == st.changed
  {
    if url == "" then st
    else
      var fire := Notifies(prev, url, cur);
      RunState(st.current[url := cur],
               if fire then st.sent + [Notification(url, cur)] else st.sent,
               st.changed || fire)
  }

  /** The loop after its first `n` iterations. The flag is set exactly when
      something was sent, and at most one notification goes out per page. */
  function RunUpTo(prev: map<string, Json>, urls: seq<string>, readings: seq<Status>, n: nat): (r: RunState)
    requires |readings| == |urls| && n <= |urls|
    ensures r.changed <==> |r.sent| > 0
    ensures |r.sent| <= n
    decreases n
  {
    if n == 0 then RunState(map[], [], false)
    else Step(prev, RunUpTo(prev, urls, readings, n - 1), urls[n - 1], readings[n - 1])
  }

  /** The whole loop over the configured pages with their readings. */
  function RunAll(prev: map<string, Json>, urls: seq<string>, readings: seq<Status>): (r: RunState)
    requires |readings| == |urls|
    ensures r.changed <==> |r.sent| > 0
    ensures |r.sent| <= |urls|
  {
    RunUpTo(prev, urls, readings, |urls|)
  }

  /** After `n` iterations the record holds exactly the non-empty URLs seen. */
  lemma {:induction false} RunKeys(prev: map<string, Json>, urls: seq<string>, readings: seq<Status>, n: nat)
    requires |readings| == |urls| && n <= |urls|
    ensures forall u :: u in RunUpTo(prev, urls, readings, n).current <==>
                        u != "" && exists i :: 0 <= i < n && urls[i] == u
    decreases n
  {
    if n > 0 {
      RunKeys(prev, urls, readings, n - 1);
    }
  }

  /** The record keeps, for each page, the reading of its last occurrence. */
  lemma {:induction false} RunLastReading(prev: map<string, Json>, urls: seq<string>, readings: seq<Status>,
                                          n: nat, i: nat)
    requires |readings| == |urls| && i < n <= |urls| && urls[i] != ""
    requires forall j :: i < j < n ==> urls[j] != urls[i]
    ensures urls[i] in RunUpTo(prev, urls, readings, n).current
    ensures RunUpTo(prev, urls, readings, n).current[urls[i]] == readings[i]
    decreases n
  {
    if n - 1 > i {
      RunLastReading(prev, urls, readings, n - 1, i);
    }
  }

  /** `note` is justified by the first `n` pages: it is for a non-empty URL
      among them, carries that occurrence's reading, and the decision rule
      fires for it. */
  predicate Justified(prev: map<string, Json>, urls: seq<string>, readings: seq<Status>, n: nat, note: Notification)
    requires |readings| == |urls| && n <= |urls|
  {
    && note.url != ""
    && Notifies(prev, note.url, note.status)
    && exists i :: 0 <= i < n && urls[i] == note.url && readings[i] == note.status
  }

  /** Every notification is for a configured page whose reading it carries and
      for which the decision rule fires; in particular none carries `error`. */
  lemma {:induction false} RunSound(prev: map<string, Json>, urls: seq<string>, readings: seq<Status>, n: nat)
    requires |readings| == |urls| && n <= |urls|
    ensures forall k :: 0 <= k < |RunUpTo(prev, urls, readings, n).sent| ==>
              Justified(prev, urls, readings, n, RunUpTo(prev, urls, readings, n).sent[k])
    decreases n
  {
    if n > 0 {
      RunSound(prev, urls, readings, n - 1);
      var before := RunUpTo(prev, urls, readings, n - 1).sent;
      var sent := RunUpTo(prev, urls, readings, n).sent;
      forall k | 0 <= k < |sent|
        ensures Justified(prev, urls, readings, n, sent[k])
      {
        if k < |before| {
          assert sent[k] == before[k];
          assert Justified(prev, urls, readings, n - 1, before[k]);
        } else {
          assert sent[k] == Notification(urls[n - 1], readings[n - 1]);
        }
      }
    }
  }

  /** Every page occurrence for which the decision rule fires gets its
      notification. */
  lemma {:induction false} RunComplete(prev: map<string, Json>, urls: seq<string>, readings: seq<Status>, n: nat)
    requires |readings| == |urls| && n <= |urls|
    ensures forall i :: 0 <= i < n && urls[i] != "" && Notifies(prev, urls[i], readings[i]) ==>
              Notification(urls[i], readings[i]) in RunUpTo(prev, urls, readings, n).sent
    decreases n
  {
    if n > 0 {
      RunComplete(prev, urls, readings, n - 1);
    }
  }

  /** Over a page list without repeats no page is announced twice, so
      together with RunSound and RunComplete each changed page gets exactly
      one notification. */
  lemma {:induction false} RunOncePerPage(prev: map<string, Json>, urls: seq<string>, readings: seq<Status>, n: nat)
    requires |readings| == |urls| && n <= |urls|
    requires forall i, j :: 0 <= i < j < |urls| ==> urls[i] != urls[j]
    ensures forall a, b :: 0 <= a < b < |RunUpTo(prev, urls, readings, n).sent| ==>
              RunUpTo(prev, urls, readings, n).sent[a].url != RunUpTo(prev, urls, readings, n).sent[b].url
    decreases n
  {
    if n > 0 {
      RunOncePerPage(prev, urls, readings, n - 1);
      RunSound(prev, urls, readings, n - 1);
      var before := RunUpTo(prev, urls, readings, n - 1).sent;
      var sent := RunUpTo(prev, urls, readings, n).sent;
      forall a, b | 0 <= a < b < |sent|
        ensures sent[a].url != sent[b].url
      {
        assert sent[a] == before[a];
        if b < |before| {
          assert sent[b] == before[b];
        } else {
          assert sent[b].url == urls[n - 1];
          assert Justified(prev, urls, readings, n - 1, before[a]);
        }
      }
    }
  }

  /** A page listed twice is read and judged twice: both occurrences can be
      announced in one run, and the later reading is the one recorded. */
  lemma RepeatedPageAnnouncedTwice(u: string)
    requires u != ""
    ensures var run := RunAll(map[], [u, u], [Open, Closed]);
            && run.sent == [Notification(u, Open), Notification(u, Closed)]
            && run.current == map[u := Closed]
  {
    assert RunUpTo(map[], [u, u], [Open, Closed], 1).sent == [Notification(u, Open)];
  }

  /** When every page's stored value already equals its reading (or the reading
      is `error`), nothing is sent. */
  lemma {:induction false} RunQuietWhenStored(prev: map<string, Json>, urls: seq<string>, readings: seq<Status>, n: nat)
    requires |readings| == |urls| && n <= |urls|
    requires forall i :: 0 <= i < n && urls[i] != "" ==> !Notifies(prev, urls[i], readings[i])
    ensures RunUpTo(prev, urls, readings, n).sent == []
    decreases n
  {
    if n > 0 {
      RunQuietWhenStored(prev, urls, readings, n - 1);
    }
  }

  /** The readings of the configured pages, the `i`-th fetched as `fetch(i)`. */
  function Readings(urls: seq<string>, fetch: nat -> FetchOutcome, lower: string -> string): (r: seq<Status>)
    ensures |r| == |urls|
    ensures forall i :: 0 <= i < |r| ==> r[i] == GetStatus(fetch(i), lower)
    decreases |urls|
  {
    if |urls| == 0 then []
    else Readings(urls[..|urls| - 1], fetch, lower) + [GetStatus(fetch(|urls| - 1), lower)]
  }

  /** The end of `main`: the record is written exactly when something changed. */
  function Finish(st: RunState): (r: RunOutput)
    requires st.changed <==> |st.sent| > 0
    ensures r.sent == st.sent && r.changed == st.changed
    ensures r.saved.Some? <==> |r.sent| > 0
    ensures r.saved.Some? ==> r.saved.value == st.current
  {
    RunOutput(st.sent, if st.changed then Some(st.current) else None, st.changed)
  }

  /** A finished run over URLs that are all non-empty writes a record with
      exactly those keys, and sends nothing carrying `error`. */
  lemma RunOutputFacts(prev: map<string, Json>, urls: seq<string>, readings: seq<Status>)
    requires |readings| == |urls|
    requires forall k :: 0 <= k < |urls| ==> urls[k] != []
    ensures var out := Finish(RunAll(prev, urls, readings));
            && (out.saved.Some? ==> forall u :: u in out.saved.value <==> u in urls)
            && (forall k :: 0 <= k < |out.sent| ==> out.sent[k].status != Error)
  {
    RunKeys(prev, urls, readings, |urls|);
    RunSound(prev, urls, readings, |urls|);
    var st := RunUpTo(prev, urls, readings, |urls|);
    assert RunAll(prev, urls, readings) == st;
    forall k | 0 <= k < |st.sent|
      ensures st.sent[k].status != Error
    {
      assert Justified(prev, urls, readings, |urls|, st.sent[k]);
    }
  }

  /** `main()` with its environment made explicit: the two URL variables, the
      state file as read, the outcome of the `i`-th page fetch, and
      `str.lower`. The run aborts exactly when the state file cannot be read
      as a record; otherwise it writes the record iff it notified, and a
      written record covers exactly the configured pages. */
  function Main(checkUrls: string, checkUrl: string, file: StoredFile,
                fetch: nat -> FetchOutcome, lower: string -> string): (r: Result<RunOutput, StoreError>)
    ensures r.Failure? <==> LoadPrev(file, ParseUrls(checkUrls, checkUrl)).Failure?
    ensures r.Success? ==> (r.value.saved.Some? <==> r.value.changed) && (r.value.changed <==> |r.value.sent| > 0)
    ensures r.Success? && r.value.saved.Some? ==>
              forall u :: u in r.value.saved.value <==> u in ParseUrls(checkUrls, checkUrl)
    ensures r.Success? ==> forall k :: 0 <= k < |r.value.sent| ==> r.value.sent[k].status != Error
  {
    var urls := ParseUrls(checkUrls, checkUrl);
    match LoadPrev(file, urls)
    case Failure(e) => Failure(e)
    case Success(prev) =>
      var readings := Readings(urls, fetch, lower);
      RunOutputFacts(prev, urls, readings);
      Success(Finish(RunAll(prev, urls, readings)))
  }

  /** A run in which every page read `error` sends nothing and leaves the state
      file as it was. */
  lemma AllErrorsQuiet(prev: map<string, Json>, urls: seq<string>, readings: seq<Status>)
    requires |readings| == |urls|
    requires forall i :: 0 <= i < |readings| ==> readings[i] == Error
    ensures Finish(RunAll(prev, urls, readings)).sent == []
    ensures Finish(RunAll(prev, urls, readings)).saved.None?
  {
    RunQuietWhenStored(prev, urls, readings, |urls|);
  }

  /** Reading the record a run wrote, a second run over the same distinct pages
      with the same readings sends nothing. */
  lemma RerunQuiet(prev: map<string, Json>, urls: seq<string>, readings: seq<Status>)
    requires |readings| == |urls|
    requires forall i, j :: 0 <= i < j < |urls| ==> urls[i] != urls[j]
    ensures RunAll(Encode(RunAll(prev, urls, readings).current), urls, readings).sent == []
  {
    var stored := Encode(RunAll(prev, urls, readings).current);
    forall i | 0 <= i < |urls| && urls[i] != ""
      ensures !Notifies(stored, urls[i], readings[i])
    {
      RunLastReading(prev, urls, readings, |urls|, i);
    }
    RunQuietWhenStored(stored, urls, readings, |urls|);
  }

  /** End to end: when a run wrote its record, running again over a
      duplicate-free page list with the same fetch outcomes, now reading that
      record, notifies nothing and writes nothing. */
  lemma MainRerunQuiet(checkUrls: string, checkUrl: string, file: StoredFile,
                       fetch: nat -> FetchOutcome, lower: string -> string)
    requires Main(checkUrls, checkUrl, file, fetch, lower).Success?
    requires Main(checkUrls, checkUrl, file, fetch, lower).value.saved.Some?
    requires var urls := ParseUrls(checkUrls, checkUrl);
             forall i, j :: 0 <= i < j < |urls| ==> urls[i] != urls[j]
    ensures var again := Main(checkUrls, checkUrl,
                              Parsed(Save(Main(checkUrls, checkUrl, file, fetch, lower).value.saved.value)),
                              fetch, lower);
            again.Success? && again.value.sent == [] && again.value.saved.None?
  {
    var urls := ParseUrls(checkUrls, checkUrl);
    var prev := LoadPrev(file, urls).value;
    var readings := Readings(urls, fetch, lower);
    var saved := RunAll(prev, urls, readings).current;
    LoadSaveJson(Encode(saved), urls);
    RerunQuiet(prev, urls, readings);
  }

  /** With neither URL variable set the built-in pages are checked, and a
      repeated run after one that wrote its record is silent. */
  lemma DefaultsRerunQuiet(file: StoredFile, fetch: nat -> FetchOutcome, lower: string -> string)
    requires Main("", "", file, fetch, lower).Success?
    requires Main("", "", file, fetch, lower).value.saved.Some?
    ensures var again := Main("", "", Parsed(Save(Main("", "", file, fetch, lower).value.saved.value)), fetch, lower);
            again.Success? && again.value.sent == [] && again.value.saved.None?
  {
    assert ParseUrls("", "") == DefaultUrls();
    MainRerunQuiet("", "", file, fetch, lower);
  }

  /** The loop state of the corrected run: the record is kept as JSON so that
      a page read as `error` can keep its stored value. */
  datatype KeptState = KeptState(record: map<string, Json>, sent: seq<Notification>, changed: bool)

  /** One iteration of the corrected run: notifications as before, but an
      `error` reading does not overwrite the page's entry; the stored value is
      carried over instead. */
  function StepKeeping(prev: map<string, Json>, st: KeptState, url: string, cur: Status): (r: KeptState)
    ensures url != "" && cur != Error ==> r.record == st.record[url := JStr(Name(cur))]
    ensures url == "" || cur == Error ==> r.record.Keys <= st.record.Keys + prev.Keys
  {
    if url == "" then st
    else
      var fire := Notifies(prev, url, cur);
      var record :=
        if cur != Error then st.record[url := JStr(Name(cur))]
        else if url !in st.record && url in prev then st.record[url := prev[url]]
        else st.record;
      KeptState(record, if fire then st.sent + [Notification(url, cur)] else st.sent, st.changed || fire)
  }

  /** The corrected loop after its first `n` iterations. */
  function RunKeepingUpTo(prev: map<string, Json>, urls: seq<string>, readings: seq<Status>, n: nat): (r: KeptState)
    requires |readings| == |urls| && n <= |urls|
    ensures forall u :: u in r.record ==> u != "" && exists i :: 0 <= i < n && urls[i] == u
    decreases n
  {
    if n == 0 then KeptState(map[], [], false)
    else StepKeeping(prev, RunKeepingUpTo(prev, urls, readings, n - 1), urls[n - 1], readings[n - 1])
  }

  /** The corrected run notifies exactly as the source does; only what it
      stores differs. */
  lemma {:induction false} KeepingSendsTheSame(prev: map<string, Json>, urls: seq<string>, readings: seq<Status>, n: nat)
    requires |readings| == |urls| && n <= |urls|
    ensures RunKeepingUpTo(prev, urls, readings, n).sent == RunUpTo(prev, urls, readings, n).sent
    ensures RunKeepingUpTo(prev, urls, readings, n).changed == RunUpTo(prev, urls, readings, n).changed
    decreases n
  {
    if n > 0 {
      KeepingSendsTheSame(prev, urls, readings, n - 1);
    }
  }

  /** The corrected run never writes `"error"`: every entry holds a page's
      latest non-error reading, or the value it already had. */
  lemma {:induction false} KeepingNeverStoresError(prev: map<string, Json>, urls: seq<string>, readings: seq<Status>, n: nat)
    requires |readings| == |urls| && n <= |urls|
    ensures forall u :: u in RunKeepingUpTo(prev, urls, readings, n).record ==>
              RunKeepingUpTo(prev, urls, readings, n).record[u] != JStr(Name(Error)) ||
              (u in prev && prev[u] == JStr(Name(Error)))
    decreases n
  {
    if n > 0 {
      KeepingNeverStoresError(prev, urls, readings, n - 1);
    }
  }

  /** In the corrected run a page that only ever read `error` keeps exactly its
      stored entry: present with the same value if it had one, absent if not. */
  lemma {:induction false} KeepingErrorKeepsStored(prev: map<string, Json>, urls: seq<string>, readings: seq<Status>,
                                                   n: nat, u: string)
    requires |readings| == |urls| && n <= |urls|
    requires forall i :: 0 <= i < n && urls[i] == u ==> readings[i] == Error
    requires u != "" && exists i :: 0 <= i < n && urls[i] == u
    ensures u in RunKeepingUpTo(prev, urls, readings, n).record <==> u in prev
    ensures u in prev ==> RunKeepingUpTo(prev, urls, readings, n).record[u] == prev[u]
    decreases n
  {
    var before := RunKeepingUpTo(prev, urls, readings, n - 1);
    if urls[n - 1] != u {
      KeepingErrorKeepsStored(prev, urls, readings, n - 1, u);
    } else if exists i :: 0 <= i < n - 1 && urls[i] == u {
      KeepingErrorKeepsStored(prev, urls, readings, n - 1, u);
    }
  }

  /** As written: page `b` was `closed`, one run read it as `error` while page
      `a` changed, so `"error"` was stored for `b`; when `b` reads `closed`
      again the next run announces a change that never happened. */
  lemma ErrorReadingResurfaces(a: string, b: string)
    requires a != b && a != "" && b != ""
    ensures var prev := map[a := JStr(Name(Closed)), b := JStr(Name(Closed))];
            var first := RunAll(prev, [a, b], [Open, Error]);
            var second := RunAll(Encode(first.current), [a, b], [Open, Closed]);
            && first.sent == [Notification(a, Open)]
            && first.current == map[a := Open, b := Error]
            && second.sent == [Notification(b, Closed)]
  {
    var prev := map[a := JStr(Name(Closed)), b := JStr(Name(Closed))];
    var first := RunAll(prev, [a, b], [Open, Error]);
    assert RunUpTo(prev, [a, b], [Open, Error], 1).sent == [Notification(a, Open)];
    var stored := Encode(first.current);
    assert stored[a] == JStr(Name(Open)) && stored[b] == JStr(Name(Error));
    assert RunUpTo(stored, [a, b], [Open, Closed], 1).sent == [];
  }

  /** Corrected: the same two runs leave `b`'s stored `closed` in place, and the
      second run is silent. */
  lemma ErrorReadingKept(a: string, b: string)
    requires a != b && a != "" && b != ""
    ensures var prev := map[a := JStr(Name(Closed)), b := JStr(Name(Closed))];
            var first := RunKeepingUpTo(prev, [a, b], [Open, Error], 2);
            var second := RunKeepingUpTo(first.record, [a, b], [Open, Closed], 2);
            && first.sent == [Notification(a, Open)]
            && first.record == map[a := JStr(Name(Open)), b := JStr(Name(Closed))]
            && second.sent == []
  {
    var prev := map[a := JStr(Name(Closed)), b := JStr(Name(Closed))];
    var first := RunKeepingUpTo(prev, [a, b], [Open, Error], 2);
    assert RunKeepingUpTo(prev, [a, b], [Open, Error], 1).record == map[a := JStr(Name(Open))];
    assert RunKeepingUpTo(first.record, [a, b], [Open, Closed], 1).sent == [];
  }
}
