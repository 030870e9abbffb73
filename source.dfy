/**
 One run of the "changes to webinar panelists" source: choose the webinars,
 then for each one fetch its panelists, emit the diff against the stored
 snapshot and store the new snapshot, in webinar order. A failed API call
 aborts the run: what was emitted and stored before it stays.
 */
module PanelistChanges {
  import opened Wrappers
  import opened Panelists
  import opened SnapshotDiff
  import opened DiffProperties
  import opened WebinarPagination

  /** Every snapshot in the key-value store is well formed. */
  ghost predicate StoreValid(db: map<string, Snapshot>)
  {
    forall w :: w in db ==> Valid(db[w])
  }

  /** The snapshot stored under webinar `w`, if any. */
  function Lookup(db: map<string, Snapshot>, w: string): Option<Snapshot>
  {
    if w in db then Some(db[w]) else None
  }

  /** The events a run emits, the store it leaves, and whether it ran to the end. */
  datatype RunOutcome = RunOutcome(events: seq<Event>, db: map<string, Snapshot>, completed: bool)

  /** `r` with `evs` emitted before its own events. */
  function EmittedFirst(evs: seq<Event>, r: RunOutcome): RunOutcome
  {
    RunOutcome(evs + r.events, r.db, r.completed)
  }

  /**
   The loop over the webinars: `fetch(w)` is the response of the panelist
   listing of webinar `w`, `None` when that request fails.
   */
  function ProcessWebinars(db: map<string, Snapshot>, ws: seq<string>, fetch: string -> Option<seq<Panelist>>): (r: RunOutcome)
    requires StoreValid(db)
    ensures StoreValid(r.db)
    decreases |ws|
  {
    if ws == [] then RunOutcome([], db, true)
    else
      match fetch(ws[0])
      case None => RunOutcome([], db, false)
      case Some(ps) =>
        EmittedFirst(DiffEvents(ws[0], OrEmpty(Lookup(db, ws[0])), ps),
          ProcessWebinars(db[ws[0] := BuildSnapshot(ps)], ws[1..], fetch))
  }

  /** A whole run: the webinars to poll, then the loop over them. */
  function Poll(db: map<string, Snapshot>, configured: seq<string>, pages: seq<WebinarPage>,
                fetch: string -> Option<seq<Panelist>>): RunOutcome
    requires StoreValid(db)
  {
    match WebinarsToPoll(configured, pages)
    case None => RunOutcome([], db, false)
    case Some(ws) => ProcessWebinars(db, ws, fetch)
  }

  /** The loop runs to the end exactly when every panelist listing succeeds. */
  lemma {:induction false} ProcessWebinarsCompletedIff(db: map<string, Snapshot>, ws: seq<string>, fetch: string -> Option<seq<Panelist>>)
    requires StoreValid(db)
    ensures ProcessWebinars(db, ws, fetch).completed <==> forall i :: 0 <= i < |ws| ==> fetch(ws[i]).Some?
    decreases |ws|
  {
    if ws != [] && fetch(ws[0]).Some? {
      var ps := fetch(ws[0]).value;
      ProcessWebinarsCompletedIff(db[ws[0] := BuildSnapshot(ps)], ws[1..], fetch);
      assert forall i :: 1 <= i < |ws| ==> ws[1..][i - 1] == ws[i];
    }
  }

  /** A run leaves the snapshot of every webinar it does not poll as it was. */
  lemma {:induction false} ProcessWebinarsLeavesOthers(db: map<string, Snapshot>, ws: seq<string>, fetch: string -> Option<seq<Panelist>>, w: string)
    requires StoreValid(db) && w !in ws
    ensures Lookup(ProcessWebinars(db, ws, fetch).db, w) == Lookup(db, w)
    decreases |ws|
  {
    if ws != [] && fetch(ws[0]).Some? {
      var ps := fetch(ws[0]).value;
      assert w != ws[0];
      ProcessWebinarsLeavesOthers(db[ws[0] := BuildSnapshot(ps)], ws[1..], fetch, w);
    }
  }

  /** A run that completes stores, for each polled webinar, the snapshot of its current panelists. */
  lemma {:induction false} ProcessWebinarsStores(db: map<string, Snapshot>, ws: seq<string>, fetch: string -> Option<seq<Panelist>>, i: nat)
    requires StoreValid(db) && i < |ws| && ProcessWebinars(db, ws, fetch).completed
    ensures fetch(ws[i]).Some?
    ensures Lookup(ProcessWebinars(db, ws, fetch).db, ws[i]) == Some(BuildSnapshot(fetch(ws[i]).value))
    decreases |ws|
  {
    var ps := fetch(ws[0]).value;
    var db1 := db[ws[0] := BuildSnapshot(ps)];
    if i == 0 {
      if j :| 0 <= j < |ws[1..]| && ws[1..][j] == ws[0] {
        ProcessWebinarsStores(db1, ws[1..], fetch, j);
      } else {
        ProcessWebinarsLeavesOthers(db1, ws[1..], fetch, ws[0]);
      }
    } else {
      ProcessWebinarsStores(db1, ws[1..], fetch, i - 1);
    }
  }

  /**
   A run whose `n`-th panelist listing is the first to fail ends there: it
   emits and stores exactly what the run over the first `n` webinars does,
   and reports that it did not complete.
   */
  lemma {:induction false} ProcessWebinarsStopsAtFailure(db: map<string, Snapshot>, ws: seq<string>, fetch: string -> Option<seq<Panelist>>, n: nat)
    requires StoreValid(db) && n < |ws| && fetch(ws[n]).None?
    requires forall j :: 0 <= j < n ==> fetch(ws[j]).Some?
    ensures ProcessWebinars(db, ws, fetch) == ProcessWebinars(db, ws[..n], fetch).(completed := false)
    decreases |ws|
  {
    if n > 0 {
      var ps := fetch(ws[0]).value;
      assert forall j :: 0 <= j < n - 1 ==> ws[1..][j] == ws[j + 1];
      ProcessWebinarsStopsAtFailure(db[ws[0] := BuildSnapshot(ps)], ws[1..], fetch, n - 1);
      assert ws[..n][1..] == ws[1..][..n - 1];
    }
  }

  /**
   When every polled webinar's stored snapshot is already that of its current
   panelists (each listing with one record per id), a run emits nothing and
   leaves the store unchanged.
   */
  lemma {:induction false} ProcessWebinarsQuiet(db: map<string, Snapshot>, ws: seq<string>, fetch: string -> Option<seq<Panelist>>)
    requires StoreValid(db)
    requires forall i :: 0 <= i < |ws| ==>
      fetch(ws[i]).Some? && ConsistentIds(fetch(ws[i]).value) &&
      Lookup(db, ws[i]) == Some(BuildSnapshot(fetch(ws[i]).value))
    ensures ProcessWebinars(db, ws, fetch) == RunOutcome([], db, true)
    decreases |ws|
  {
    if ws != [] {
      var ps := fetch(ws[0]).value;
      assert db[ws[0] := BuildSnapshot(ps)] == db;
      DiffIdempotent(ws[0], ps);
      assert forall i :: 0 <= i < |ws[1..]| ==> ws[1..][i] == ws[i + 1];
      ProcessWebinarsQuiet(db, ws[1..], fetch);
    }
  }

  /** A run completes exactly when the webinars to poll are known and every panelist listing succeeds. */
  lemma PollCompletedIff(db: map<string, Snapshot>, configured: seq<string>, pages: seq<WebinarPage>,
                         fetch: string -> Option<seq<Panelist>>)
    requires StoreValid(db)
    ensures Poll(db, configured, pages, fetch).completed <==>
      WebinarsToPoll(configured, pages).Some? &&
      forall w :: w in WebinarsToPoll(configured, pages).value ==> fetch(w).Some?
  {
    if WebinarsToPoll(configured, pages).Some? {
      var ws := WebinarsToPoll(configured, pages).value;
      ProcessWebinarsCompletedIff(db, ws, fetch);
      assert forall w :: w in ws ==> exists i :: 0 <= i < |ws| && ws[i] == w;
    }
  }

  /** With webinars configured, the webinar listing has no effect on a run. */
  lemma ConfiguredWebinarsIgnoreListing(db: map<string, Snapshot>, configured: seq<string>,
                                        pages1: seq<WebinarPage>, pages2: seq<WebinarPage>,
                                        fetch: string -> Option<seq<Panelist>>)
    requires StoreValid(db) && |configured| > 0
    ensures Poll(db, configured, pages1, fetch) == Poll(db, configured, pages2, fetch)
    ensures Poll(db, configured, pages1, fetch) == ProcessWebinars(db, configured, fetch)
  {
  }

  /** The first webinar whose panelist listing fails, when one does. */
  lemma {:induction false} FirstFailure(ws: seq<string>, fetch: string -> Option<seq<Panelist>>) returns (n: nat)
    requires exists i :: 0 <= i < |ws| && fetch(ws[i]).None?
    ensures n < |ws| && fetch(ws[n]).None?
    ensures forall j :: 0 <= j < n ==> fetch(ws[j]).Some?
    decreases |ws|
  {
    if fetch(ws[0]).None? {
      n := 0;
    } else {
      var i :| 0 <= i < |ws| && fetch(ws[i]).None?;
      assert ws[1..][i - 1] == ws[i];
      var m := FirstFailure(ws[1..], fetch);
      n := m + 1;
      assert forall j :: 1 <= j < n ==> ws[j] == ws[1..][j - 1];
    }
  }

  /**
   Polling twice with the same API responses, each listing of a polled webinar
   having one record per id: whether or not the first run completed, the
   second emits nothing, changes nothing, and ends the way the first did.
   */
  lemma PollIdempotent(db: map<string, Snapshot>, configured: seq<string>, pages: seq<WebinarPage>,
                       fetch: string -> Option<seq<Panelist>>)
    requires StoreValid(db)
    requires WebinarsToPoll(configured, pages).Some? ==>
      forall w :: w in WebinarsToPoll(configured, pages).value && fetch(w).Some? ==> ConsistentIds(fetch(w).value)
    ensures var first := Poll(db, configured, pages, fetch);
      Poll(first.db, configured, pages, fetch) == RunOutcome([], first.db, first.completed)
  {
    if WebinarsToPoll(configured, pages).Some? {
      var ws := WebinarsToPoll(configured, pages).value;
      ProcessWebinarsCompletedIff(db, ws, fetch);
      if ProcessWebinars(db, ws, fetch).completed {
        QuietAfterCompletedRun(db, ws, fetch);
      } else {
        var n := FirstFailure(ws, fetch);
        var done := ProcessWebinars(db, ws[..n], fetch);
        ProcessWebinarsStopsAtFailure(db, ws, fetch, n);
        ProcessWebinarsCompletedIff(db, ws[..n], fetch);
        assert forall w :: w in ws[..n] ==> w in ws;
        QuietAfterCompletedRun(db, ws[..n], fetch);
        ProcessWebinarsStopsAtFailure(done.db, ws, fetch, n);
      }
    }
  }

  /** After a completed run, running the same webinars on the same responses is quiet. */
  lemma QuietAfterCompletedRun(db: map<string, Snapshot>, ws: seq<string>, fetch: string -> Option<seq<Panelist>>)
    requires StoreValid(db) && ProcessWebinars(db, ws, fetch).completed
    requires forall w :: w in ws && fetch(w).Some? ==> ConsistentIds(fetch(w).value)
    ensures var first := ProcessWebinars(db, ws, fetch);
      ProcessWebinars(first.db, ws, fetch) == RunOutcome([], first.db, true)
  {
    var first := ProcessWebinars(db, ws, fetch);
    forall i | 0 <= i < |ws|
      ensures fetch(ws[i]).Some? && Lookup(first.db, ws[i]) == Some(BuildSnapshot(fetch(ws[i]).value))
    {
      ProcessWebinarsStores(db, ws, fetch, i);
    }
    ProcessWebinarsQuiet(first.db, ws, fetch);
  }

  lemma ProcessWebinarsStep(db: map<string, Snapshot>, ws: seq<string>, fetch: string -> Option<seq<Panelist>>, i: nat)
    requires StoreValid(db) && i < |ws|
    ensures fetch(ws[i]).None? ==> ProcessWebinars(db, ws[i..], fetch) == RunOutcome([], db, false)
    ensures fetch(ws[i]).Some? ==>
      var ps := fetch(ws[i]).value;
      ProcessWebinars(db, ws[i..], fetch) ==
        EmittedFirst(DiffEvents(ws[i], OrEmpty(Lookup(db, ws[i])), ps),
          ProcessWebinars(db[ws[i] := BuildSnapshot(ps)], ws[i + 1..], fetch))
  {
    assert ws[i..][0] == ws[i];
    assert ws[i..][1..] == ws[i + 1..];
  }

  lemma EmittedFirstTwice(a: seq<Event>, b: seq<Event>, r: RunOutcome)
    ensures EmittedFirst(a, EmittedFirst(b, r)) == EmittedFirst(a + b, r)
  {
    ConcatAssoc(a, b, r.events);
  }

  lemma EmittedFirstNothing(r: RunOutcome)
    ensures EmittedFirst([], r) == r
  {
    assert [] + r.events == r.events;
  }

  /**
   The source's state: the key-value store of snapshots and the log of every
   event emitted so far (the metadata of each is `EventMetaOf`).
   */
  class PanelistSource {
    var db: map<string, Snapshot>
    var emitted: seq<Event>

    ghost predicate Valid()
      reads this
    {
      StoreValid(db)
    }

    constructor ()
      ensures Valid() && db == map[] && emitted == []
    {
      db := map[];
      emitted := [];
    }

    /** The loop over the webinars to poll. */
    method PollWebinars(webinars: seq<string>, fetch: string -> Option<seq<Panelist>>) returns (completed: bool)
      requires Valid()
      modifies this
      ensures Valid()
      ensures var r := ProcessWebinars(old(db), webinars, fetch);
        emitted == old(emitted) + r.events && db == r.db && completed == r.completed
    {
      ghost var db0 := db;
      ghost var e0 := emitted;
      ghost var done: seq<Event> := [];
      EmittedFirstNothing(ProcessWebinars(db0, webinars, fetch));
      assert webinars[0..] == webinars;
      assert e0 + [] == e0;
      for i := 0 to |webinars|
        invariant StoreValid(db)
        invariant emitted == e0 + done
        invariant ProcessWebinars(db0, webinars, fetch) == EmittedFirst(done, ProcessWebinars(db, webinars[i..], fetch))
      {
        var w := webinars[i];
        ProcessWebinarsStep(db, webinars, fetch, i);
        var response := fetch(w);
        if response.None? {
          assert done + [] == done;
          return false;
        }
        var events, snapshot := DiffWebinar(w, Lookup(db, w), response.value);
        EmittedFirstTwice(done, events, ProcessWebinars(db[w := snapshot], webinars[i + 1..], fetch));
        ConcatAssoc(e0, done, events);
        emitted := emitted + events;
        done := done + events;
        db := db[w := snapshot];
      }
      assert done + [] == done;
      completed := true;
    }

    /**
     One run (the deploy hook and every timer tick): returns whether it ran to
     the end; `false` stands for the API error that aborts it.
     */
    method FetchAndEmitParticipants(configured: seq<string>, pages: seq<WebinarPage>,
                                    fetch: string -> Option<seq<Panelist>>) returns (completed: bool)
      requires Valid()
      modifies this
      ensures Valid()
      ensures var r := Poll(old(db), configured, pages, fetch);
        emitted == old(emitted) + r.events && db == r.db && completed == r.completed
    {
      var webinars := configured;
      if |configured| == 0 {
        var listed := ListAllWebinars(pages);
        if listed.None? {
          assert emitted + [] == emitted;
          return false;
        }
        webinars := listed.value;
      }
      completed := PollWebinars(webinars, fetch);
    }
  }
}
