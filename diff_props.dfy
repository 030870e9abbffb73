/**
 What one diff promises: which events it emits, in which order, and what the
 new snapshot holds; and that a second diff over the same list emits nothing.
 */
module DiffProperties {
  import opened Wrappers
  import opened Panelists
  import opened EventMeta
  import opened SeqDifference
  import opened SnapshotDiff

  /** Every event of the current list comes from the events of one of its panelists. */
  lemma {:induction false} CurrentEventsFrom(w: string, prev: Snapshot, ps: seq<Panelist>)
    ensures forall e :: e in CurrentEvents(w, prev, ps) <==>
      exists i :: 0 <= i < |ps| && e in PanelistEvents(w, prev, ps[i])
  {
    if ps != [] {
      var init := ps[..|ps| - 1];
      CurrentEventsFrom(w, prev, init);
      forall e | e in CurrentEvents(w, prev, ps)
        ensures exists i :: 0 <= i < |ps| && e in PanelistEvents(w, prev, ps[i])
      {
        if e in CurrentEvents(w, prev, init) {
          var i :| 0 <= i < |init| && e in PanelistEvents(w, prev, init[i]);
          assert ps[i] == init[i];
        }
      }
      forall e, i | 0 <= i < |ps| && e in PanelistEvents(w, prev, ps[i])
        ensures e in CurrentEvents(w, prev, ps)
      {
        if i < |init| {
          assert init[i] == ps[i];
        }
      }
    }
  }

  /**
   The deleted ids are the stored ids the current list no longer has, each once,
   in the order of the stored keys.
   */
  lemma DeletedIdsExact(prev: Snapshot, ps: seq<Panelist>)
    requires Valid(prev)
    ensures var d := DeletedIds(prev, ps);
      && (forall k :: k in d <==> k in prev.records && k !in Ids(ps))
      && Distinct(d)
      && IsSubsequence(d, prev.keys)
  {
    DifferenceDistinct(prev.keys, Ids(ps));
    DifferenceKeepsOrder(prev.keys, Ids(ps));
  }

  /**
   The deleted events come first, one per deleted id in that order, each
   carrying the stored record; no later event is a deleted one.
   */
  lemma DeletedEventsFirst(w: string, prev: Snapshot, ps: seq<Panelist>)
    requires Valid(prev)
    ensures var d := DeletedIds(prev, ps); var ev := DiffEvents(w, prev, ps);
      && |d| <= |ev|
      && (forall i :: 0 <= i < |d| ==> ev[i] == Event(Deleted, prev.records[d[i]], w))
      && (forall i :: |d| <= i < |ev| ==> ev[i].eventType != Deleted)
  {
    var d := DeletedIds(prev, ps);
    var ev := DiffEvents(w, prev, ps);
    var cur := CurrentEvents(w, prev, ps);
    CurrentEventsFrom(w, prev, ps);
    forall i | |d| <= i < |ev|
      ensures ev[i].eventType != Deleted
    {
      assert ev[i] == cur[i - |d|];
      assert cur[i - |d|] in cur;
    }
  }

  /** An event other than a deleted one is emitted exactly when some current panelist yields it. */
  lemma EventOfCurrentList(w: string, prev: Snapshot, ps: seq<Panelist>, e: Event)
    requires Valid(prev)
    ensures e in DiffEvents(w, prev, ps) && e.eventType != Deleted <==>
      exists i :: 0 <= i < |ps| && e in PanelistEvents(w, prev, ps[i])
  {
    CurrentEventsFrom(w, prev, ps);
    var del := DeletedEvents(w, prev, DeletedIds(prev, ps));
    if e.eventType != Deleted {
      assert e !in del;
    }
  }

  /**
   Added events: a current panelist gets one exactly when its id is not stored,
   and every added event carries a panelist of the current list.
   */
  lemma AddedEventsExact(w: string, prev: Snapshot, ps: seq<Panelist>)
    requires Valid(prev)
    ensures var ev := DiffEvents(w, prev, ps);
      && (forall p :: p in ps ==> (Event(Added, p, w) in ev <==> p.id !in prev.records))
      && (forall e :: e in ev && e.eventType == Added ==> e.panelist in ps && e == Event(Added, e.panelist, w))
  {
    var ev := DiffEvents(w, prev, ps);
    forall e | e in ev && e.eventType == Added
      ensures e.panelist in ps && e == Event(Added, e.panelist, w)
    {
      EventOfCurrentList(w, prev, ps, e);
    }
    forall p | p in ps
      ensures Event(Added, p, w) in ev <==> p.id !in prev.records
    {
      EventOfCurrentList(w, prev, ps, Event(Added, p, w));
      var i :| 0 <= i < |ps| && ps[i] == p;
      assert p.id !in prev.records ==> Event(Added, p, w) in PanelistEvents(w, prev, ps[i]);
    }
  }

  /**
   Changed events: a current panelist gets one exactly when its id is stored and
   its fingerprint differs from the stored record's; every changed event carries
   a panelist of the current list.
   */
  lemma ChangedEventsExact(w: string, prev: Snapshot, ps: seq<Panelist>)
    requires Valid(prev)
    ensures var ev := DiffEvents(w, prev, ps);
      && (forall p :: p in ps ==>
           (Event(Changed, p, w) in ev <==> p.id in prev.records && !SameFingerprint(p, prev.records[p.id])))
      && (forall e :: e in ev && e.eventType == Changed ==> e.panelist in ps && e == Event(Changed, e.panelist, w))
  {
    var ev := DiffEvents(w, prev, ps);
    forall e | e in ev && e.eventType == Changed
      ensures e.panelist in ps && e == Event(Changed, e.panelist, w)
    {
      EventOfCurrentList(w, prev, ps, e);
    }
    forall p | p in ps
      ensures Event(Changed, p, w) in ev <==> p.id in prev.records && !SameFingerprint(p, prev.records[p.id])
    {
      EventOfCurrentList(w, prev, ps, Event(Changed, p, w));
      var i :| 0 <= i < |ps| && ps[i] == p;
      assert p.id in prev.records && !SameFingerprint(p, prev.records[p.id]) ==>
        Event(Changed, p, w) in PanelistEvents(w, prev, ps[i]);
    }
  }

  /** No panelist gets both an added and a changed event from the same diff. */
  lemma NeverAddedAndChanged(w: string, prev: Snapshot, ps: seq<Panelist>, p: Panelist)
    requires Valid(prev)
    requires p in ps
    ensures !(Event(Added, p, w) in DiffEvents(w, prev, ps) && Event(Changed, p, w) in DiffEvents(w, prev, ps))
  {
    AddedEventsExact(w, prev, ps);
    ChangedEventsExact(w, prev, ps);
  }

  lemma {:induction false} CurrentEventsAgainstEmpty(w: string, ps: seq<Panelist>)
    ensures CurrentEvents(w, Empty, ps) == seq(|ps|, i requires 0 <= i < |ps| => Event(Added, ps[i], w))
  {
    if ps != [] {
      CurrentEventsAgainstEmpty(w, ps[..|ps| - 1]);
    }
  }

  /** With nothing stored, every current panelist yields an added event, in list order, and nothing else. */
  lemma AbsentSnapshotAllAdded(w: string, ps: seq<Panelist>)
    ensures DiffEvents(w, OrEmpty(None), ps) == seq(|ps|, i requires 0 <= i < |ps| => Event(Added, ps[i], w))
  {
    CurrentEventsAgainstEmpty(w, ps);
  }

  lemma {:induction false} BuildSnapshotLastWinsAt(ps: seq<Panelist>, i: nat)
    requires i < |ps|
    requires forall j :: i < j < |ps| ==> ps[j].id != ps[i].id
    ensures ps[i].id in BuildSnapshot(ps).records && BuildSnapshot(ps).records[ps[i].id] == ps[i]
  {
    var init := ps[..|ps| - 1];
    if i < |init| {
      assert init[i] == ps[i];
      assert forall j :: i < j < |init| ==> init[j] == ps[j];
      BuildSnapshotLastWinsAt(init, i);
    }
  }

  /** Each id of the new snapshot holds the record of its LAST occurrence in the list. */
  lemma BuildSnapshotLastWins(ps: seq<Panelist>)
    ensures forall i :: 0 <= i < |ps| && (forall j :: i < j < |ps| ==> ps[j].id != ps[i].id) ==>
      ps[i].id in BuildSnapshot(ps).records && BuildSnapshot(ps).records[ps[i].id] == ps[i]
  {
    forall i | 0 <= i < |ps| && (forall j :: i < j < |ps| ==> ps[j].id != ps[i].id)
      ensures ps[i].id in BuildSnapshot(ps).records && BuildSnapshot(ps).records[ps[i].id] == ps[i]
    {
      BuildSnapshotLastWinsAt(ps, i);
    }
  }

  /** Some panelist before position `j` of the list has id `k`. */
  ghost predicate OccursBefore(ps: seq<Panelist>, k: string, j: int)
  {
    exists i :: 0 <= i < j && i < |ps| && ps[i].id == k
  }

  lemma {:induction false} BuildSnapshotKeyOrderAt(ps: seq<Panelist>, a: nat, b: nat, j: nat)
    requires a < b < |BuildSnapshot(ps).keys| && j < |ps| && ps[j].id == BuildSnapshot(ps).keys[b]
    ensures OccursBefore(ps, BuildSnapshot(ps).keys[a], j)
  {
    var init := ps[..|ps| - 1];
    var last := ps[|ps| - 1];
    assert ps == init + [last];
    var s := BuildSnapshot(init);
    var keys := BuildSnapshot(ps).keys;
    assert keys[a] in s.records;
    var ia := KeyOccurs(init, keys[a]);
    assert ps[ia] == init[ia];
    if b == |s.keys| {
      // keys[b] is the id of the last panelist, which is new to the snapshot
      if j < |init| {
        IdIsKey(init, j);
        assert false;
      }
    } else if j < |init| {
      assert init[j] == ps[j];
      BuildSnapshotKeyOrderAt(init, a, b, j);
      var i :| 0 <= i < j && i < |init| && init[i].id == s.keys[a];
      assert ps[i] == init[i];
    } else {
      // the last panelist repeats an id already in the snapshot
      var jb := KeyOccurs(init, keys[b]);
      BuildSnapshotKeyOrderAt(init, a, b, jb);
      var i :| 0 <= i < jb && i < |init| && init[i].id == s.keys[a];
      assert ps[i] == init[i];
    }
  }

  /**
   The keys of the new snapshot are in the order of first occurrence: whenever
   key `a` comes before key `b`, every occurrence of `b` in the list has an
   occurrence of `a` ahead of it.
   */
  lemma BuildSnapshotKeyOrder(ps: seq<Panelist>)
    ensures var keys := BuildSnapshot(ps).keys;
      forall a, b, j :: 0 <= a < b < |keys| && 0 <= j < |ps| && ps[j].id == keys[b] ==> OccursBefore(ps, keys[a], j)
  {
    var keys := BuildSnapshot(ps).keys;
    forall a, b, j | 0 <= a < b < |keys| && 0 <= j < |ps| && ps[j].id == keys[b]
      ensures OccursBefore(ps, keys[a], j)
    {
      BuildSnapshotKeyOrderAt(ps, a, b, j);
    }
  }

  /** Ids repeated in the list come with the same record each time. */
  ghost predicate ConsistentIds(ps: seq<Panelist>)
  {
    forall i, j :: 0 <= i < |ps| && 0 <= j < |ps| && ps[i].id == ps[j].id ==> ps[i] == ps[j]
  }

  lemma {:induction false} CurrentEventsWhenStored(w: string, s: Snapshot, qs: seq<Panelist>)
    requires forall q :: q in qs ==> q.id in s.records && s.records[q.id] == q
    ensures CurrentEvents(w, s, qs) == []
  {
    if qs != [] {
      var init := qs[..|qs| - 1];
      assert forall q :: q in init ==> q in qs;
      CurrentEventsWhenStored(w, s, init);
      var q := qs[|qs| - 1];
      assert SameFingerprint(q, s.records[q.id]);
    }
  }

  /**
   Idempotence: diffing the same list again, against the snapshot the first diff
   built, emits nothing (when repeated ids carry the same record).
   */
  lemma DiffIdempotent(w: string, ps: seq<Panelist>)
    requires ConsistentIds(ps)
    ensures DiffEvents(w, BuildSnapshot(ps), ps) == []
  {
    var s := BuildSnapshot(ps);
    BuildSnapshotDomain(ps);
    forall k | k in s.keys
      ensures k in Ids(ps)
    {
      var j :| 0 <= j < |ps| && ps[j] == s.records[k];
      assert Ids(ps)[j] == k;
    }
    DifferenceOfCovered(s.keys, Ids(ps));
    forall q | q in ps
      ensures q.id in s.records && s.records[q.id] == q
    {
      var i :| 0 <= i < |ps| && ps[i] == q;
      var j :| 0 <= j < |ps| && ps[j] == s.records[q.id];
    }
    CurrentEventsWhenStored(w, s, ps);
  }

  /**
   Without consistent ids idempotence fails: when the list repeats an id with
   two different records, the snapshot keeps the later one and the next diff
   reports the earlier one as changed.
   */
  lemma RepeatedIdWithTwoRecordsIsReportedAgain(w: string, a: Panelist, b: Panelist)
    requires a.id == b.id && a != b
    ensures DiffEvents(w, BuildSnapshot([a, b]), [a, b]) == [Event(Changed, a, w)]
  {
    var s := BuildSnapshot([a, b]);
    assert [a, b][..1] == [a];
    assert [a][..0] == [];
    assert BuildSnapshot([a]) == Insert(Empty, a);
    assert s == Insert(BuildSnapshot([a]), b);
    assert s.records[a.id] == b && s.keys == [a.id];
    SameFingerprintIff(a, b);
    SameFingerprintIff(b, b);
    assert Ids([a, b]) == [a.id, b.id];
    assert DeletedIds(s, [a, b]) == [];
    assert [a, b][..1] == [a];
    assert CurrentEvents(w, s, [a]) == [Event(Changed, a, w)];
  }
}
