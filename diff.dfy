/**
 The per-webinar snapshot diff: compare the stored snapshot of a webinar's
 panelists with the list the API returns now, emit one event per deleted, added
 or changed panelist, and build the snapshot that replaces the stored one.
 */
module SnapshotDiff {
  import opened Wrappers
  import opened Panelists
  import opened EventMeta
  import opened SeqDifference

  /**
   The stored record of a webinar's panelists: the map from panelist id to its
   record, and the ids in the order the stored object lists its keys.
   */
  datatype Snapshot = Snapshot(keys: seq<string>, records: map<string, Panelist>)

  /** The key order lists every key of the map once. */
  ghost predicate Valid(s: Snapshot)
  {
    && Distinct(s.keys)
    && forall k :: k in s.records <==> k in s.keys
  }

  const Empty := Snapshot([], map[])

  /** A missing snapshot counts as an empty one. */
  function OrEmpty(stored: Option<Snapshot>): Snapshot
  {
    match stored
    case Some(s) => s
    case None => Empty
  }

  /**
   Assigning `p` under its id: an existing key keeps its place in the key order
   and gets the new record; a new key goes last.
   */
  function Insert(s: Snapshot, p: Panelist): Snapshot
  {
    Snapshot(if p.id in s.records then s.keys else s.keys + [p.id], s.records[p.id := p])
  }

  /** The snapshot built from a panelist list, filled in list order. */
  function BuildSnapshot(ps: seq<Panelist>): (r: Snapshot)
    ensures Valid(r)
    decreases |ps|
  {
    if ps == [] then Empty else Insert(BuildSnapshot(ps[..|ps| - 1]), ps[|ps| - 1])
  }

  /**
   The keys of the snapshot built from a list are exactly the ids in the list,
   each mapped to a record of the list that has that id.
   */
  lemma {:induction false} BuildSnapshotDomain(ps: seq<Panelist>)
    ensures forall p :: p in ps ==> p.id in BuildSnapshot(ps).records
    ensures forall k :: k in BuildSnapshot(ps).records ==>
      BuildSnapshot(ps).records[k].id == k && BuildSnapshot(ps).records[k] in ps
  {
    if ps != [] {
      var init := ps[..|ps| - 1];
      assert ps == init + [ps[|ps| - 1]];
      BuildSnapshotDomain(init);
    }
  }

  /** Every id in the list is a key of the snapshot built from it. */
  lemma IdIsKey(ps: seq<Panelist>, i: nat)
    requires i < |ps|
    ensures ps[i].id in BuildSnapshot(ps).records
  {
    BuildSnapshotDomain(ps);
  }

  /** Every key of the snapshot built from a list is the id of a panelist of the list. */
  lemma KeyOccurs(ps: seq<Panelist>, k: string) returns (i: nat)
    requires k in BuildSnapshot(ps).records
    ensures i < |ps| && ps[i].id == k && BuildSnapshot(ps).records[k] == ps[i]
  {
    BuildSnapshotDomain(ps);
    i :| 0 <= i < |ps| && ps[i] == BuildSnapshot(ps).records[k];
  }

  /**
   The payload of an emitted event: its type, the panelist record and the
   webinar. The metadata emitted with it is a function of the payload.
   */
  datatype Event = Event(eventType: EventType, panelist: Panelist, webinarId: string)

  /** The metadata (dedupe id and summary) emitted alongside the payload. */
  function EventMetaOf(e: Event): Meta
  {
    GenerateMeta(e.eventType, e.panelist)
  }

  /** The ids of the stored snapshot that the current list no longer has. */
  function DeletedIds(prev: Snapshot, ps: seq<Panelist>): seq<string>
  {
    Difference(prev.keys, Ids(ps))
  }

  /** One deleted event per id, each carrying the stored record. */
  function DeletedEvents(w: string, prev: Snapshot, ids: seq<string>): seq<Event>
    requires forall k :: k in ids ==> k in prev.records
  {
    seq(|ids|, i requires 0 <= i < |ids| => Event(Deleted, prev.records[ids[i]], w))
  }

  /**
   The events for one current panelist: added when its id is not stored,
   changed when it is stored with a different fingerprint, none otherwise.
   */
  function PanelistEvents(w: string, prev: Snapshot, p: Panelist): seq<Event>
  {
    if p.id !in prev.records then [Event(Added, p, w)]
    else if !SameFingerprint(p, prev.records[p.id]) then [Event(Changed, p, w)]
    else []
  }

  /** The events for the current list, panelist by panelist in list order. */
  function CurrentEvents(w: string, prev: Snapshot, ps: seq<Panelist>): seq<Event>
    decreases |ps|
  {
    if ps == [] then []
    else CurrentEvents(w, prev, ps[..|ps| - 1]) + PanelistEvents(w, prev, ps[|ps| - 1])
  }

  /** Everything one diff emits: the deleted events first, then those of the current list. */
  function DiffEvents(w: string, prev: Snapshot, ps: seq<Panelist>): seq<Event>
    requires Valid(prev)
  {
    DeletedEvents(w, prev, DeletedIds(prev, ps)) + CurrentEvents(w, prev, ps)
  }

  lemma BuildSnapshotStep(ps: seq<Panelist>, i: nat)
    requires i < |ps|
    ensures BuildSnapshot(ps[..i + 1]) == Insert(BuildSnapshot(ps[..i]), ps[i])
  {
    assert ps[..i + 1][..i] == ps[..i];
  }

  lemma CurrentEventsStep(w: string, prev: Snapshot, ps: seq<Panelist>, i: nat)
    requires i < |ps|
    ensures CurrentEvents(w, prev, ps[..i + 1]) == CurrentEvents(w, prev, ps[..i]) + PanelistEvents(w, prev, ps[i])
  {
    assert ps[..i + 1][..i] == ps[..i];
  }

  /** The same events, written as the two independent checks the change detector makes. */
  lemma PanelistEventsAsTwoChecks(w: string, prev: Snapshot, p: Panelist, added: bool)
    requires added <==> p.id !in prev.records
    ensures PanelistEvents(w, prev, p)
      == (if added then [Event(Added, p, w)] else [])
       + (if p.id in prev.records && !SameFingerprint(p, prev.records[p.id]) then [Event(Changed, p, w)] else [])
  {
  }

  lemma ConcatAssoc(a: seq<Event>, b: seq<Event>, c: seq<Event>)
    ensures (a + b) + c == a + (b + c)
  {
  }

  lemma DeletedEventsSnoc(w: string, prev: Snapshot, ids: seq<string>, k: string)
    requires forall x :: x in ids + [k] ==> x in prev.records
    ensures DeletedEvents(w, prev, ids + [k]) == DeletedEvents(w, prev, ids) + [Event(Deleted, prev.records[k], w)]
  {
  }

  /** The deleted events for the given stored ids, emitted one by one in their order. */
  method EmitDeleted(w: string, prev: Snapshot, deletedIds: seq<string>) returns (events: seq<Event>)
    requires forall k :: k in deletedIds ==> k in prev.records
    ensures events == DeletedEvents(w, prev, deletedIds)
  {
    events := [];
    for i := 0 to |deletedIds|
      invariant events == DeletedEvents(w, prev, deletedIds[..i])
    {
      var panelist := prev.records[deletedIds[i]];
      assert deletedIds[..i + 1] == deletedIds[..i] + [deletedIds[i]];
      DeletedEventsSnoc(w, prev, deletedIds[..i], deletedIds[i]);
      events := events + [Event(Deleted, panelist, w)];
    }
    assert deletedIds[..|deletedIds|] == deletedIds;
  }

  /**
   The diff for webinar `w` against the stored snapshot (`None` when nothing is
   stored), as the change detector runs it: deleted events, then added and
   changed events while the new snapshot is filled in, one panelist at a time.
   */
  method DiffWebinar(w: string, stored: Option<Snapshot>, panelists: seq<Panelist>)
    returns (events: seq<Event>, snapshot: Snapshot)
    requires stored.Some? ==> Valid(stored.value)
    ensures events == DiffEvents(w, OrEmpty(stored), panelists)
    ensures snapshot == BuildSnapshot(panelists)
  {
    var oldPanelists := if stored.Some? then stored.value else Empty;
    var oldIds := oldPanelists.keys;
    var newIds := Ids(panelists);

    var deletedIds := Difference(oldIds, newIds);
    events := EmitDeleted(w, oldPanelists, deletedIds);
    ghost var deleted := events;

    var addedIds := Difference(newIds, oldIds);
    var newPanelists := Empty;
    ghost var current: seq<Event> := [];
    for i := 0 to |panelists|
      invariant newPanelists == BuildSnapshot(panelists[..i])
      invariant current == CurrentEvents(w, oldPanelists, panelists[..i])
      invariant events == deleted + current
    {
      var panelist := panelists[i];
      BuildSnapshotStep(panelists, i);
      CurrentEventsStep(w, oldPanelists, panelists, i);
      newPanelists := Insert(newPanelists, panelist);

      assert panelist.id == newIds[i];
      PanelistEventsAsTwoChecks(w, oldPanelists, panelist, panelist.id in addedIds);
      if panelist.id in addedIds {
        ConcatAssoc(deleted, current, [Event(Added, panelist, w)]);
        events, current := events + [Event(Added, panelist, w)], current + [Event(Added, panelist, w)];
      }
      if panelist.id in oldPanelists.records && !SameFingerprint(panelist, oldPanelists.records[panelist.id]) {
        ConcatAssoc(deleted, current, [Event(Changed, panelist, w)]);
        events, current := events + [Event(Changed, panelist, w)], current + [Event(Changed, panelist, w)];
      }
    }
    assert panelists[..|panelists|] == panelists;
    snapshot := newPanelists;
  }
}
