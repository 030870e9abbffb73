/** The diff of one webinar on small concrete inputs. */
module Scenarios {
  import opened Wrappers
  import opened Panelists
  import opened EventMeta
  import opened SeqDifference
  import opened SnapshotDiff

  const Ann := Panelist("1", "a@x.com", None, [])
  const Al := Panelist("1", "a@x.com", Some("Al"), [])
  const AnnMoved := Panelist("1", "b@x.com", None, [])

  lemma SingletonSnapshot(p: Panelist)
    ensures BuildSnapshot([p]) == Snapshot([p.id], map[p.id := p])
  {
    assert [p][..0] == [];
    assert BuildSnapshot([p]) == Insert(Empty, p);
  }

  /** First poll of a webinar with one panelist who has no name: one added event, and the snapshot holds that panelist. */
  lemma FirstPollReportsAdded(w: string)
    ensures DiffEvents(w, OrEmpty(None), [Ann]) == [Event(Added, Ann, w)]
    ensures BuildSnapshot([Ann]) == Snapshot(["1"], map["1" := Ann])
  {
    SingletonSnapshot(Ann);
    assert DeletedIds(Empty, [Ann]) == [];
    assert [Ann][..0] == [];
    assert CurrentEvents(w, Empty, [Ann]) == CurrentEvents(w, Empty, []) + PanelistEvents(w, Empty, Ann);
  }

  lemma FirstPollMeta(w: string)
    ensures EventMetaOf(Event(Added, Ann, w)) == Meta("1-panelist.added", "panelist.added - a@x.com")
  {
  }

  /** The only panelist is gone: the stored record is reported deleted and the new snapshot is empty. */
  lemma RemovedPanelistReportsDeleted(w: string)
    ensures DiffEvents(w, BuildSnapshot([Al]), []) == [Event(Deleted, Al, w)]
    ensures BuildSnapshot([]) == Empty
  {
    SingletonSnapshot(Al);
    var prev := BuildSnapshot([Al]);
    assert Ids([]) == [];
    assert Difference(["1"], []) == ["1"];
    assert DeletedEvents(w, prev, ["1"]) == [Event(Deleted, Al, w)];
  }

  lemma RemovedPanelistMeta(w: string)
    ensures EventMetaOf(Event(Deleted, Al, w)) == Meta("1-panelist.deleted", "panelist.deleted - Al - a@x.com")
  {
  }

  /** The email of the only panelist changed: one changed event carrying the current record. */
  lemma ChangedEmailReportsChanged(w: string)
    ensures DiffEvents(w, BuildSnapshot([Ann]), [AnnMoved]) == [Event(Changed, AnnMoved, w)]
  {
    SingletonSnapshot(Ann);
    var prev := BuildSnapshot([Ann]);
    assert Ids([AnnMoved]) == ["1"];
    assert Difference(["1"], ["1"]) == [];
    SameFingerprintIff(AnnMoved, Ann);
    assert PanelistEvents(w, prev, AnnMoved) == [Event(Changed, AnnMoved, w)];
    assert [AnnMoved][..0] == [];
    assert CurrentEvents(w, prev, [AnnMoved]) == CurrentEvents(w, prev, []) + PanelistEvents(w, prev, AnnMoved);
  }
}
