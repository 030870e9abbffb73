/** Event kinds and the metadata pair (dedupe id, summary) attached to every emitted event. */
module EventMeta {
  import opened Wrappers
  import opened Panelists

  datatype EventType = Added | Deleted | Changed

  function TypeName(t: EventType): string
  {
    match t
    case Added => "panelist.added"
    case Deleted => "panelist.deleted"
    case Changed => "panelist.changed"
  }

  datatype Meta = Meta(id: string, summary: string)

  /** The name counts in the summary only when it is present and non-empty (a truthy string). */
  predicate HasName(p: Panelist)
  {
    p.name.Some? && p.name.value != ""
  }

  /**
   The metadata of an event about panelist `p`: the dedupe id and a one-line
   summary naming the event type, the name when it is non-empty, and the email.
   */
  function GenerateMeta(t: EventType, p: Panelist): Meta
  {
    var summary :=
      if HasName(p) then TypeName(t) + " - " + p.name.value + " - " + p.email
      else TypeName(t) + " - " + p.email;
    Meta(MetaId(t, p), summary)
  }

  lemma SummaryHead(t: EventType, p: Panelist)
    ensures var s := GenerateMeta(t, p).summary; var head := TypeName(t) + " - ";
      |head| <= |s| && s[..|head|] == head
  {
    var head := TypeName(t) + " - ";
    if HasName(p) {
      assert GenerateMeta(t, p).summary == head + (p.name.value + " - " + p.email);
    } else {
      assert GenerateMeta(t, p).summary == head + p.email;
    }
  }

  /** The summary tells the event type: two events with the same summary are of the same type. */
  lemma SummaryNamesType(t1: EventType, p1: Panelist, t2: EventType, p2: Panelist)
    ensures GenerateMeta(t1, p1).summary == GenerateMeta(t2, p2).summary ==> t1 == t2
  {
    SummaryHead(t1, p1);
    SummaryHead(t2, p2);
    var s1 := GenerateMeta(t1, p1).summary;
    var s2 := GenerateMeta(t2, p2).summary;
    assert s1[9] == (TypeName(t1) + " - ")[9] == TypeName(t1)[9];
    assert s2[9] == (TypeName(t2) + " - ")[9] == TypeName(t2)[9];
  }

  /** Without a name, the summary of an event of a given type tells the email. */
  lemma NamelessSummaryNamesEmail(t: EventType, p1: Panelist, p2: Panelist)
    requires !HasName(p1) && !HasName(p2)
    ensures GenerateMeta(t, p1).summary == GenerateMeta(t, p2).summary <==> p1.email == p2.email
  {
    var head := TypeName(t) + " - ";
    var s1 := GenerateMeta(t, p1).summary;
    var s2 := GenerateMeta(t, p2).summary;
    assert s1 == head + p1.email && s1[|head|..] == p1.email;
    assert s2 == head + p2.email && s2[|head|..] == p2.email;
  }

  /**
   A missing name and an empty name give the same metadata, yet they are
   different records to the fingerprint: a name that goes from missing to
   empty is reported as a change whose summary looks like the old one.
   */
  lemma MissingAndEmptyNameLookAlike(t: EventType, p: Panelist)
    ensures GenerateMeta(t, p.(name := None)) == GenerateMeta(t, p.(name := Some("")))
    ensures !SameFingerprint(p.(name := None), p.(name := Some("")))
  {
    SameFingerprintIff(p.(name := None), p.(name := Some("")));
  }

  /** The dedupe id: the panelist id, a dash, and the event type. */
  function MetaId(t: EventType, p: Panelist): string
  {
    p.id + Suffix(t)
  }

  function Suffix(t: EventType): string
  {
    "-" + TypeName(t)
  }

  /** `s` without the trailing `suffix`, when `s` ends with it. */
  function StripSuffix(s: string, suffix: string): (r: Option<string>)
    ensures r.Some? ==> r.value + suffix == s
  {
    if |suffix| <= |s| && s[|s| - |suffix|..] == suffix then Some(s[..|s| - |suffix|]) else None
  }

  /** Splits a dedupe id back into the panelist id and the event type. */
  function ParseMetaId(id: string): Option<(string, EventType)>
  {
    match StripSuffix(id, Suffix(Added))
    case Some(pid) => Some((pid, Added))
    case None =>
      match StripSuffix(id, Suffix(Deleted))
      case Some(pid) => Some((pid, Deleted))
      case None =>
        match StripSuffix(id, Suffix(Changed))
        case Some(pid) => Some((pid, Changed))
        case None => None
  }

  lemma StripOwnSuffix(x: string, s: string)
    ensures StripSuffix(x + s, s) == Some(x)
  {
    assert (x + s)[|x|..] == s;
    assert (x + s)[..|x|] == x;
  }

  /** A string ending in `s` does not end in `s2` when they differ at position `k` of `s2`. */
  lemma StripOtherSuffix(x: string, s: string, s2: string, k: nat)
    requires |s2| <= |s| && k < |s2| && s2[k] != s[|s| - |s2| + k]
    ensures StripSuffix(x + s, s2) == None
  {
    var xs := x + s;
    assert xs[|xs| - |s2|..][k] == s[|s| - |s2| + k];
  }

  lemma SuffixesDiffer()
    ensures |Suffix(Added)| == 15 && |Suffix(Deleted)| == 17 && |Suffix(Changed)| == 17
    ensures Suffix(Added)[0] != Suffix(Deleted)[2] && Suffix(Added)[0] != Suffix(Changed)[2]
    ensures Suffix(Deleted)[10] != Suffix(Changed)[10]
  {
  }

  /** The dedupe id encodes exactly the panelist id and the event type. */
  lemma ParseGeneratedMetaId(t: EventType, p: Panelist)
    ensures ParseMetaId(GenerateMeta(t, p).id) == Some((p.id, t))
  {
    StripOwnSuffix(p.id, Suffix(t));
    SuffixesDiffer();
    match t
    case Added =>
    case Deleted =>
      StripOtherSuffix(p.id, Suffix(t), Suffix(Added), 0);
    case Changed =>
      StripOtherSuffix(p.id, Suffix(t), Suffix(Added), 0);
      StripOtherSuffix(p.id, Suffix(t), Suffix(Deleted), 10);
  }

  /**
   Two events share a dedupe id exactly when they are of the same kind and about
   panelists with the same id: the id is keyed on panelist and kind, not content.
   */
  lemma MetaIdIdentifiesPanelistAndKind(t1: EventType, p1: Panelist, t2: EventType, p2: Panelist)
    ensures GenerateMeta(t1, p1).id == GenerateMeta(t2, p2).id <==> t1 == t2 && p1.id == p2.id
  {
    ParseGeneratedMetaId(t1, p1);
    ParseGeneratedMetaId(t2, p2);
  }
}
