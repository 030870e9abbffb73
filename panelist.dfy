/**
 The panelist record returned by the webinar API, and the serialised form whose
 hash the change detector compares to decide whether a record changed.
 */
module Panelists {
  import opened Wrappers

  /** An additional field of a panelist record: its key and its value in serialised form. */
  datatype Field = Field(key: string, value: string)

  /**
   A panelist of one webinar. `name` is `None` when the record has no name
   field, which is not the same record as one with an empty name. The fields
   beyond id, email and name are kept in the order the API returns them, since
   the serialisation depends on that order.
   */
  datatype Panelist = Panelist(id: string, email: string, name: Option<string>, extra: seq<Field>)

  /** The ids of a panelist list, in list order. */
  function Ids(ps: seq<Panelist>): seq<string>
  {
    seq(|ps|, i requires 0 <= i < |ps| => ps[i].id)
  }

  function FieldTokens(fs: seq<Field>): (r: seq<string>)
    ensures |r| == 2 * |fs|
  {
    if fs == [] then [] else [fs[0].key, fs[0].value] + FieldTokens(fs[1..])
  }

  /** A missing name field writes nothing but a marker; a present one writes its value. */
  function NameTokens(name: Option<string>): seq<string>
  {
    match name
    case None => ["absent"]
    case Some(n) => ["present", n]
  }

  /**
   The serialised form of a record (its JSON text, abstracted to a sequence of
   tokens). Like the JSON text it follows the order of the additional fields.
   */
  function Serialize(p: Panelist): seq<string>
  {
    [p.id, p.email] + NameTokens(p.name) + FieldTokens(p.extra)
  }

  /**
   The comparison of the hashes of two serialised records, with the hash taken
   to be free of collisions.
   */
  predicate SameFingerprint(a: Panelist, b: Panelist)
  {
    Serialize(a) == Serialize(b)
  }

  lemma {:induction false} FieldTokensInjective(fs: seq<Field>, gs: seq<Field>)
    requires FieldTokens(fs) == FieldTokens(gs)
    ensures fs == gs
  {
    if fs != [] {
      var t := FieldTokens(fs);
      assert |gs| == |fs|;
      assert t == [fs[0].key, fs[0].value] + FieldTokens(fs[1..]);
      assert t == [gs[0].key, gs[0].value] + FieldTokens(gs[1..]);
      assert t[2..] == FieldTokens(fs[1..]);
      assert t[2..] == FieldTokens(gs[1..]);
      FieldTokensInjective(fs[1..], gs[1..]);
      assert fs[0] == Field(t[0], t[1]) == gs[0];
      assert fs == [fs[0]] + fs[1..];
      assert gs == [gs[0]] + gs[1..];
    }
  }

  /**
   With a collision-free hash, two records get the same fingerprint exactly when
   they are the same record: equal records never look changed, and a record that
   differs in any field always does.
   */
  lemma SameFingerprintIff(a: Panelist, b: Panelist)
    ensures SameFingerprint(a, b) <==> a == b
  {
    if Serialize(a) == Serialize(b) {
      var s := Serialize(a);
      assert s[0] == a.id && s[0] == b.id;
      assert s[1] == a.email && s[1] == b.email;
      assert s[2] == NameTokens(a.name)[0] && s[2] == NameTokens(b.name)[0];
      assert a.name.Some? <==> b.name.Some?;
      if a.name.Some? {
        assert s[3] == a.name.value && s[3] == b.name.value;
      }
      var n := |NameTokens(a.name)|;
      assert s[2 + n..] == FieldTokens(a.extra);
      assert s[2 + n..] == FieldTokens(b.extra);
      FieldTokensInjective(a.extra, b.extra);
    }
  }

  /**
   The fingerprint is sensitive to field order: the same two additional fields
   returned in the other order make a different fingerprint.
   */
  lemma ReorderedFieldsChangeFingerprint(p: Panelist, f: Field, g: Field)
    requires f != g
    ensures !SameFingerprint(p.(extra := [f, g]), p.(extra := [g, f]))
  {
    SameFingerprintIff(p.(extra := [f, g]), p.(extra := [g, f]));
  }
}
