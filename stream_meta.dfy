/** The "now playing" record: its fields, the case-insensitive update from
    one Vorbis comment, the completeness test, and the canonical display
    string used to recognise a record already published. */
module StreamMeta {
  import opened Ascii

  /** "Unknown", the title of a record no comment has named yet. */
  const UNKNOWN: seq<byte> := [0x55, 0x6E, 0x6B, 0x6E, 0x6F, 0x77, 0x6E]

  /** The four comment names with a field of their own, in lower case. */
  const ARTIST: seq<byte> := [0x61, 0x72, 0x74, 0x69, 0x73, 0x74]
  const TITLE: seq<byte> := [0x74, 0x69, 0x74, 0x6C, 0x65]
  const ALBUM: seq<byte> := [0x61, 0x6C, 0x62, 0x75, 0x6D]
  const GENRE: seq<byte> := [0x67, 0x65, 0x6E, 0x72, 0x65]

  /** Labels of the display string: "Artist: ", "Title: ", "Album: ",
      "Genre: ", the ": " between another key and its value, and the " | "
      between parts. */
  const ARTIST_LABEL: seq<byte> := [0x41, 0x72, 0x74, 0x69, 0x73, 0x74, 0x3A, 0x20]
  const TITLE_LABEL: seq<byte> := [0x54, 0x69, 0x74, 0x6C, 0x65, 0x3A, 0x20]
  const ALBUM_LABEL: seq<byte> := [0x41, 0x6C, 0x62, 0x75, 0x6D, 0x3A, 0x20]
  const GENRE_LABEL: seq<byte> := [0x47, 0x65, 0x6E, 0x72, 0x65, 0x3A, 0x20]
  const COLON: seq<byte> := [0x3A, 0x20]
  const SEPARATOR: seq<byte> := [0x20, 0x7C, 0x20]

  /** The value of a record: what a clone of it carries when it is stored or
      broadcast. `lastUpdate` is in milliseconds since the epoch. */
  datatype Metadata = Metadata(
    title: seq<byte>,
    artist: Option<seq<byte>>,
    album: Option<seq<byte>>,
    genre: Option<seq<byte>>,
    other: map<seq<byte>, seq<byte>>,
    lastUpdate: nat)

  /** The record `StreamMetadata::new` builds at time `now`: the title is
      "Unknown", every other field is empty, and it is not complete. */
  function Default(now: nat): (r: Metadata)
    ensures Get(r, Title) == Some(UNKNOWN)
    ensures forall f :: f != Title ==> Get(r, f).None?
    ensures r.lastUpdate == now
    ensures !IsComplete(r)
  {
    Metadata(UNKNOWN, None, None, None, map[], now)
  }

  /** Which field a comment addresses. */
  datatype Field = Artist | Title | Album | Genre | Other(key: seq<byte>)

  predicate IsKnownName(lower: seq<byte>) {
    lower == ARTIST || lower == TITLE || lower == ALBUM || lower == GENRE
  }

  /** The field a comment key addresses: the four known names compared after
      ASCII lower-casing; any other key addresses `other`, verbatim. */
  function FieldFor(key: seq<byte>): (f: Field)
    ensures f == Artist <==> ToLower(key) == ARTIST
    ensures f == Title <==> ToLower(key) == TITLE
    ensures f == Album <==> ToLower(key) == ALBUM
    ensures f == Genre <==> ToLower(key) == GENRE
    ensures f.Other? <==> !IsKnownName(ToLower(key))
    ensures f.Other? ==> f.key == key
  {
    var lower := ToLower(key);
    if lower == ARTIST then Artist
    else if lower == TITLE then Title
    else if lower == ALBUM then Album
    else if lower == GENRE then Genre
    else Other(key)
  }

  /** The known names address their own fields. */
  lemma KnownNamesAddressTheirFields()
    ensures FieldFor(ARTIST) == Artist && FieldFor(TITLE) == Title
    ensures FieldFor(ALBUM) == Album && FieldFor(GENRE) == Genre
  {
    assert ToLower(ARTIST) == ARTIST;
    assert ToLower(TITLE) == TITLE;
    assert ToLower(ALBUM) == ALBUM;
    assert ToLower(GENRE) == GENRE;
  }

  /** The current content of a field; the title is always present. */
  function Get(m: Metadata, f: Field): Option<seq<byte>> {
    match f
    case Artist => m.artist
    case Title => Some(m.title)
    case Album => m.album
    case Genre => m.genre
    case Other(k) => if k in m.other then Some(m.other[k]) else None
  }

  /** `m` with field `f` set to `v`. */
  function Put(m: Metadata, f: Field, v: seq<byte>): (r: Metadata)
    ensures Get(r, f) == Some(v)
    ensures r.lastUpdate == m.lastUpdate
  {
    match f
    case Artist => m.(artist := Some(v))
    case Title => m.(title := v)
    case Album => m.(album := Some(v))
    case Genre => m.(genre := Some(v))
    case Other(k) => m.(other := m.other[k := v])
  }

  /** `update_from_comment` on values: the new record and whether it changed.
      The addressed field afterwards holds `value`; the result is true exactly
      when it held something else before; no other field moves; and the
      update time moves to `now` only when the result is true. */
  function Apply(m: Metadata, key: seq<byte>, value: seq<byte>, now: nat): (r: (Metadata, bool))
    ensures Get(r.0, FieldFor(key)) == Some(value)
    ensures r.1 <==> Get(m, FieldFor(key)) != Some(value)
    ensures r.0.lastUpdate == if r.1 then now else m.lastUpdate
    ensures !r.1 ==> r.0 == m
  {
    var f := FieldFor(key);
    if Get(m, f) != Some(value) then (Put(m, f, value).(lastUpdate := now), true)
    else
      PutUnchanged(m, f, value);
      (m, false)
  }

  /** Storing into one field leaves every other field as it was. */
  lemma PutLeavesOtherFields(m: Metadata, f: Field, v: seq<byte>, g: Field)
    requires g != f
    ensures Get(Put(m, f, v), g) == Get(m, g)
  {
  }

  /** `update_from_comment` leaves every field but the addressed one as it was. */
  lemma ApplyLeavesOtherFields(m: Metadata, key: seq<byte>, value: seq<byte>, now: nat, g: Field)
    requires g != FieldFor(key)
    ensures Get(Apply(m, key, value, now).0, g) == Get(m, g)
  {
    PutLeavesOtherFields(m, FieldFor(key), value, g);
  }

  /** Storing the value a field already holds changes nothing. */
  lemma PutUnchanged(m: Metadata, f: Field, v: seq<byte>)
    requires Get(m, f) == Some(v)
    ensures Put(m, f, v) == m
  {
    if f.Other? {
      assert m.other == m.other[f.key := v];
    }
  }

  /** Applying the same comment twice: the second application reports no
      change and leaves the record, including its update time, as it was. */
  lemma ApplyIdempotent(m: Metadata, key: seq<byte>, value: seq<byte>, now: nat, later: nat)
    ensures Apply(Apply(m, key, value, now).0, key, value, later) == (Apply(m, key, value, now).0, false)
  {
  }

  /** `is_complete`: the record names a title other than "Unknown", or an artist. */
  predicate IsComplete(m: Metadata) {
    m.title != UNKNOWN || m.artist.Some?
  }

  /** A record is complete exactly when its title or its artist differs from
      the default record's; in particular a fresh record is not complete. */
  lemma CompleteIffMovedFromDefault(m: Metadata, t: nat)
    ensures IsComplete(m) <==>
              Get(m, Title) != Get(Default(t), Title) || Get(m, Artist) != Get(Default(t), Artist)
    ensures !IsComplete(Default(t))
  {
  }

  /** An artist comment always makes a record complete; a title comment does
      unless its value is "Unknown" and no artist is known. */
  lemma ApplyCompletes(m: Metadata, key: seq<byte>, value: seq<byte>, now: nat)
    ensures FieldFor(key) == Artist ==> IsComplete(Apply(m, key, value, now).0)
    ensures FieldFor(key) == Title ==>
              (IsComplete(Apply(m, key, value, now).0) <==> value != UNKNOWN || m.artist.Some?)
  {
    var r := Apply(m, key, value, now).0;
    if FieldFor(key) == Artist {
      assert Get(r, Artist) == Some(value);
    } else if FieldFor(key) == Title {
      assert Get(r, Title) == Some(value);
      ApplyLeavesOtherFields(m, key, value, now, Artist);
    }
  }

  /** `parts.join(sep)`. */
  function Join(parts: seq<seq<byte>>, sep: seq<byte>): seq<byte> {
    if parts == [] then []
    else if |parts| == 1 then parts[0]
    else parts[0] + sep + Join(parts[1..], sep)
  }

  /** The parts for the four known fields: an optional artist, the title,
      an optional album, an optional genre, each with its label and trimmed. */
  function KnownParts(m: Metadata): seq<seq<byte>> {
    (if m.artist.Some? then [ARTIST_LABEL + Trim(m.artist.value)] else [])
    + [TITLE_LABEL + Trim(m.title)]
    + (if m.album.Some? then [ALBUM_LABEL + Trim(m.album.value)] else [])
    + (if m.genre.Some? then [GENRE_LABEL + Trim(m.genre.value)] else [])
  }

  /** The parts for the entries of `other`, visited in the order `order`
      (the map's iteration order, which the model leaves open); a key whose
      lower-case form is a known name is skipped. */
  function OtherParts(other: map<seq<byte>, seq<byte>>, order: seq<seq<byte>>): seq<seq<byte>> {
    if order == [] then []
    else
      var k := order[0];
      (if k in other && !IsKnownName(ToLower(k)) then [Trim(k) + COLON + Trim(other[k])] else [])
      + OtherParts(other, order[1..])
  }

  /** `display`: all parts joined by " | ". */
  function Display(m: Metadata, order: seq<seq<byte>>): seq<byte> {
    Join(KnownParts(m) + OtherParts(m.other, order), SEPARATOR)
  }

  /** Each part occurs in the joined text, and the first one starts it. */
  lemma {:induction false} JoinContainsParts(parts: seq<seq<byte>>, sep: seq<byte>, i: nat)
    requires i < |parts|
    ensures IsInfix(parts[i], Join(parts, sep))
    ensures Join(parts, sep)[..|parts[0]|] == parts[0]
  {
    var j := Join(parts, sep);
    if |parts| == 1 {
      assert InfixAt(parts[0], j, 0);
    } else {
      var rest := Join(parts[1..], sep);
      assert j == parts[0] + (sep + rest);
      if i == 0 {
        assert InfixAt(parts[0], j, 0);
      } else {
        JoinContainsParts(parts[1..], sep, i - 1);
        var k: nat :| InfixAt(parts[i], rest, k);
        var off := |parts[0]| + |sep| + k;
        assert j[off..off + |parts[i]|] == rest[k..k + |parts[i]|];
        assert InfixAt(parts[i], j, off);
      }
    }
  }

  /** The display string always contains "Title: " and the trimmed title,
      and it begins with the artist part when there is an artist and with
      the title part otherwise. */
  lemma DisplayShowsTitle(m: Metadata, order: seq<seq<byte>>)
    ensures IsInfix(TITLE_LABEL + Trim(m.title), Display(m, order))
    ensures var first := if m.artist.Some? then ARTIST_LABEL + Trim(m.artist.value)
                         else TITLE_LABEL + Trim(m.title);
            |first| <= |Display(m, order)| && Display(m, order)[..|first|] == first
  {
    var parts := KnownParts(m) + OtherParts(m.other, order);
    var t := if m.artist.Some? then 1 else 0;
    assert parts[t] == TITLE_LABEL + Trim(m.title);
    JoinContainsParts(parts, SEPARATOR, t);
  }

  /** Joining two non-empty runs of parts is joining each and putting one
      separator between them. */
  lemma {:induction false} JoinAppend(a: seq<seq<byte>>, b: seq<seq<byte>>, sep: seq<byte>)
    requires a != []
    ensures Join(a + b, sep) == if b == [] then Join(a, sep) else Join(a, sep) + sep + Join(b, sep)
    decreases |a|
  {
    if b == [] {
      assert a + b == a;
    } else if |a| == 1 {
      assert (a + b)[1..] == b;
    } else {
      assert (a + b)[1..] == a[1..] + b;
      JoinAppend(a[1..], b, sep);
      assert Join(a + b, sep) == a[0] + sep + (Join(a[1..], sep) + sep + Join(b, sep));
    }
  }

  /** The display string is the known parts joined, in the order artist,
      title, album, genre, followed by the parts of `other` when there are
      any; only those trailing parts depend on the iteration order. */
  lemma DisplayStartsWithKnownParts(m: Metadata, order: seq<seq<byte>>)
    ensures Display(m, order) ==
              if OtherParts(m.other, order) == [] then Join(KnownParts(m), SEPARATOR)
              else Join(KnownParts(m), SEPARATOR) + SEPARATOR + Join(OtherParts(m.other, order), SEPARATOR)
  {
    assert |KnownParts(m)| >= 1;
    JoinAppend(KnownParts(m), OtherParts(m.other, order), SEPARATOR);
  }

  /** Entries of `other` under a key whose lower-case form is a known name
      never reach the display string. */
  lemma {:induction false} OtherPartsSkipKnown(other: map<seq<byte>, seq<byte>>, order: seq<seq<byte>>,
                                               k: seq<byte>, v: seq<byte>)
    requires IsKnownName(ToLower(k))
    ensures OtherParts(other[k := v], order) == OtherParts(other, order)
  {
    if order != [] {
      OtherPartsSkipKnown(other, order[1..], k, v);
    }
  }

  lemma DisplayIgnoresKnownOtherKeys(m: Metadata, order: seq<seq<byte>>, k: seq<byte>, v: seq<byte>)
    requires IsKnownName(ToLower(k))
    ensures Display(m.(other := m.other[k := v]), order) == Display(m, order)
  {
    OtherPartsSkipKnown(m.other, order, k, v);
  }

  /** The mutable record of the extractor: `StreamMetadata`, whose fields
      `update_from_comment` changes in place. */
  class StreamMetadata {
    var title: seq<byte>
    var artist: Option<seq<byte>>
    var album: Option<seq<byte>>
    var genre: Option<seq<byte>>
    var other: map<seq<byte>, seq<byte>>
    var lastUpdate: nat

    /** The value a clone of this record carries. */
    function Value(): Metadata
      reads this
    {
      Metadata(title, artist, album, genre, other, lastUpdate)
    }

    /** `StreamMetadata::new`, with the clock reading `now` passed in. */
    constructor (now: nat)
      ensures Value() == Default(now)
    {
      title := UNKNOWN;
      artist := None;
      album := None;
      genre := None;
      other := map[];
      lastUpdate := now;
    }

    /** `update_from_comment`, with the clock reading `now` passed in. */
    method UpdateFromComment(key: seq<byte>, value: seq<byte>, now: nat) returns (updated: bool)
      modifies this
      ensures (Value(), updated) == Apply(old(Value()), key, value, now)
    {
      updated := false;
      var lower := ToLower(key);
      if lower == ARTIST {
        if artist != Some(value) {
          artist := Some(value);
          updated := true;
        }
      } else if lower == TITLE {
        if title != value {
          title := value;
          updated := true;
        }
      } else if lower == ALBUM {
        if album != Some(value) {
          album := Some(value);
          updated := true;
        }
      } else if lower == GENRE {
        if genre != Some(value) {
          genre := Some(value);
          updated := true;
        }
      } else {
        if key !in other || other[key] != value {
          other := other[key := value];
          updated := true;
        }
      }
      if updated {
        lastUpdate := now;
      }
    }
  }
}
