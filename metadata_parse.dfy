/** `parse_vorbis_metadata`: reading a comment header that starts at a
    "vorbis" signature into a fresh record. The signature, the vendor string
    and the comment count must all be present; then at most `count` comments
    are applied, stopping at the first that does not parse; and a record is
    returned only when some comment changed it. */
module MetadataParse {
  import opened Ascii
  import opened VorbisScan
  import opened VorbisComment
  import opened StreamMeta

  /** The part of the header before the comments: the signature, the vendor
      string and the comment count. Returns the count and the bytes after it. */
  function ParseHeader(input: seq<byte>): (r: Option<(nat, seq<byte>)>)
    ensures r.Some? ==>
              |input| >= 6 && input[..6] == SIGNATURE &&
              ParseLengthString(input[6..]).Some? &&
              ParseU32(ParseLengthString(input[6..]).value.1) == Some(r.value)
  {
    if |input| < 6 || input[..6] != SIGNATURE then None
    else
      match ParseLengthString(input[6..])
      case None => None
      case Some((_, afterVendor)) => ParseU32(afterVendor)
  }

  /** Comment `c` would change record `m`: the field it addresses holds
      something other than its value. */
  predicate Changes(m: Metadata, c: Comment) {
    Get(m, FieldFor(c.key)) != Some(c.value)
  }

  /** One comment applied to the state of the loop: the record so far and
      whether any comment has changed it yet. The flag becomes true exactly
      when the comment changes the record; a comment that does not change
      it leaves it as it was; either way the field it addresses ends up
      holding its value. */
  function Step(s: (Metadata, bool), c: Comment, now: nat): (r: (Metadata, bool))
    ensures r.1 <==> s.1 || Changes(s.0, c)
    ensures !Changes(s.0, c) ==> r.0 == s.0
    ensures Get(r.0, FieldFor(c.key)) == Some(c.value)
  {
    var (next, updated) := Apply(s.0, c.key, c.value, now);
    (next, s.1 || updated)
  }

  /** The comments `cs` applied in order to the state `s`: once a change is
      reported it stays reported, the record moves only when a change is
      reported, and a record that moved carries the update time `now`. */
  function ApplyAll(s: (Metadata, bool), cs: seq<Comment>, now: nat): (r: (Metadata, bool))
    ensures s.1 ==> r.1
    ensures !r.1 ==> r.0 == s.0
    ensures r.0 == s.0 || r.0.lastUpdate == now
    decreases |cs|
  {
    if cs == [] then s else ApplyAll(Step(s, cs[0], now), cs[1..], now)
  }

  /** The loop reports a change exactly when one was already reported or
      some comment would change the record it started from: comments that
      change nothing leave the record as it was, so the first one that does
      change it is measured against the starting record. */
  lemma {:induction false} ApplyAllReportsChange(s: (Metadata, bool), cs: seq<Comment>, now: nat)
    ensures ApplyAll(s, cs, now).1 <==> s.1 || exists c :: c in cs && Changes(s.0, c)
    decreases |cs|
  {
    if cs != [] {
      var s1 := Step(s, cs[0], now);
      ApplyAllReportsChange(s1, cs[1..], now);
      assert cs == [cs[0]] + cs[1..];
      if Changes(s.0, cs[0]) {
        assert cs[0] in cs;
      } else {
        assert s1 == s;
        assert (exists c :: c in cs && Changes(s.0, c)) <==> (exists c :: c in cs[1..] && Changes(s.0, c));
      }
    }
  }

  /** Applying a comment and then the rest is applying them all. */
  lemma ApplyAllCons(s: (Metadata, bool), c: Comment, cs: seq<Comment>, now: nat)
    ensures ApplyAll(s, [c] + cs, now) == ApplyAll(Step(s, c, now), cs, now)
  {
    assert ([c] + cs)[1..] == cs;
  }

  /** Reference definition of `parse_vorbis_metadata` with the clock reading
      `now`: None when the header is missing or truncated, or when no comment
      changed the fresh record; otherwise the fresh record with the comments
      the loop reads applied in order, stamped with the parse time. */
  function ParsedMetadata(input: seq<byte>, now: nat): (r: Option<Metadata>)
    ensures r.Some? ==> ParseHeader(input).Some? && r.value.lastUpdate == now
  {
    match ParseHeader(input)
    case None => None
    case Some((count, body)) =>
      var (m, updated) := ApplyAll((Default(now), false), ParseComments(body, count).0, now);
      if updated then Some(m) else None
  }

  /** `parse_vorbis_metadata` returns nothing when the header does not parse,
      and otherwise returns nothing exactly when every comment it reads
      leaves the fresh record as it was. */
  lemma ParsedMetadataNoneIff(input: seq<byte>, now: nat)
    ensures ParseHeader(input).None? ==> ParsedMetadata(input, now).None?
    ensures ParseHeader(input).Some? ==>
              (ParsedMetadata(input, now).None? <==>
               forall c :: c in ParseComments(ParseHeader(input).value.1, ParseHeader(input).value.0).0 ==>
                 !Changes(Default(now), c))
  {
    if ParseHeader(input).Some? {
      var (count, body) := ParseHeader(input).value;
      ApplyAllReportsChange((Default(now), false), ParseComments(body, count).0, now);
    }
  }

  /** `parse_vorbis_metadata`: builds a fresh record and updates it in place
      from each comment, with the clock reading `now` passed in. */
  method ParseVorbisMetadata(input: seq<byte>, now: nat) returns (r: Option<StreamMetadata>)
    ensures r.None? <==> ParsedMetadata(input, now).None?
    ensures r.Some? ==> r.value.Value() == ParsedMetadata(input, now).value
  {
    var metadata := new StreamMetadata(now);
    if |input| < 6 || input[..6] != SIGNATURE {
      return None;
    }
    var vendor := ParseLengthString(input[6..]);
    if vendor.None? {
      return None;
    }
    var counted := ParseU32(vendor.value.1);
    if counted.None? {
      return None;
    }
    var updated := ApplyCommentsInPlace(metadata, ParseComment, counted.value.1, counted.value.0, now);
    if updated {
      r := Some(metadata);
    } else {
      r := None;
    }
  }

  /** The comment loop of `parse_vorbis_metadata`: reads at most `count`
      comments from `body` with `parse`, stops at the first one that does
      not parse, and applies each to `metadata` in place; the result says
      whether any of them changed it. The program's parser is
      `ParseComment`; the loop is proved for any parser, so its proof does
      not depend on how one comment is decoded. */
  method ApplyCommentsInPlace(metadata: StreamMetadata, parse: Parser<Comment>, body: seq<byte>, count: nat, now: nat)
    returns (updated: bool)
    modifies metadata
    ensures (metadata.Value(), updated) == ApplyAll((old(metadata.Value()), false), ParseMany(parse, body, count).0, now)
  {
    var current := body;
    ghost var left: nat := count;
    updated := false;
    var i := 0;
    while i < count
      invariant i <= count && left == count - i
      invariant ApplyAll((metadata.Value(), updated), ParseMany(parse, current, left).0, now) ==
                ApplyAll((old(metadata.Value()), false), ParseMany(parse, body, count).0, now)
    {
      var parsed := parse(current);
      if parsed.None? {
        break;
      }
      var (c, rest) := parsed.value;
      ghost var before := (metadata.Value(), updated);
      ParseManyStep(parse, current, left, c, rest);
      ApplyAllCons(before, c, ParseMany(parse, rest, left - 1).0, now);
      var u := metadata.UpdateFromComment(c.key, c.value, now);
      updated := updated || u;
      current := rest;
      left := left - 1;
      i := i + 1;
      assert (metadata.Value(), updated) == Step(before, c, now);
    }
  }

  /** Input that does not start with the signature yields nothing. */
  lemma NoneWithoutSignature(input: seq<byte>, now: nat)
    requires |input| < 6 || input[..6] != SIGNATURE
    ensures ParsedMetadata(input, now) == None
  {
  }

  /** A truncated vendor string, or a missing comment count, yields nothing. */
  lemma NoneWhenHeaderTruncated(input: seq<byte>, now: nat)
    requires |input| >= 6 && input[..6] == SIGNATURE
    requires ParseLengthString(input[6..]).None? ||
             |ParseLengthString(input[6..]).value.1| < 4
    ensures ParsedMetadata(input, now) == None
  {
  }

  /** The comment header with vendor string `vendor` and comments `cs`,
      starting at its signature. */
  function EncodeHeader(vendor: seq<byte>, cs: seq<Comment>): seq<byte>
    requires |vendor| < U32_LIMIT && |cs| < U32_LIMIT
    requires forall i :: 0 <= i < |cs| ==> WellFormed(cs[i])
  {
    SIGNATURE + EncodeLengthString(vendor) + EncodeU32(|cs|) + EncodeComments(cs)
  }

  /** Parsing an encoded header applies exactly its comments, in order, to a
      fresh record, whatever bytes follow the header. */
  lemma ParsedEncodedHeader(vendor: seq<byte>, cs: seq<Comment>, rest: seq<byte>, now: nat)
    requires |vendor| < U32_LIMIT && |cs| < U32_LIMIT
    requires forall i :: 0 <= i < |cs| ==> WellFormed(cs[i])
    ensures ParsedMetadata(EncodeHeader(vendor, cs) + rest, now) ==
              var (m, updated) := ApplyAll((Default(now), false), cs, now);
              if updated then Some(m) else None
  {
    var tail := EncodeComments(cs) + rest;
    assert EncodeHeader(vendor, cs) + rest == SIGNATURE + EncodeLengthString(vendor) + EncodeU32(|cs|) + tail;
    HeaderRoundTrip(vendor, |cs|, tail);
    CommentsRoundTrip(cs, rest);
  }

  /** An encoded header yields nothing exactly when none of its comments
      would change a fresh record. */
  lemma ParsedEncodedHeaderNoneIff(vendor: seq<byte>, cs: seq<Comment>, rest: seq<byte>, now: nat)
    requires |vendor| < U32_LIMIT && |cs| < U32_LIMIT
    requires forall i :: 0 <= i < |cs| ==> WellFormed(cs[i])
    ensures ParsedMetadata(EncodeHeader(vendor, cs) + rest, now).None? <==>
              forall c :: c in cs ==> !Changes(Default(now), c)
  {
    ParsedEncodedHeader(vendor, cs, rest, now);
    ApplyAllReportsChange((Default(now), false), cs, now);
  }

  /** The part before the comments parses back to the comment count and
      exactly the bytes after it. */
  lemma HeaderRoundTrip(vendor: seq<byte>, count: nat, tail: seq<byte>)
    requires |vendor| < U32_LIMIT && count < U32_LIMIT
    ensures ParseHeader(SIGNATURE + EncodeLengthString(vendor) + EncodeU32(count) + tail) == Some((count, tail))
  {
    var input := SIGNATURE + EncodeLengthString(vendor) + EncodeU32(count) + tail;
    var afterVendor := EncodeU32(count) + tail;
    assert input[..6] == SIGNATURE;
    assert input[6..] == EncodeLengthString(vendor) + afterVendor;
    LengthStringRoundTrip(vendor, afterVendor);
    assert afterVendor[..4] == EncodeU32(count) && afterVendor[4..] == tail;
    DecodeEncodeU32(EncodeU32(count));
  }

  /** A header whose only comment is `title=Unknown` leaves the fresh record
      as it was, so nothing is returned. */
  lemma UnknownTitleAloneYieldsNone(vendor: seq<byte>, rest: seq<byte>, now: nat)
    requires |vendor| < U32_LIMIT
    ensures ParsedMetadata(EncodeHeader(vendor, [Comment(TITLE, UNKNOWN)]) + rest, now) == None
  {
    var c := Comment(TITLE, UNKNOWN);
    assert WellFormed(c);
    ParsedEncodedHeader(vendor, [c], rest, now);
    KnownNamesAddressTheirFields();
    assert [c][1..] == [];
  }

  /** A header that names an artist always yields a complete record. */
  lemma ArtistYieldsCompleteRecord(vendor: seq<byte>, artist: seq<byte>, rest: seq<byte>, now: nat)
    requires |vendor| < U32_LIMIT
    requires WellFormed(Comment(ARTIST, artist))
    ensures ParsedMetadata(EncodeHeader(vendor, [Comment(ARTIST, artist)]) + rest, now).Some?
    ensures IsComplete(ParsedMetadata(EncodeHeader(vendor, [Comment(ARTIST, artist)]) + rest, now).value)
  {
    var c := Comment(ARTIST, artist);
    ParsedEncodedHeader(vendor, [c], rest, now);
    KnownNamesAddressTheirFields();
    assert [c][1..] == [];
  }
}
