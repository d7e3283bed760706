/** The header scanner: locating Vorbis headers in the raw bytes of an Ogg
    stream. A Vorbis header starts with a packet-type byte followed by the
    six ASCII bytes "vorbis" (section 4.2.1 of the Vorbis I specification);
    the scanner looks for packet type 1 and packet type 3, one after the
    other, and reports the offset of the "vorbis" signature of each hit. */
module VorbisScan {
  import opened Ascii

  /** The ASCII bytes of "vorbis". */
  const SIGNATURE: seq<byte> := [0x76, 0x6F, 0x72, 0x62, 0x69, 0x73]

  /** The packet types searched for, in search order. */
  const PACKET_TYPES: seq<byte> := [0x01, 0x03]

  /** The seven bytes searched for: packet type, then the signature. */
  function Pattern(t: byte): seq<byte> {
    [t] + SIGNATURE
  }

  /** The pattern for packet type `t` starts at offset `i` of `buf`. */
  predicate MatchAt(buf: seq<byte>, t: byte, i: nat) {
    i + 7 <= |buf| && buf[i..i + 7] == Pattern(t)
  }

  /** `p` is the offset of a "vorbis" signature preceded by packet-type byte `t`. */
  predicate IsHit(buf: seq<byte>, t: byte, p: int) {
    1 <= p && p + 6 <= |buf| && buf[p - 1] == t && buf[p..p + 6] == SIGNATURE
  }

  /** Reference definition: the signature offsets of every occurrence of
      `Pattern(t)` that starts at or after `from`, in ascending order. */
  function HitsFrom(buf: seq<byte>, t: byte, from: nat): seq<nat>
    decreases |buf| - from
  {
    if from + 7 > |buf| then []
    else if MatchAt(buf, t, from) then [from + 1] + HitsFrom(buf, t, from + 1)
    else HitsFrom(buf, t, from + 1)
  }

  /** The hits of every packet type in `ts`, type by type. */
  function HitsOfTypes(buf: seq<byte>, ts: seq<byte>): seq<nat> {
    if ts == [] then []
    else HitsOfTypes(buf, ts[..|ts| - 1]) + HitsFrom(buf, ts[|ts| - 1], 0)
  }

  /** What the scanner reports: all type-1 hits, then all type-3 hits. */
  function CommentStarts(buf: seq<byte>): (r: seq<nat>)
    ensures r == HitsFrom(buf, 0x01, 0) + HitsFrom(buf, 0x03, 0)
    ensures forall i :: 0 <= i < |r| ==>
              (IsHit(buf, 0x01, r[i]) || IsHit(buf, 0x03, r[i]))
    ensures forall i :: 0 <= i < |r| ==> r[i] <= |buf|
  {
    HitsFromSound(buf, 0x01, 0);
    HitsFromSound(buf, 0x03, 0);
    assert PACKET_TYPES[..1] == [0x01] && [0x01][..0] == [];
    assert HitsOfTypes(buf, [0x01]) == HitsFrom(buf, 0x01, 0);
    HitsOfTypes(buf, PACKET_TYPES)
  }

  /** Searches `buf` from `start` for the first occurrence of `Pattern(t)`
      (the `windows(..).position(..)` search over `buffer[start..]`). */
  method FindFrom(buf: seq<byte>, t: byte, start: nat) returns (found: Option<nat>)
    requires start <= |buf|
    ensures found.None? ==> HitsFrom(buf, t, start) == []
    ensures found.Some? ==>
              start <= found.value && MatchAt(buf, t, found.value) &&
              HitsFrom(buf, t, start) == [found.value + 1] + HitsFrom(buf, t, found.value + 1)
  {
    var i := start;
    while i + 7 <= |buf|
      invariant start <= i
      invariant HitsFrom(buf, t, start) == HitsFrom(buf, t, i)
    {
      if buf[i..i + 7] == Pattern(t) {
        return Some(i);
      }
      i := i + 1;
    }
    return None;
  }

  /** The inner loop of `find_vorbis_comment_start` for one packet type:
      repeatedly find the next occurrence of its pattern, push the offset just
      past the packet-type byte, and resume the search at that offset. */
  method PushHits(buf: seq<byte>, t: byte, init: seq<nat>) returns (positions: seq<nat>)
    ensures positions == init + HitsFrom(buf, t, 0)
  {
    positions := init;
    var start := 0;
    while true
      invariant start <= |buf|
      invariant positions + HitsFrom(buf, t, start) == init + HitsFrom(buf, t, 0)
      decreases |buf| - start
    {
      var found := FindFrom(buf, t, start);
      if found.None? {
        return;
      }
      var absolute := found.value + 1;
      assert (positions + [absolute]) + HitsFrom(buf, t, absolute) == positions + HitsFrom(buf, t, start);
      positions := positions + [absolute];
      start := absolute;
    }
  }

  /** `find_vorbis_comment_start`: the hits of packet type 1, then those of
      packet type 3, collected into one list. */
  method FindVorbisCommentStart(buf: seq<byte>) returns (positions: seq<nat>)
    ensures positions == CommentStarts(buf)
  {
    positions := [];
    for k := 0 to |PACKET_TYPES|
      invariant positions == HitsOfTypes(buf, PACKET_TYPES[..k])
    {
      positions := PushHits(buf, PACKET_TYPES[k], positions);
      assert PACKET_TYPES[..k + 1][..k] == PACKET_TYPES[..k];
    }
    assert PACKET_TYPES[..|PACKET_TYPES|] == PACKET_TYPES;
  }

  /** Every offset in `HitsFrom` lies past `from` and is a real hit. */
  lemma {:induction false} HitsFromSound(buf: seq<byte>, t: byte, from: nat)
    ensures forall i :: 0 <= i < |HitsFrom(buf, t, from)| ==>
              from < HitsFrom(buf, t, from)[i] && IsHit(buf, t, HitsFrom(buf, t, from)[i])
    decreases |buf| - from
  {
    if from + 7 <= |buf| {
      HitsFromSound(buf, t, from + 1);
      if MatchAt(buf, t, from) {
        assert buf[from + 1..from + 7] == buf[from..from + 7][1..];
      }
    }
  }

  /** Every offset in `HitsFrom` is larger than the one before it. */
  lemma {:induction false} HitsFromAscending(buf: seq<byte>, t: byte, from: nat)
    ensures forall i, j :: 0 <= i < j < |HitsFrom(buf, t, from)| ==>
              HitsFrom(buf, t, from)[i] < HitsFrom(buf, t, from)[j]
    decreases |buf| - from
  {
    if from + 7 <= |buf| {
      HitsFromAscending(buf, t, from + 1);
      HitsFromSound(buf, t, from + 1);
    }
  }

  /** No occurrence is missed: every occurrence at or after `from` is reported. */
  lemma {:induction false} HitsFromComplete(buf: seq<byte>, t: byte, from: nat, i: nat)
    requires from <= i && MatchAt(buf, t, i)
    ensures i + 1 in HitsFrom(buf, t, from)
    decreases i - from
  {
    if from < i {
      HitsFromComplete(buf, t, from + 1, i);
    }
  }

  /** The scanner's result, position by position: exactly the type-1 hits in
      ascending order followed by exactly the type-3 hits in ascending order. */
  lemma CommentStartsExact(buf: seq<byte>, p: int)
    ensures p in HitsFrom(buf, 0x01, 0) <==> IsHit(buf, 0x01, p)
    ensures p in HitsFrom(buf, 0x03, 0) <==> IsHit(buf, 0x03, p)
    ensures p in CommentStarts(buf) <==> IsHit(buf, 0x01, p) || IsHit(buf, 0x03, p)
    ensures forall i, j :: 0 <= i < j < |HitsFrom(buf, 0x01, 0)| ==>
              HitsFrom(buf, 0x01, 0)[i] < HitsFrom(buf, 0x01, 0)[j]
    ensures forall i, j :: 0 <= i < j < |HitsFrom(buf, 0x03, 0)| ==>
              HitsFrom(buf, 0x03, 0)[i] < HitsFrom(buf, 0x03, 0)[j]
  {
    HitsFromSound(buf, 0x01, 0);
    HitsFromSound(buf, 0x03, 0);
    HitsFromAscending(buf, 0x01, 0);
    HitsFromAscending(buf, 0x03, 0);
    if IsHit(buf, 0x01, p) {
      assert buf[p - 1..p + 6] == [buf[p - 1]] + buf[p..p + 6];
      HitsFromComplete(buf, 0x01, 0, p - 1);
    }
    if IsHit(buf, 0x03, p) {
      assert buf[p - 1..p + 6] == [buf[p - 1]] + buf[p..p + 6];
      HitsFromComplete(buf, 0x03, 0, p - 1);
    }
  }
}
