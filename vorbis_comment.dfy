/** The length-prefixed parsers for the Vorbis comment header (section 5.2.1
    of the Vorbis I specification): a little-endian 32-bit length followed by
    that many bytes, used for the vendor string and for every `KEY=value`
    comment. Each parser is given its inverse, an encoder, and the round trip
    between the two is proved. */
module VorbisComment {
  import opened Ascii

  const U32_LIMIT: nat := 0x1_0000_0000

  /** The ASCII byte '='. */
  const EQUALS: byte := 0x3D

  /** One user comment, split into its key and its value. */
  datatype Comment = Comment(key: seq<byte>, value: seq<byte>)

  /** Little-endian value of four bytes. */
  function DecodeU32(b: seq<byte>): nat
    requires |b| == 4
  {
    b[0] as nat + 0x100 * (b[1] as nat + 0x100 * (b[2] as nat + 0x100 * b[3] as nat))
  }

  /** Euclidean division by 256 recovers the low byte and the rest. */
  lemma DivMod256(q: nat, r: nat)
    requires r < 0x100
    ensures (r + 0x100 * q) / 0x100 == q && (r + 0x100 * q) % 0x100 == r
  {
  }

  /** The four little-endian bytes of `n`; `DecodeU32` undoes it. */
  function EncodeU32(n: nat): (b: seq<byte>)
    requires n < U32_LIMIT
    ensures |b| == 4 && DecodeU32(b) == n
  {
    var n1 := n / 0x100;
    var n2 := n1 / 0x100;
    var n3 := n2 / 0x100;
    assert n3 < 0x100;
    [n % 0x100, n1 % 0x100, n2 % 0x100, n3]
  }

  /** Every four-byte sequence is the encoding of its decoded value: the two
      are inverse bijections between 4-byte strings and [0, 2^32). */
  lemma DecodeEncodeU32(b: seq<byte>)
    requires |b| == 4
    ensures DecodeU32(b) < U32_LIMIT && EncodeU32(DecodeU32(b)) == b
  {
    var m2 := b[2] as nat + 0x100 * b[3] as nat;
    var m1 := b[1] as nat + 0x100 * m2;
    var n := b[0] as nat + 0x100 * m1;
    assert n == DecodeU32(b);
    DivMod256(m1, b[0]);
    DivMod256(m2, b[1]);
    DivMod256(b[3], b[2]);
  }

  /** `le_u32`: the first four bytes as a little-endian number, and the rest;
      fails when fewer than four bytes are available. */
  function ParseU32(input: seq<byte>): (r: Option<(nat, seq<byte>)>)
    ensures r.None? <==> |input| < 4
    ensures r.Some? ==> r.value.0 < U32_LIMIT && input == EncodeU32(r.value.0) + r.value.1
  {
    if |input| < 4 then None
    else
      DecodeEncodeU32(input[..4]);
      Some((DecodeU32(input[..4]), input[4..]))
  }

  /** `parse_length_string`: a u32 length `L`, then exactly `L` bytes. The
      remainder is `input[4 + L..]`; it fails when fewer than four bytes, or
      fewer than `L` further bytes, are available. */
  function ParseLengthString(input: seq<byte>): (r: Option<(seq<byte>, seq<byte>)>)
    ensures r.Some? <==> |input| >= 4 && DecodeU32(input[..4]) <= |input| - 4
    ensures r.Some? ==>
              var len := DecodeU32(input[..4]);
              r.value.0 == input[4..4 + len] && r.value.1 == input[4 + len..]
  {
    match ParseU32(input)
    case None => None
    case Some((len, rest)) =>
      assert rest == input[4..];
      if len <= |rest| then Some((rest[..len], rest[len..])) else None
  }

  /** The length-prefixed form of `s`. */
  function EncodeLengthString(s: seq<byte>): seq<byte>
    requires |s| < U32_LIMIT
  {
    EncodeU32(|s|) + s
  }

  /** Parsing an encoded string gives back the string and exactly the bytes
      that followed it. */
  lemma LengthStringRoundTrip(s: seq<byte>, rest: seq<byte>)
    requires |s| < U32_LIMIT
    ensures ParseLengthString(EncodeLengthString(s) + rest) == Some((s, rest))
  {
    var input := EncodeLengthString(s) + rest;
    assert input[..4] == EncodeU32(|s|);
    assert input[4..4 + |s|] == s;
    assert input[4 + |s|..] == rest;
  }

  /** `split_once('=')` followed by `trim` on both halves; without '=' the
      whole trimmed text is the key and the value is empty. */
  function SplitComment(text: seq<byte>): Comment {
    var i := IndexOf(text, EQUALS);
    if i < |text| then Comment(Trim(text[..i]), Trim(text[i + 1..]))
    else Comment(Trim(text), [])
  }

  /** The key of a split comment never contains '=', neither half has white
      space at its ends, and text without '=' has an empty value. */
  lemma SplitCommentShape(text: seq<byte>)
    ensures EQUALS !in SplitComment(text).key
    ensures NoSpaceAtEnds(SplitComment(text).key) && NoSpaceAtEnds(SplitComment(text).value)
    ensures EQUALS !in text ==> SplitComment(text).value == []
  {
    var i := IndexOf(text, EQUALS);
    if i < |text| {
      TrimKeepsAbsent(text[..i], EQUALS);
    } else {
      TrimKeepsAbsent(text, EQUALS);
    }
  }

  /** `parse_comment`: a length-prefixed string split into key and value. */
  function ParseComment(input: seq<byte>): Option<(Comment, seq<byte>)> {
    match ParseLengthString(input)
    case None => None
    case Some((text, rest)) => Some((SplitComment(text), rest))
  }

  /** `parse_comment` consumes exactly the four length bytes and the `L`
      bytes they announce, and fails exactly when fewer are available; the
      key it returns never contains '='. */
  lemma ParseCommentConsumes(input: seq<byte>)
    ensures ParseComment(input).Some? <==> |input| >= 4 && DecodeU32(input[..4]) <= |input| - 4
    ensures ParseComment(input).Some? ==>
              var len := DecodeU32(input[..4]);
              ParseComment(input).value.1 == input[4 + len..] &&
              ParseComment(input).value.0 == SplitComment(input[4..4 + len]) &&
              EQUALS !in ParseComment(input).value.0.key
  {
    if ParseComment(input).Some? {
      SplitCommentShape(input[4..4 + DecodeU32(input[..4])]);
    }
  }

  /** `a` is what is left of `b` after some of its front has been consumed. */
  predicate IsSuffix(a: seq<byte>, b: seq<byte>) {
    |a| <= |b| && a == b[|b| - |a|..]
  }

  lemma SuffixTransitive(a: seq<byte>, b: seq<byte>, c: seq<byte>)
    requires IsSuffix(a, b) && IsSuffix(b, c)
    ensures IsSuffix(a, c)
  {
    assert c[|c| - |a|..] == c[|c| - |b|..][|b| - |a|..];
  }

  /** A comment that survives a round trip: its key has no '=', neither half
      has white space at its ends, and the `key=value` text fits a u32 length. */
  predicate WellFormed(c: Comment) {
    EQUALS !in c.key && NoSpaceAtEnds(c.key) && NoSpaceAtEnds(c.value) &&
    |c.key| + 1 + |c.value| < U32_LIMIT
  }

  /** The `key=value` text of a comment. */
  function CommentText(c: Comment): seq<byte> {
    c.key + [EQUALS] + c.value
  }

  /** Splitting the text of a well-formed comment gives the comment back. */
  lemma SplitCommentRoundTrip(c: Comment)
    requires WellFormed(c)
    ensures SplitComment(CommentText(c)) == c
  {
    var text := CommentText(c);
    assert text[|c.key|] == EQUALS;
    assert IndexOf(text, EQUALS) == |c.key| by {
      assert text[..|c.key|] == c.key;
    }
    assert text[..|c.key|] == c.key;
    assert text[|c.key| + 1..] == c.value;
    TrimIdempotent(c.key);
    TrimIdempotent(c.value);
  }

  /** The length-prefixed encoding of one comment. */
  function EncodeComment(c: Comment): seq<byte>
    requires WellFormed(c)
  {
    EncodeLengthString(CommentText(c))
  }

  lemma CommentRoundTrip(c: Comment, rest: seq<byte>)
    requires WellFormed(c)
    ensures ParseComment(EncodeComment(c) + rest) == Some((c, rest))
  {
    LengthStringRoundTrip(CommentText(c), rest);
    SplitCommentRoundTrip(c);
  }

  /** A parser of one item: the item and the bytes after it, or None. */
  type Parser<T> = seq<byte> -> Option<(T, seq<byte>)>

  /** Reads at most `count` items one after another with `parse`, stopping
      at the first that does not parse; also returns the bytes not consumed. */
  function ParseMany<T>(parse: Parser<T>, input: seq<byte>, count: nat): (seq<T>, seq<byte>)
    decreases count
  {
    if count == 0 then ([], input)
    else
      match parse(input)
      case None => ([], input)
      case Some((item, rest)) =>
        var (items, remaining) := ParseMany(parse, rest, count - 1);
        ([item] + items, remaining)
  }

  /** `parse` never goes back in its input. */
  ghost predicate Consuming<T>(parse: Parser<T>) {
    forall s :: parse(s).Some? ==> IsSuffix(parse(s).value.1, s)
  }

  /** Repetition reads at most `count` items, never goes back in the input
      when `parse` does not, and when it reads fewer than `count` it is
      because the next item does not parse. */
  lemma {:induction false} ParseManyBounds<T>(parse: Parser<T>, input: seq<byte>, count: nat)
    requires Consuming(parse)
    ensures |ParseMany(parse, input, count).0| <= count
    ensures IsSuffix(ParseMany(parse, input, count).1, input)
    ensures |ParseMany(parse, input, count).0| < count ==> parse(ParseMany(parse, input, count).1).None?
    decreases count
  {
    if count > 0 && parse(input).Some? {
      var (item, rest) := parse(input).value;
      ParseManyBounds(parse, rest, count - 1);
      SuffixTransitive(ParseMany(parse, rest, count - 1).1, rest, input);
    }
  }

  /** One step of repetition when the next item parses. */
  lemma ParseManyStep<T>(parse: Parser<T>, input: seq<byte>, count: nat, item: T, rest: seq<byte>)
    requires count > 0 && parse(input) == Some((item, rest))
    ensures ParseMany(parse, input, count) ==
              ([item] + ParseMany(parse, rest, count - 1).0, ParseMany(parse, rest, count - 1).1)
  {
  }

  /** The `for _ in 0..comment_count` loop of `parse_vorbis_metadata`, as a
      reference: parse at most `count` comments, stopping at the first one
      that does not parse; also returns the bytes not consumed. */
  function ParseComments(input: seq<byte>, count: nat): (seq<Comment>, seq<byte>) {
    ParseMany(ParseComment, input, count)
  }

  /** `parse_comment` never goes back in its input. */
  lemma ParseCommentConsuming()
    ensures Consuming(ParseComment)
  {
    forall s | ParseComment(s).Some? ensures IsSuffix(ParseComment(s).value.1, s) {
      ParseCommentConsumes(s);
    }
  }

  /** The comment loop reads at most `count` comments, never goes back in
      the input, and when it reads fewer than `count` it is because the next
      comment does not parse. */
  lemma ParseCommentsBounds(input: seq<byte>, count: nat)
    ensures |ParseComments(input, count).0| <= count
    ensures IsSuffix(ParseComments(input, count).1, input)
    ensures |ParseComments(input, count).0| < count ==> ParseComment(ParseComments(input, count).1).None?
  {
    ParseCommentConsuming();
    ParseManyBounds(ParseComment, input, count);
  }

  /** Several byte strings, one after the other. */
  function Concat(parts: seq<seq<byte>>): seq<byte> {
    if parts == [] then [] else parts[0] + Concat(parts[1..])
  }

  /** When every part parses back to its item whatever follows it,
      repetition over the parts laid end to end gives back all the items and
      exactly the bytes that followed them. */
  lemma {:induction false} ParseManyConcat<T>(parse: Parser<T>, parts: seq<seq<byte>>, items: seq<T>, rest: seq<byte>)
    requires |parts| == |items|
    requires forall i, tail :: 0 <= i < |parts| ==> parse(parts[i] + tail) == Some((items[i], tail))
    ensures ParseMany(parse, Concat(parts) + rest, |items|) == (items, rest)
  {
    if parts != [] {
      var tail := Concat(parts[1..]) + rest;
      assert Concat(parts) + rest == parts[0] + tail;
      assert parse(parts[0] + tail) == Some((items[0], tail));
      forall i, tail' | 0 <= i < |parts[1..]|
        ensures parse(parts[1..][i] + tail') == Some((items[1..][i], tail'))
      {
        assert parse(parts[i + 1] + tail') == Some((items[i + 1], tail'));
      }
      ParseManyConcat(parse, parts[1..], items[1..], rest);
      assert ParseMany(parse, tail, |items| - 1) == (items[1..], rest);
      ParseManyStep(parse, parts[0] + tail, |items|, items[0], tail);
      assert [items[0]] + items[1..] == items;
    } else {
      assert Concat(parts) + rest == rest;
    }
  }

  /** The encodings of several comments, one after the other. */
  function EncodeComments(cs: seq<Comment>): seq<byte>
    requires forall i :: 0 <= i < |cs| ==> WellFormed(cs[i])
  {
    Concat(seq(|cs|, i requires 0 <= i < |cs| && WellFormed(cs[i]) => EncodeComment(cs[i])))
  }

  /** Parsing as many comments as were encoded gives them all back, and
      exactly the bytes that followed them. */
  lemma CommentsRoundTrip(cs: seq<Comment>, rest: seq<byte>)
    requires forall i :: 0 <= i < |cs| ==> WellFormed(cs[i])
    ensures ParseComments(EncodeComments(cs) + rest, |cs|) == (cs, rest)
  {
    var parts := seq(|cs|, i requires 0 <= i < |cs| && WellFormed(cs[i]) => EncodeComment(cs[i]));
    forall i, tail | 0 <= i < |parts|
      ensures ParseComment(parts[i] + tail) == Some((cs[i], tail))
    {
      CommentRoundTrip(cs[i], tail);
    }
    ParseManyConcat(ParseComment, parts, cs, rest);
  }
}
