/** Bytes, the optional-value wrapper, and the ASCII text operations the
    metadata extractor applies to tag keys and values (trimming, lower-casing,
    searching for a byte). Keys and values are kept as raw byte strings. */
module Ascii {

  /** One octet of the Ogg stream. */
  type byte = b: int | 0 <= b < 256

  datatype Option<T> = None | Some(value: T)

  /** The ASCII members of Unicode's White_Space property: tab, line feed,
      vertical tab, form feed, carriage return and space. */
  predicate IsSpace(b: byte) {
    b == 0x20 || 0x09 <= b <= 0x0D
  }

  predicate AllSpace(s: seq<byte>) {
    forall i :: 0 <= i < |s| ==> IsSpace(s[i])
  }

  /** Neither the first nor the last byte is white space. */
  predicate NoSpaceAtEnds(s: seq<byte>) {
    s == [] || (!IsSpace(s[0]) && !IsSpace(s[|s| - 1]))
  }

  /** Number of white-space bytes at the front of `s`. */
  function LeadingSpaces(s: seq<byte>): (n: nat)
    ensures n <= |s| && AllSpace(s[..n])
    ensures n < |s| ==> !IsSpace(s[n])
  {
    if s == [] || !IsSpace(s[0]) then 0
    else
      var n := 1 + LeadingSpaces(s[1..]);
      assert s[..n] == [s[0]] + s[1..][..n - 1];
      n
  }

  /** Number of white-space bytes at the back of `s`. */
  function TrailingSpaces(s: seq<byte>): (n: nat)
    ensures n <= |s| && AllSpace(s[|s| - n..])
    ensures n < |s| ==> !IsSpace(s[|s| - 1 - n])
  {
    if s == [] || !IsSpace(s[|s| - 1]) then 0
    else
      var init := s[..|s| - 1];
      var n := 1 + TrailingSpaces(init);
      assert s[|s| - n..] == init[|init| - (n - 1)..] + [s[|s| - 1]];
      n
  }

  /** `str::trim` on ASCII text: `s` without its leading and trailing white space. */
  function Trim(s: seq<byte>): (r: seq<byte>)
    ensures NoSpaceAtEnds(r)
    ensures LeadingSpaces(s) + |r| <= |s|
    ensures r == s[LeadingSpaces(s)..LeadingSpaces(s) + |r|]
    ensures AllSpace(s[LeadingSpaces(s) + |r|..])
  {
    var lead := LeadingSpaces(s);
    var rest := s[lead..];
    var trail := TrailingSpaces(rest);
    TrimSlices(s, lead, |rest| - trail);
    rest[..|rest| - trail]
  }

  /** The slicing facts behind `Trim`: cutting `s` at `lead` and then at
      `len` is one slice of `s`, and its tail is a tail of `s`. */
  lemma TrimSlices(s: seq<byte>, lead: nat, len: nat)
    requires lead + len <= |s|
    ensures s[lead..][..len] == s[lead..lead + len]
    ensures s[lead..][len..] == s[lead + len..]
  {
  }

  /** Trimming text that has no white space at either end changes nothing,
      so trimming twice is the same as trimming once. */
  lemma {:induction false} TrimIdempotent(s: seq<byte>)
    ensures NoSpaceAtEnds(s) ==> Trim(s) == s
    ensures Trim(Trim(s)) == Trim(s)
  {
    forall t: seq<byte> | NoSpaceAtEnds(t) ensures Trim(t) == t {
      assert LeadingSpaces(t) == 0;
      if t != [] {
        assert TrailingSpaces(t[0..]) == 0;
      }
    }
  }

  /** A byte that does not occur in `s` does not occur in `Trim(s)`. */
  lemma TrimKeepsAbsent(s: seq<byte>, b: byte)
    requires b !in s
    ensures b !in Trim(s)
  {
  }

  /** ASCII lower-casing of one byte ('A'..'Z' to 'a'..'z'). */
  function LowerByte(b: byte): byte {
    if 0x41 <= b <= 0x5A then b + 0x20 else b
  }

  function ToLower(s: seq<byte>): (r: seq<byte>)
    ensures |r| == |s|
    ensures forall i :: 0 <= i < |s| ==> r[i] == LowerByte(s[i])
  {
    seq(|s|, i requires 0 <= i < |s| => LowerByte(s[i]))
  }

  /** Index of the first occurrence of `b` in `s`, or `|s|` when there is none. */
  function IndexOf(s: seq<byte>, b: byte): (i: nat)
    ensures i <= |s|
    ensures b !in s[..i]
    ensures i < |s| <==> b in s
    ensures i < |s| ==> s[i] == b
  {
    if s == [] then 0
    else if s[0] == b then 0
    else
      var i := 1 + IndexOf(s[1..], b);
      assert s[..i] == [s[0]] + s[1..][..i - 1];
      i
  }

  /** `a` occurs in `b` starting at offset `k`. */
  predicate InfixAt(a: seq<byte>, b: seq<byte>, k: nat) {
    k + |a| <= |b| && b[k..k + |a|] == a
  }

  /** `a` occurs as a contiguous part of `b`. */
  ghost predicate IsInfix(a: seq<byte>, b: seq<byte>) {
    exists k: nat :: InfixAt(a, b, k)
  }
}
