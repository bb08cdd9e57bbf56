/** Octet strings and the ASCII octets the parsers and printers name. */
module Bytes {
  import opened Wrappers

  type byte = b: int | 0 <= b < 256
  type bytes = seq<byte>

  const TAB: byte := 9
  const LF: byte := 10
  const FF: byte := 12
  const CR: byte := 13
  const SPACE: byte := 32
  const DQUOTE: byte := 34
  const AMP: byte := 38
  const PLUS: byte := 43
  const SLASH: byte := 47
  const DIGIT_0: byte := 48
  const DIGIT_9: byte := 57
  const COLON: byte := 58
  const SEMI: byte := 59
  const LT: byte := 60
  const EQUALS: byte := 61
  const GT: byte := 62
  const LBRACKET: byte := 91
  const RBRACKET: byte := 93

  /** The octets of an ASCII text. */
  function Ascii(s: string): bytes {
    seq(|s|, i requires 0 <= i < |s| => s[i] as int % 256)
  }

  /** Offset of the first `b`, as `slice::iter().position` finds it. */
  function Position(s: bytes, b: byte): (r: Option<nat>)
    ensures r.Some? ==> r.value < |s| && s[r.value] == b && forall i :: 0 <= i < r.value ==> s[i] != b
    ensures r.None? <==> b !in s
  {
    if s == [] then None
    else if s[0] == b then Some(0)
    else
      match Position(s[1..], b)
      case None => None
      case Some(i) => Some(i + 1)
  }

  /** The first `b` of `pre + [b] + post` is the one after `pre` when `pre` has none. */
  lemma {:induction false} PositionAfter(pre: bytes, b: byte, post: bytes)
    requires b !in pre
    ensures Position(pre + [b] + post, b) == Some(|pre|)
  {
    var s := pre + [b] + post;
    assert s[|pre|] == b;
    assert forall i :: 0 <= i < |pre| ==> s[i] == pre[i];
  }

  predicate StartsWith(s: bytes, p: bytes) {
    |p| <= |s| && s[..|p|] == p
  }

  /** Cutting a concatenation where it was joined. */
  lemma Cut<T>(a: seq<T>, b: seq<T>)
    ensures (a + b)[|a|..] == b && (a + b)[..|a|] == a
  {
  }

  lemma CutMiddle<T>(a: seq<T>, b: seq<T>, c: seq<T>)
    ensures (a + (b + c))[|a|..|a| + |b|] == b
  {
  }

  lemma SliceTwice<T>(s: seq<T>, i: nat, j: nat)
    requires i + j <= |s|
    ensures s[i..][..j] == s[i..i + j] && s[i..][j..] == s[i + j..]
  {
  }

  lemma Append2<T>(o: seq<T>, a: seq<T>, b: seq<T>)
    ensures o + a + b == o + (a + b)
  {
  }

  lemma Append3<T>(o: seq<T>, a: seq<T>, b: seq<T>, c: seq<T>)
    ensures o + a + b + c == o + (a + b + c)
  {
  }

  lemma Append4<T>(o: seq<T>, a: seq<T>, b: seq<T>, c: seq<T>, d: seq<T>)
    ensures o + a + b + c + d == o + (a + b + c + d)
  {
  }

  lemma Append5<T>(o: seq<T>, a: seq<T>, b: seq<T>, c: seq<T>, d: seq<T>, e: seq<T>)
    ensures o + a + b + c + d + e == o + (a + b + c + d + e)
  {
  }

  lemma Flat4<T>(a: seq<T>, b: seq<T>, c: seq<T>, d: seq<T>, tail: seq<T>)
    ensures a + b + c + d + tail == a + (b + (c + (d + tail)))
  {
    Append2(a, b, c + (d + tail));
    Append3(a + b, c, d, tail);
    Append2(c, d, tail);
  }
}
