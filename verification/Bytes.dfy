/** Octets and the doubling of 255, the telnet IAC (RFC 854, section "TELNET COMMAND STRUCTURE"). */
module Bytes {
  type byte = x: int | 0 <= x < 256

  const IAC: byte := 255

  /** Every 255 written twice. */
  function Doubled(bs: seq<byte>): seq<byte> {
    if bs == [] then []
    else (if bs[0] == IAC then [IAC, IAC] else [bs[0]]) + Doubled(bs[1..])
  }

  lemma {:induction false} DoubledAppend(a: seq<byte>, b: seq<byte>)
    ensures Doubled(a + b) == Doubled(a) + Doubled(b)
  {
    if a == [] {
      assert a + b == b;
    } else {
      assert (a + b)[1..] == a[1..] + b;
      DoubledAppend(a[1..], b);
    }
  }

  lemma DoubledPrefix(a: seq<byte>, i: nat)
    requires i < |a|
    ensures Doubled(a[..i + 1]) == Doubled(a[..i]) + if a[i] == IAC then [IAC, IAC] else [a[i]]
    ensures |Doubled(a[..i + 1])| <= |Doubled(a)|
  {
    DoubledAppend(a[..i], [a[i]]);
    assert a[..i + 1] == a[..i] + [a[i]];
    DoubledAppend(a[..i + 1], a[i + 1..]);
    assert a == a[..i + 1] + a[i + 1..];
  }

  lemma {:induction false} DoubledLength(a: seq<byte>)
    ensures |a| <= |Doubled(a)| <= 2 * |a|
  {
    if a != [] {
      DoubledLength(a[1..]);
    }
  }
}
