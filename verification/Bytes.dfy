/** Octets and the big-endian 16-bit fields of the wire formats. Every module counts in
    mathematical integers; where the firmware relies on a width, the model says so. */
module Bytes {

  type byte = x: int | 0 <= x < 256

  // sys_get_be16
  function Be16(hi: byte, lo: byte): (n: nat)
    ensures n < 0x1_0000
  {
    hi * 256 + lo
  }

  // sys_put_be16
  function PutBe16(n: nat): (s: seq<byte>)
    requires n < 0x1_0000
    ensures |s| == 2 && Be16(s[0], s[1]) == n
  {
    [n / 256, n % 256]
  }

  lemma PutOfBe16(hi: byte, lo: byte)
    ensures PutBe16(Be16(hi, lo)) == [hi, lo]
  {}

  // Slicing facts, each proved once.
  lemma TakeOneMore(s: seq<byte>, i: nat)
    requires i < |s|
    ensures s[..i + 1] == s[..i] + [s[i]]
  {}

  lemma SplitAt(s: seq<byte>, i: nat)
    requires i <= |s|
    ensures s == s[..i] + s[i..]
  {}

  lemma SliceOfPrefix(s: seq<byte>, n: nat, from: nat, to: nat)
    requires from <= to <= n <= |s|
    ensures s[..n][from..to] == s[from..to]
  {}

  lemma ConcatAssociates(a: seq<byte>, b: seq<byte>, c: seq<byte>)
    ensures (a + b) + c == a + (b + c)
  {}

  // Parts of a stream put together.
  function Joined<T>(parts: seq<seq<T>>): seq<T> {
    if parts == [] then [] else parts[0] + Joined(parts[1..])
  }

  lemma {:induction false} JoinedAppend<T>(a: seq<seq<T>>, b: seq<seq<T>>)
    ensures Joined(a + b) == Joined(a) + Joined(b)
  {
    if a == [] {
      assert a + b == b;
    } else {
      assert (a + b)[0] == a[0] && (a + b)[1..] == a[1..] + b;
      JoinedAppend(a[1..], b);
    }
  }

  /** memmove(a, a + from, to - from): slides a[from..to] to the front. */
  method MoveDown(a: array<byte>, from: nat, to: nat)
    requires from <= to <= a.Length
    modifies a
    ensures a[..to - from] == old(a[from..to])
    ensures forall k :: 0 <= k < to - from ==> a[k] == old(a[from + k])
    ensures forall k :: to - from <= k < a.Length ==> a[k] == old(a[k])
  {
    for i := 0 to to - from
      invariant forall k :: 0 <= k < i ==> a[k] == old(a[from + k])
      invariant forall k :: i <= k < a.Length ==> a[k] == old(a[k])
    {
      a[i] := a[from + i];
    }
    ghost var moved := old(a[from..to]);
    assert forall k :: 0 <= k < to - from ==> moved[k] == old(a[from + k]);
  }
}
