/** The hexadecimal version string of the CONNECT message: digits in pairs, blanks anywhere. */
module HexConfig {
  import opened Bytes
  import opened Options
  import opened ModbusAscii

  predicate Blank(c: byte) {
    c == 32 || c == 9
  }

  function Strip(s: seq<byte>): seq<byte> {
    if s == [] then [] else One(s[0]) + Strip(s[1..])
  }

  /** What the string says, independent of how it is scanned: the pairs of its non-blank
      characters, if they are all digits, even in number and no more than the destination holds. */
  function Meaning(src: seq<byte>, cap: nat): Option<seq<byte>> {
    var t := Strip(src);
    if |t| % 2 == 1 || |t| > 2 * cap then None else Unhex(t)
  }

  lemma {:induction false} StripAppend(a: seq<byte>, b: seq<byte>)
    ensures Strip(a + b) == Strip(a) + Strip(b)
  {
    if a == [] {
      assert a + b == b;
    } else {
      assert (a + b)[0] == a[0] && (a + b)[1..] == a[1..] + b;
      StripAppend(a[1..], b);
    }
  }

  function One(c: byte): seq<byte> {
    if Blank(c) then [] else [c]
  }

  /** Spaces and tabs are dropped, every other character is kept. */
  lemma StripOfOne(c: byte)
    ensures Strip([c]) == One(c) == if c == 32 || c == 9 then [] else [c]
  {
    assert Strip([c]) == One(c) + Strip([]);
  }

  lemma StripAt(s: seq<byte>, i: nat)
    requires i < |s|
    ensures Strip(s[..i + 1]) == Strip(s[..i]) + One(s[i])
    ensures Strip(s) == Strip(s[..i]) + One(s[i]) + Strip(s[i + 1..])
  {
    hide Strip;
    TakeOneMore(s, i);
    SplitAt(s, i + 1);
    StripAppend(s[..i], [s[i]]);
    StripAppend(s[..i + 1], s[i + 1..]);
    StripOfOne(s[i]);
  }

  method SkipBlanks(src: seq<byte>, start: nat) returns (i: nat)
    requires start <= |src|
    ensures start <= i <= |src| && (i < |src| ==> !Blank(src[i]))
    ensures Strip(src[..i]) == Strip(src[..start])
  {
    i := start;
    while i < |src| && Blank(src[i])
      invariant start <= i <= |src|
      invariant Strip(src[..i]) == Strip(src[..start])
    {
      StripAt(src, i);
      i := i + 1;
    }
  }

  // A first bad pair, or a pair too many, spoils everything after it.
  lemma BadPair(done: seq<byte>, a: byte, b: byte, rest: seq<byte>)
    requires |done| % 2 == 0 && (Nibble(a) < 0 || Nibble(b) < 0)
    ensures Unhex(done + [a, b] + rest).None?
  {
    UnhexAppend(done, [a, b]);
    UnhexAppend(done + [a, b], rest);
    UnhexPair(a, b);
  }

  /** gw_parse_hex_into: one pass with an index and a count. */
  method ParseHexInto(src: seq<byte>, dst: array<byte>, cap: nat) returns (ret: int)
    requires cap <= dst.Length
    modifies dst
    ensures match Meaning(src, cap)
            case None => ret == -1
            case Some(value) => ret == |value| && ret <= cap && dst[..ret] == value
  {
    hide Unhex, Strip, Nibble;
    var n, i := 0, 0;
    EmptyHex();
    StripOfNone();
    assert src[..0] == [] && dst[..0] == [];
    while i < |src|
      invariant i <= |src| && n <= cap
      invariant |Strip(src[..i])| == 2 * n && Unhex(Strip(src[..i])) == Some(dst[..n])
    {
      i := SkipBlanks(src, i);
      if i == |src| {
        break;
      }
      ghost var (done, a) := (Strip(src[..i]), src[i]);
      StripAt(src, i);
      var hi := Nibble(src[i]);
      i := i + 1;
      if hi < 0 {
        OddOrBad(done, a, Strip(src[i..]));
        return -1;
      }
      ghost var afterHi := i;
      i := SkipBlanks(src, i);
      if i == |src| {
        assert src[..i] == src;
        return -1;
      }
      ghost var b := src[i];
      StripAt(src, i);
      var lo := Nibble(src[i]);
      i := i + 1;
      assert Strip(src) == done + [a, b] + Strip(src[i..]);
      if lo < 0 {
        BadPair(done, a, b, Strip(src[i..]));
        return -1;
      }
      if n >= cap {
        return -1;
      }
      UnhexAppend(done, [a, b]);
      UnhexPair(a, b);
      assert Strip(src[..i]) == done + [a, b];
      ghost var before := dst[..n];
      dst[n] := hi * 16 + lo;
      assert dst[..n + 1] == before + [hi * 16 + lo];
      n := n + 1;
    }
    assert src[..i] == src;
    return n;
  }

  lemma StripOfNone()
    ensures Strip([]) == []
  {}

  lemma OddOrBad(done: seq<byte>, a: byte, rest: seq<byte>)
    requires |done| % 2 == 0 && Nibble(a) < 0
    ensures var t := done + [a] + rest; |t| % 2 == 1 || Unhex(t).None?
  {
    if rest != [] {
      assert done + [a] + rest == done + [a, rest[0]] + rest[1..];
      BadPair(done, a, rest[0], rest[1..]);
    }
  }

  /** Exactly the spacings of the printed form of some octets, in either case, are read as those
      octets, if they fit. */
  lemma ReadsPrinted(data: seq<byte>, spaced: seq<byte>, cap: nat)
    ensures Meaning(spaced, cap) == Some(data) <==> Upper(Strip(spaced)) == HexOf(data) && |data| <= cap
  {
    hide Strip, Unhex, HexOf;
    var t := Strip(spaced);
    HexOfAppend(data, []);
    UnhexInvertsHex(data);
    if |t| % 2 == 0 {
      HexInvertsUnhex(t);
      UnhexAppend(t, []);
    }
  }
}
