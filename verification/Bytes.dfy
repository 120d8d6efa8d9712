/** Bytes of shared memory: little-endian words, C strings and the bounded string copy. */
module Bytes {
  import opened Arithmetic

  type byte = x: int | 0 <= x < 256

  /** The number of values of an unsigned word of `width` bytes. */
  function Capacity(width: nat): (c: nat)
    ensures c > 0
  {
    if width == 0 then 1 else 256 * Capacity(width - 1)
  }

  /** The little-endian bytes of `n`, truncated to `width` bytes as an unsigned store truncates. */
  function Encode(n: nat, width: nat): (s: seq<byte>)
    ensures |s| == width
  {
    if width == 0 then [] else [n % 256] + Encode(n / 256, width - 1)
  }

  function Decode(s: seq<byte>): nat {
    if s == [] then 0 else s[0] + 256 * Decode(s[1..])
  }

  /** Dividing by 256 and then by `c` splits `n` as dividing by `256 * c` does. */
  lemma SplitLowByte(n: nat, c: nat)
    requires c > 0
    ensures n % (256 * c) == n % 256 + 256 * ((n / 256) % c)
  {
    var q, r := n / 256, n % 256;
    var a, b := q / c, q % c;
    var m := 256 * c;
    assert m * a == 256 * (c * a);
    assert n == m * a + (256 * b + r);
    assert b <= c - 1;
    RemainderIsUnique(n, m, a, 256 * b + r);
  }

  lemma {:induction false} DecodeEncode(n: nat, width: nat)
    ensures Decode(Encode(n, width)) == n % Capacity(width)
  {
    if width > 0 {
      DecodeEncode(n / 256, width - 1);
      assert Encode(n, width)[1..] == Encode(n / 256, width - 1);
      SplitLowByte(n, Capacity(width - 1));
    }
  }

  lemma {:induction false} DecodeBound(s: seq<byte>)
    ensures Decode(s) < Capacity(|s|)
  {
    if s != [] {
      DecodeBound(s[1..]);
    }
  }

  lemma {:induction false} EncodeDecode(s: seq<byte>)
    ensures Encode(Decode(s), |s|) == s
  {
    if s != [] {
      EncodeDecode(s[1..]);
      RemainderIsUnique(Decode(s), 256, Decode(s[1..]), s[0]);
      assert s == [s[0]] + s[1..];
    }
  }

  /** A zero word is stored as zero bytes. */
  lemma {:induction false} EncodeZero(width: nat)
    ensures forall i :: 0 <= i < width ==> Encode(0, width)[i] == 0
    ensures Encode(0, width) == Zeros(width)
  {
    if width > 0 {
      EncodeZero(width - 1);
      assert Encode(0, width) == [0] + Encode(0, width - 1);
    }
  }

  function Zeros(n: nat): seq<byte> {
    seq(n, _ => 0)
  }

  /** The bytes from `off` up to the first NUL: what streaming a `const char*` prints. */
  function CString(mem: seq<byte>, off: nat): seq<byte>
    decreases |mem| - off
  {
    if off >= |mem| || mem[off] == 0 then [] else [mem[off]] + CString(mem, off + 1)
  }

  lemma {:induction false} CStringStopsAt(mem: seq<byte>, off: nat, end: nat)
    requires off <= end < |mem| && mem[end] == 0
    requires 0 !in mem[off..end]
    ensures CString(mem, off) == mem[off..end]
    decreases end - off
  {
    if off < end {
      assert mem[off] == mem[off..end][0] && mem[off] in mem[off..end];
      assert forall x :: x in mem[off + 1..end] ==> x in mem[off..end];
      CStringStopsAt(mem, off + 1, end);
      assert mem[off..end] == [mem[off]] + mem[off + 1..end];
    }
  }

  /** The field a bounded copy of a C string fills: cut to `n` bytes and padded with NULs. */
  function StrN(s: seq<byte>, n: nat): (r: seq<byte>)
    ensures |r| == n
    ensures |s| <= n ==> r[..|s|] == s && forall i :: |s| <= i < n ==> r[i] == 0
    ensures |s| >= n ==> r == s[..n]
  {
    if |s| >= n then s[..n] else s + Zeros(n - |s|)
  }

  /** `s` with the bytes of `t` laid over it from `off` on. */
  function Splice(s: seq<byte>, off: nat, t: seq<byte>): (r: seq<byte>)
    requires off + |t| <= |s|
    ensures |r| == |s|
  {
    s[..off] + t + s[off + |t|..]
  }

  lemma SpliceSlices(s: seq<byte>, off: nat, t: seq<byte>)
    requires off + |t| <= |s|
    ensures var r := Splice(s, off, t);
            r[off..off + |t|] == t && r[..off] == s[..off] && r[off + |t|..] == s[off + |t|..]
  {
  }

  /** The `size` bytes at `at`, as far as they lie in `m`. */
  function Slice(m: seq<byte>, at: nat, size: nat): seq<byte> {
    if at + size <= |m| then m[at..at + size] else []
  }

  /** `m` with `t` laid over it at `at`, if it fits. */
  function Overlay(m: seq<byte>, at: nat, t: seq<byte>): (r: seq<byte>)
    ensures |r| == |m|
  {
    if at + |t| <= |m| then Splice(m, at, t) else m
  }

  lemma SliceOfOverlay(m: seq<byte>, at: nat, t: seq<byte>, i: nat, size: nat)
    requires at + |t| <= |m|
    requires i + size <= at || at + |t| <= i
    ensures Slice(Overlay(m, at, t), i, size) == Slice(m, i, size)
  {
    SpliceSlices(m, at, t);
    var r := Splice(m, at, t);
    if i + size <= |m| {
      forall x | i <= x < i + size ensures r[x] == m[x] {
      }
    }
  }

  lemma SliceOverlaid(m: seq<byte>, at: nat, t: seq<byte>)
    requires at + |t| <= |m|
    ensures Slice(Overlay(m, at, t), at, |t|) == t
  {
    SpliceSlices(m, at, t);
  }

  /** Copies `src` into `dst` from `off` on, one byte at a time. */
  method CopyBytes(src: seq<byte>, dst: array<byte>, off: nat)
    requires off + |src| <= dst.Length
    modifies dst
    ensures dst[..] == Splice(old(dst[..]), off, src)
  {
    ghost var before := dst[..];
    for i := 0 to |src|
      invariant dst[..] == Splice(before, off, src[..i])
    {
      dst[off + i] := src[i];
      assert src[..i + 1] == src[..i] + [src[i]];
    }
    assert src[..|src|] == src;
  }
}
