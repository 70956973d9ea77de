/** Little-endian integers in byte sequences, and their encoders. */
module LittleEndian {
  import opened Ods

  function U16(s: seq<byte>, off: nat): (v: uint16)
    requires off + 2 <= |s|
  {
    (s[off] as int) + 0x100 * (s[off + 1] as int)
  }

  function U32(s: seq<byte>, off: nat): (v: uint32)
    requires off + 4 <= |s|
  {
    (U16(s, off) as int) + 0x1_0000 * (U16(s, off + 2) as int)
  }

  function Put16(v: uint16): (s: seq<byte>)
    ensures |s| == 2 && U16(s, 0) == v
  {
    [v % 0x100, v / 0x100]
  }

  function Put32(v: uint32): (s: seq<byte>)
    ensures |s| == 4 && U32(s, 0) == v
  {
    var lo, hi := Put16(v % 0x1_0000), Put16(v / 0x1_0000);
    assert U16(lo + hi, 0) == U16(lo, 0) && U16(lo + hi, 2) == U16(hi, 0);
    lo + hi
  }

  function Zeros(n: nat): (s: seq<byte>)
    ensures |s| == n && forall i :: 0 <= i < n ==> s[i] == 0
  {
    if n == 0 then [] else Zeros(n - 1) + [0]
  }

  function RoundUp4(n: nat): (r: nat)
    ensures n <= r < n + 4 && r % 4 == 0
  {
    (n + 3) / 4 * 4
  }

  /** Reading inside a part of a longer sequence. */
  lemma {:induction false} U32Within(pre: seq<byte>, mid: seq<byte>, post: seq<byte>, off: nat)
    requires off + 4 <= |mid|
    ensures U32(pre + mid + post, |pre| + off) == U32(mid, off)
  {
  }

  lemma {:induction false} U16Within(pre: seq<byte>, mid: seq<byte>, post: seq<byte>, off: nat)
    requires off + 2 <= |mid|
    ensures U16(pre + mid + post, |pre| + off) == U16(mid, off)
  {
  }

  lemma {:induction false} RegroupBytes(a: seq<byte>, b: seq<byte>, c: seq<byte>, d: seq<byte>)
    ensures a + (b + c) + d == (a + b) + c + d == a + b + (c + d)
  {
  }
}
