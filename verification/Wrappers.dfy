/** What several modules share: optional results, bytes, 32-bit arithmetic, lists without
    repetition, and the states of a process. */
module Wrappers {

  datatype Option<+T> = None | Some(value: T)

  // ---------- bytes ----------

  newtype byte = x: int | 0 <= x < 256

  /** memcpy into a buffer. */
  function Put(b: seq<byte>, off: nat, data: seq<byte>): (r: seq<byte>)
    requires off + |data| <= |b|
    ensures |r| == |b|
    ensures forall j :: 0 <= j < |b| ==> r[j] == if off <= j < off + |data| then data[j - off] else b[j]
  {
    b[..off] + data + b[off + |data|..]
  }

  // ---------- 32-bit arithmetic ----------

  const WORD := 0x1_0000_0000

  /** A 32-bit value read as a signed number. */
  function Signed(x: int): int {
    var y := x % WORD;
    if y < WORD / 2 then y else y - WORD
  }

  const PGSIZE := 4096

  /** An address is a page and an offset in it. */
  lemma PageAndOffset(page: nat, off: nat)
    requires off < PGSIZE
    ensures (PGSIZE * page + off) / PGSIZE == page && (PGSIZE * page + off) % PGSIZE == off
  {
    var a := PGSIZE * page + off;
    var q, r := a / PGSIZE, a % PGSIZE;
    assert a == PGSIZE * q + r;
    assert PGSIZE * (q - page) == off - r;
  }

  // ---------- lists ----------

  ghost predicate Distinct<T>(s: seq<T>) {
    forall i, j :: 0 <= i < j < |s| ==> s[i] != s[j]
  }

  function IndexOf<T(==)>(s: seq<T>, x: T): (at: nat)
    requires x in s
    ensures at < |s| && s[at] == x
  {
    if s[0] == x then 0 else 1 + IndexOf(s[1..], x)
  }

  // ---------- processes ----------

  const MAX_PROCESS := 4096

  datatype ProcState = Uninit | Sleeping | Runnable | Zombie
}
