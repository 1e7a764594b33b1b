/** The block bitmap of SFS (kern/fs/sfs/bitmap.c): a set bit marks a free block.
    A machine word is the sequence of its 32 bits, least significant first. */
module Bitmap {
  import opened Wrappers

  const WORD_BITS := 32

  type Word = w: seq<bool> | |w| == WORD_BITS witness seq(WORD_BITS, i => false)

  /** w ^ (1 << k). */
  function Flip(w: Word, k: nat): Word
    requires k < WORD_BITS
  {
    w[k := !w[k]]
  }

  /** w | (1 << k). */
  function Raise(w: Word, k: nat): Word
    requires k < WORD_BITS
  {
    w[k := true]
  }

  predicate IsZero(w: Word) {
    forall k :: 0 <= k < WORD_BITS ==> !w[k]
  }

  // ---------- the set a list of words stands for ----------

  ghost predicate IsSet(words: seq<Word>, i: int) {
    0 <= i < WORD_BITS * |words| && words[i / WORD_BITS][i % WORD_BITS]
  }

  ghost function Bits(words: seq<Word>): set<nat> {
    set i: nat | i < WORD_BITS * |words| && IsSet(words, i)
  }

  lemma SameBit(i: nat, j: nat)
    requires i / WORD_BITS == j / WORD_BITS && i % WORD_BITS == j % WORD_BITS
    ensures i == j
  {
  }

  /** Changing one bit of one word changes one member of the set. */
  lemma ChangeBit(words: seq<Word>, i: nat, b: bool)
    requires i < WORD_BITS * |words|
    ensures var words' := words[i / WORD_BITS := words[i / WORD_BITS][i % WORD_BITS := b]];
            Bits(words') == if b then Bits(words) + {i} else Bits(words) - {i}
  {
    var words' := words[i / WORD_BITS := words[i / WORD_BITS][i % WORD_BITS := b]];
    forall j: nat | j < WORD_BITS * |words|
      ensures IsSet(words', j) <==> if j == i then b else IsSet(words, j)
    {
      if j / WORD_BITS == i / WORD_BITS && j % WORD_BITS == i % WORD_BITS {
        SameBit(i, j);
      }
    }
  }

  class Bitmap {
    const nbits: nat
    const words: array<Word>

    ghost function Free(): set<nat>
      reads words
    {
      Bits(words[..])
    }

    /** Bits beyond the last one are never free. */
    ghost predicate Valid()
      reads words
    {
      && words.Length == (nbits + WORD_BITS - 1) / WORD_BITS
      && forall i :: i in Free() ==> i < nbits
    }

    constructor (nbits: nat)
      requires nbits > 0
      ensures Valid() && this.nbits == nbits && forall i: nat :: i in Free() <==> i < nbits
      ensures fresh(words)
    {
      this.nbits := nbits;
      var nwords := (nbits + WORD_BITS - 1) / WORD_BITS;
      words := new Word[nwords](_ => seq(WORD_BITS, i => true));
      new;
      assert forall i: nat :: i < WORD_BITS * nwords ==> IsSet(words[..], i);
      if nbits != nwords * WORD_BITS {
        var ix := nwords - 1;
        var overbits := nbits - ix * WORD_BITS;
        while overbits < WORD_BITS
          invariant nbits - ix * WORD_BITS <= overbits <= WORD_BITS
          invariant forall i: nat :: i in Free() <==> i < WORD_BITS * nwords && !(nbits <= i < ix * WORD_BITS + overbits)
        {
          ghost var before := words[..];
          assert Free() == Bits(before);
          assert ix * WORD_BITS + overbits in Free();
          WordOf(ix, ix * WORD_BITS + overbits);
          ChangeBit(before, ix * WORD_BITS + overbits, false);
          words[ix] := Flip(words[ix], overbits);
          assert words[..] == before[ix := Flip(before[ix], overbits)];
          assert Free() == Bits(before) - {ix * WORD_BITS + overbits};
          overbits := overbits + 1;
        }
      }
    }

    /** bitmap_alloc: takes the lowest free bit, and fails only if there is none. */
    method Alloc() returns (index: Option<nat>)
      requires Valid()
      modifies words
      ensures Valid()
      ensures index.None? ==> old(Free()) == {} && Free() == {}
      ensures index.Some? ==>
                && index.value in old(Free()) && Free() == old(Free()) - {index.value}
                && forall j :: j in old(Free()) ==> index.value <= j
    {
      var ix := 0;
      while ix < words.Length
        invariant 0 <= ix <= words.Length && words[..] == old(words[..])
        invariant NoneBelow(words[..], ix * WORD_BITS)
      {
        if !IsZero(words[ix]) {
          var offset := FirstBit(words[ix]);
          ghost var before := words[..];
          Lowest(before, ix, offset);
          ChangeBit(before, ix * WORD_BITS + offset, false);
          words[ix] := Flip(words[ix], offset);
          assert words[..] == before[ix := Flip(before[ix], offset)];
          assert Free() == old(Free()) - {ix * WORD_BITS + offset};
          return Some(ix * WORD_BITS + offset);
        }
        SkipWord(words[..], ix);
        ix := ix + 1;
      }
      index := None;
    }

    method Test(index: nat) returns (b: bool)
      requires Valid() && index < nbits
      ensures b <==> index in Free()
    {
      b := words[index / WORD_BITS][index % WORD_BITS];
    }

    /** bitmap_free: the bit must be in use. */
    method Release(index: nat)
      requires Valid() && index < nbits && index !in Free()
      modifies words
      ensures Valid() && Free() == old(Free()) + {index}
    {
      ghost var before := words[..];
      var ix := index / WORD_BITS;
      ChangeBit(before, index, true);
      words[ix] := Raise(words[ix], index % WORD_BITS);
      assert words[..] == before[ix := Raise(before[ix], index % WORD_BITS)];
    }
  }

  /** The inner loop of bitmap_alloc; its closing assertion cannot be reached. */
  method FirstBit(w: Word) returns (offset: nat)
    requires !IsZero(w)
    ensures offset < WORD_BITS && w[offset] && forall k :: 0 <= k < offset ==> !w[k]
  {
    offset := 0;
    ghost var k :| 0 <= k < WORD_BITS && w[k];
    while !w[offset]
      invariant offset <= k && forall k :: 0 <= k < offset ==> !w[k]
      decreases WORD_BITS - offset
    {
      offset := offset + 1;
    }
  }

  ghost predicate NoneBelow(words: seq<Word>, n: nat) {
    forall j :: j in Bits(words) ==> n <= j
  }

  lemma WordOf(ix: nat, j: nat)
    requires ix * WORD_BITS <= j < (ix + 1) * WORD_BITS
    ensures j / WORD_BITS == ix && j % WORD_BITS == j - ix * WORD_BITS
  {
  }

  lemma Lowest(words: seq<Word>, ix: nat, offset: nat)
    requires ix < |words| && offset < WORD_BITS && words[ix][offset]
    requires forall k :: 0 <= k < offset ==> !words[ix][k]
    requires NoneBelow(words, ix * WORD_BITS)
    ensures ix * WORD_BITS + offset in Bits(words) && (ix * WORD_BITS + offset) / WORD_BITS == ix
    ensures (ix * WORD_BITS + offset) % WORD_BITS == offset
    ensures NoneBelow(words, ix * WORD_BITS + offset)
  {
    WordOf(ix, ix * WORD_BITS + offset);
    forall j | j in Bits(words) ensures ix * WORD_BITS + offset <= j {
      if j < (ix + 1) * WORD_BITS {
        WordOf(ix, j);
      }
    }
  }

  lemma SkipWord(words: seq<Word>, ix: nat)
    requires ix < |words| && IsZero(words[ix]) && NoneBelow(words, ix * WORD_BITS)
    ensures NoneBelow(words, (ix + 1) * WORD_BITS)
  {
    forall j | j in Bits(words) ensures (ix + 1) * WORD_BITS <= j {
      if j < (ix + 1) * WORD_BITS {
        WordOf(ix, j);
      }
    }
  }
}
