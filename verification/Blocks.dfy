/** Block arithmetic by repeated addition and subtraction, so that proofs stay linear;
    BlocksAreDivMod ties it to the machine's multiplication, division and remainder. */
module Blocks {

  function BlockStart(block: nat, size: nat): (start: nat)
  {
    if block == 0 then 0 else BlockStart(block - 1, size) + size
  }

  function BlockAt(at: nat, size: nat): (block: nat)
    requires 0 < size
  {
    if at < size then 0 else BlockAt(at - size, size) + 1
  }

  function OffsetAt(at: nat, size: nat): (offset: nat)
    requires 0 < size
    ensures offset < size
  {
    if at < size then at else OffsetAt(at - size, size)
  }

  lemma {:induction false} StartPlusOffset(at: nat, size: nat)
    requires 0 < size
    ensures at == BlockStart(BlockAt(at, size), size) + OffsetAt(at, size)
  {
    if at >= size {
      StartPlusOffset(at - size, size);
    }
  }

  lemma {:induction false} StartIsProduct(block: nat, size: nat)
    ensures BlockStart(block, size) == block * size
  {
    if block > 0 {
      StartIsProduct(block - 1, size);
      assert block * size == (block - 1) * size + size;
    }
  }

  lemma DivModUnique(at: nat, size: nat, q: nat, r: nat)
    requires 0 < size && r < size && at == q * size + r
    ensures at / size == q && at % size == r
  {
    var q', r' := at / size, at % size;
    assert at == q' * size + r';
    if q < q' {
      ProductGap(q, q', size);
    } else if q' < q {
      ProductGap(q', q, size);
    }
  }

  lemma ProductGap(a: nat, b: nat, size: nat)
    requires a < b
    ensures a * size + size <= b * size
  {
    StartMonotone(a, b, size);
    StartIsProduct(a, size);
    StartIsProduct(b, size);
  }

  /** The recursive definitions are the source's `*`, `/` and `%`. */
  lemma BlocksAreDivMod(at: nat, size: nat)
    requires 0 < size
    ensures BlockAt(at, size) == at / size && OffsetAt(at, size) == at % size
    ensures BlockStart(at / size, size) == (at / size) * size
  {
    StartPlusOffset(at, size);
    StartIsProduct(BlockAt(at, size), size);
    DivModUnique(at, size, BlockAt(at, size), OffsetAt(at, size));
  }

  lemma {:induction false} StartMonotone(a: nat, b: nat, size: nat)
    requires a < b
    ensures BlockStart(a, size) + size <= BlockStart(b, size)
  {
    if a < b - 1 {
      StartMonotone(a, b - 1, size);
    }
  }

  lemma {:induction false} BlockAtBound(at: nat, size: nat)
    requires 1 < size
    ensures 2 * BlockAt(at, size) <= at
  {
    if at >= size {
      BlockAtBound(at - size, size);
    }
  }

  /** On a disk of whole blocks every address inside lies in a block inside. */
  lemma BlockInside(at: nat, size: nat, blocks: nat)
    requires 0 < size && at < BlockStart(blocks, size)
    ensures BlockAt(at, size) < blocks && BlockStart(BlockAt(at, size), size) + size <= BlockStart(blocks, size)
  {
  }

  lemma {:induction false} BlockOfStart(block: nat, size: nat, offset: nat)
    requires offset < size
    ensures BlockAt(BlockStart(block, size) + offset, size) == block
    ensures OffsetAt(BlockStart(block, size) + offset, size) == offset
  {
    if block > 0 {
      BlockOfStart(block - 1, size, offset);
    }
  }

  lemma {:induction false} BlockAtLess(at: nat, size: nat)
    requires 0 < size
    ensures BlockAt(at, size) <= at
  {
    if at >= size {
      BlockAtLess(at - size, size);
    }
  }

  lemma QuotientBounds(a: nat, b: nat)
    requires 0 < b
    ensures a / b <= a && (a / b) * b <= a
  {
    BlocksAreDivMod(a, b);
    BlockAtLess(a, b);
    StartPlusOffset(a, b);
  }
}
