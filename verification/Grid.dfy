/** Rows and columns of a picture stored row after row. */
module Grid {
  import Blocks

  function At(row: int, col: int, width: int): int {
    row * width + col
  }

  predicate Inside(row: int, col: int, width: int, height: int) {
    0 <= row < height && 0 <= col < width
  }

  lemma AtInside(row: int, col: int, width: int, height: int)
    requires Inside(row, col, width, height)
    ensures 0 <= At(row, col, width) < width * height
  {
    Blocks.ProductGap(row, height, width);
    assert height * width == width * height;
  }

  lemma AtApart(row: int, col: int, row': int, col': int, width: int, height: int)
    requires Inside(row, col, width, height) && Inside(row', col', width, height)
    requires At(row, col, width) == At(row', col', width)
    ensures row == row' && col == col'
  {
    Blocks.DivModUnique(At(row, col, width), width, row, col);
    Blocks.DivModUnique(At(row', col', width), width, row', col');
  }

  /** Every index is some row and column. */
  lemma AtCovers(k: nat, width: nat, height: nat) returns (row: nat, col: nat)
    requires k < width * height
    ensures Inside(row, col, width, height) && At(row, col, width) == k
  {
    assert height * width == width * height;
    if width == 0 {
      assert false;
    }
    row, col := k / width, k % width;
    assert k == row * width + col;
    if height <= row {
      if height < row { Blocks.ProductGap(height, row, width); }
      assert false;
    }
  }

  lemma AllInside(width: int, height: int)
    ensures forall r, c :: Inside(r, c, width, height) ==> 0 <= At(r, c, width) < width * height
  {
    forall r, c | Inside(r, c, width, height)
      ensures 0 <= At(r, c, width) < width * height
    {
      AtInside(r, c, width, height);
    }
  }

  lemma AllApart(row: int, col: int, width: int, height: int)
    requires Inside(row, col, width, height)
    ensures forall r, c :: Inside(r, c, width, height) && At(r, c, width) == At(row, col, width) ==> r == row && c == col
  {
    forall r, c | Inside(r, c, width, height) && At(r, c, width) == At(row, col, width)
      ensures r == row && c == col
    {
      AtApart(r, c, row, col, width, height);
    }
  }
}
