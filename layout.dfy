/**
 * The row-major layout of a flat matrix buffer: cell (column c, row r) of a matrix `w` cells
 * wide lives at index `r * w + c`.  Every buffer in the player (`PodMatrix`, `ImageRef`)
 * uses this layout, so the facts about it are proved once here.
 */
module Layout {
  function Idx(w: int, r: int, c: int): int {
    r * w + c
  }

  lemma {:induction false} MulNonNegative(a: nat, b: nat)
    ensures 0 <= a * b
  {
    if a > 0 {
      MulNonNegative(a - 1, b);
      assert a * b == (a - 1) * b + b;
    }
  }

  /** Rows are `w` cells apart: a later row starts at least `w` cells after an earlier one. */
  lemma RowGap(w: nat, r: int, r': int)
    requires r < r'
    ensures r * w + w <= r' * w
  {
    MulNonNegative(r' - r - 1, w);
    assert r' * w - (r * w + w) == (r' - r - 1) * w;
  }

  lemma MulBound(a: nat, b: nat, a': nat, b': nat)
    requires a <= a' && b <= b'
    ensures a * b <= a' * b'
  {
    MulNonNegative(a, b' - b);
    MulNonNegative(a' - a, b');
    assert a * b' - a * b == a * (b' - b);
    assert a' * b' - a * b' == (a' - a) * b';
  }

  lemma IdxBounds(w: nat, h: nat, r: int, c: int)
    requires 0 <= r < h && 0 <= c < w
    ensures 0 <= Idx(w, r, c) < w * h
    ensures r * w <= Idx(w, r, c) < r * w + w
  {
    MulNonNegative(r, w);
    RowGap(w, r, h);
    assert h * w == w * h;
  }

  lemma IdxInjective(w: nat, r: int, c: int, r': int, c': int)
    requires 0 <= c < w && 0 <= c' < w
    requires Idx(w, r, c) == Idx(w, r', c')
    ensures r == r' && c == c'
  {
    if r < r' {
      RowGap(w, r, r');
    } else if r' < r {
      RowGap(w, r', r);
    }
  }

  /** Every index below `w * h` is the index of exactly one in-range cell. */
  lemma IdxCovers(w: nat, h: nat, k: int) returns (r: int, c: int)
    requires 0 <= k < w * h
    ensures 0 <= r < h && 0 <= c < w && Idx(w, r, c) == k
  {
    r, c := k / w, k % w;
    assert k == r * w + c;
    if r >= h {
      MulBound(h, w, r, w);
      assert false;
    }
  }
}
