// Facts about multiplication, division and remainder that the solver does not
// find by itself.  They are helpers for the copy driver's proofs.

module Arith {

  lemma MulMono(a: nat, b: nat, c: nat)
    requires a <= b
    ensures a * c <= b * c
  {
    var d := b - a;
    assert b * c == a * c + d * c;
  }

  lemma MulStrict(a: nat, b: nat, c: nat)
    requires a < b && c > 0
    ensures a * c + c <= b * c
  {
    MulMono(a + 1, b, c);
    assert (a + 1) * c == a * c + c;
  }

  lemma Distrib(a: int, b: int, c: int)
    ensures (a + b) * c == a * c + b * c
  {
  }

  /** Euclidean division is unique: q*n + r with 0 <= r < n leaves r. */
  lemma ModOfMultiplePlus(q: int, n: int, r: int)
    requires n > 0 && 0 <= r < n
    ensures (q * n + r) % n == r && (q * n + r) / n == q
  {
    var x := q * n + r;
    var q' := x / n;
    var r' := x % n;
    assert x == q' * n + r';
    assert (q - q') * n == r' - r by {
      Distrib(q, -q', n);
    }
    if q - q' >= 1 {
      MulMono(1, q - q', n);
    } else if q - q' <= -1 {
      MulMono(1, q' - q, n);
    }
  }

  /**
   * The ceiling of size / blockSize is the only w whose w blocks cover size
   * bytes while w - 1 blocks do not.
   */
  lemma CeilingUnique(size: nat, blockSize: nat, w: nat)
    requires blockSize > 0
    requires w * blockSize >= size
    requires w == 0 || (w - 1) * blockSize < size
    ensures w == (size + blockSize - 1) / blockSize
  {
    var x := size + blockSize - 1;
    var q := x / blockSize;
    var r := x % blockSize;
    assert x == q * blockSize + r;
    if w < q {
      MulMono(w, q - 1, blockSize);
      Distrib(q, -1, blockSize);
    } else if w > q {
      MulMono(q, w - 1, blockSize);
    }
  }
}
