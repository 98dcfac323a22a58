/** How N cores share the 64-bit nonce space (src/PkgOspreyBlake2b.vhd). */
module Nonces {
  import opened Words

  /** m is the number of address bits N cores need. */
  ghost predicate AddressBits(m: nat, n: nat) {
    n <= Pow2(m) && (m == 0 || Pow2(m - 1) < n)
  }

  /** ClogB2. Its variable v is a VHDL positive, so doubling must stay below 2^31. */
  method ClogB2(n: nat) returns (r: nat)
    requires 1 <= n <= 0x4000_0000
    ensures AddressBits(r, n) && r <= 30
  {
    r := 0;
    var v := 1;
    while v < n
      invariant v == Pow2(r) && v <= 0x4000_0000 && r <= 30
      invariant r == 0 || Pow2(r - 1) < n
      decreases n - v
    {
      DoublingFits(r, n);
      v := v * 2;
      r := r + 1;
    }
  }

  lemma DoublingFits(r: nat, n: nat)
    requires Pow2(r) < n <= 0x4000_0000 && r <= 30
    ensures 2 * Pow2(r) <= 0x4000_0000 && r < 30
  {
    assert Pow2(30) == 0x4000_0000 by {
      Pow2Values();
      assert Pow2(32) == 4 * Pow2(30);
    }
    if r == 30 { assert false; }
    Pow2Split(30, r + 1);
    if 2 * Pow2(r) > 0x4000_0000 {
      PowersApart(r, 29);
    }
  }

  lemma {:induction false} PowersApart(a: nat, b: nat)
    requires a <= b
    ensures Pow2(a) <= Pow2(b)
    decreases b
  {
    if a < b { PowersApart(a, b - 1); }
  }

  /** Width of one core's slice. */
  function Slice(m: nat): (w: nat)
    requires m <= 64
    ensures w > 0
  {
    Pow2(64 - m)
  }

  function Seed(idx: nat, m: nat): U64
    requires m <= 64
  {
    (idx * Slice(m) - 1) % TWO64
  }

  /** CoreNonceSeed: the index shifted to the top of the word, less one. */
  method CoreNonceSeed(idx: nat, n: nat) returns (seed: U64)
    requires 1 <= n <= 0x4000_0000 && idx < n
    ensures forall m :: m <= 64 && AddressBits(m, n) ==> seed == Seed(idx, m)
    ensures idx == 0 ==> seed == TWO64 - 1
  {
    var bits := ClogB2(n);
    var shifted := idx * Pow2(64 - bits) % TWO64;
    SeedShift(idx * Slice(bits));
    seed := Sub(shifted, 1);
    forall m | m <= 64 && AddressBits(m, n)
      ensures m == bits
    {
      OneWidth(m, bits, n);
    }
  }

  /** Only one width addresses n cores with no bit to spare. */
  lemma OneWidth(a: nat, b: nat, n: nat)
    requires AddressBits(a, n) && AddressBits(b, n)
    ensures a == b
  {
    if a < b { PowersApart(a, b - 1); }
    if b < a { PowersApart(b, a - 1); }
  }

  lemma SeedShift(x: nat)
    ensures (x % TWO64 - 1) % TWO64 == (x - 1) % TWO64
  {
  }

  /** The nonce core idx hashes c clocks after its reload. */
  function Tested(idx: nat, m: nat, c: nat): U64
    requires m <= 64
  {
    (Seed(idx, m) + c) % TWO64
  }

  lemma TestedPlace(idx: nat, m: nat, c: nat)
    requires m <= 64 && idx < Pow2(m) && c <= Slice(m)
    ensures Pow2(m) * Slice(m) == TWO64
    ensures idx == 0 && c == 0 ==> Tested(idx, m, c) == TWO64 - 1
    ensures idx != 0 || c != 0 ==> Tested(idx, m, c) == idx * Slice(m) + c - 1
  {
    hide Pow2;
    var w, p := Slice(m), Pow2(m);
    assert p * w == TWO64 by { Pow2Values(); Pow2Split(64, m); }
    SliceFits(idx, w, p);
    Wrap(idx * w, c);
  }

  lemma SliceFits(idx: nat, w: nat, p: nat)
    requires idx < p && w > 0
    ensures idx * w + w <= p * w
    ensures idx * w == 0 <==> idx == 0
  {
    MulMonotone(w, idx + 1, p);
    if idx > 0 { MulMonotone(w, 1, idx); }
  }

  lemma Wrap(x: nat, c: nat)
    requires x + c <= TWO64
    ensures ((x - 1) % TWO64 + c) % TWO64 == if x + c == 0 then TWO64 - 1 else x + c - 1
  {
  }

  /** Different cores never hash the same nonce during the first 2^(64-m) clocks. */
  lemma CoresDisjoint(n: nat, m: nat, j: nat, k: nat, c: nat, d: nat)
    requires AddressBits(m, n) && m <= 64
    requires j < n && k < n && j != k && c < Slice(m) && d < Slice(m)
    ensures Tested(j, m, c) != Tested(k, m, d)
  {
    TestedPlace(j, m, c);
    TestedPlace(k, m, d);
    var w := Slice(m);
    if j < k { Apart(j, k, w, c, Pow2(m)); } else { Apart(k, j, w, d, Pow2(m)); }
    if j == 0 || k == 0 { MulMonotone(w, 1, j + k); }
    MulMonotone(w, j + 1, Pow2(m));
    MulMonotone(w, k + 1, Pow2(m));
  }

  lemma Apart(j: nat, k: nat, w: nat, c: nat, p: nat)
    requires j < k < p && c < w
    ensures j * w + c < k * w <= p * w - w
  {
    MulMonotone(w, j + 1, k);
    MulMonotone(w, k + 1, p);
  }

  /** The bound is sharp: one clock later a core reaches its right neighbour's first nonce. */
  lemma SliceExhausted(m: nat, k: nat)
    requires m <= 64 && k + 1 < Pow2(m)
    ensures Tested(k, m, Slice(m)) == Tested(k + 1, m, 0)
  {
    TestedPlace(k, m, Slice(m));
    TestedPlace(k + 1, m, 0);
    assert (k + 1) * Slice(m) == k * Slice(m) + Slice(m);
  }

  /** The package comment says the top m bits of a nonce are the core index. That holds from
      the second clock on; the first nonce of a core is the last of its left neighbour's
      slice, so with more than one core its top bits name the wrong core. */
  lemma TopBitsAreIndex(m: nat, k: nat, c: nat)
    requires m <= 64 && k < Pow2(m) && c < Slice(m)
    ensures Tested(k, m, c) / Slice(m) == k <==> c >= 1 || m == 0
  {
    hide Tested, Slice;
    TestedPlace(k, m, c);
    var w := Slice(m);
    if c >= 1 {
      QuotientUnique(Tested(k, m, c), w, k, c - 1);
    } else if k == 0 {
      LastOf(w, Pow2(m));
      assert m > 0 ==> Pow2(m) > 1;
    } else {
      LastOf(w, k);
      assert m > 0;
    }
  }

  lemma LastOf(w: nat, k: nat)
    requires w > 0 && k > 0
    ensures k * w - 1 >= 0 && (k * w - 1) / w == k - 1
  {
    Distribute(w, k - 1, 1);
    QuotientUnique(k * w - 1, w, k - 1, w - 1);
  }
}
