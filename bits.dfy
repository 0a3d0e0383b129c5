/**
 * Fixed-width unsigned integers, bit fields and little-endian packing.
 *
 * The decoder works on unsigned values only, so a right shift `w >> n` is
 * `w / 2^n` and a mask `& (2^m - 1)` is `% 2^m`; both are written that way here.
 */
module Bits {

  type byte = x: int | 0 <= x < 0x100
  type u16 = x: int | 0 <= x < 0x1_0000
  type u32 = x: int | 0 <= x < 0x1_0000_0000
  type u64 = x: int | 0 <= x < 0x1_0000_0000_0000_0000

  /** A slice of a slice is a slice of the original. */
  lemma SubSlice<T>(s: seq<T>, lo: nat, hi: nat, i: nat, j: nat)
    requires lo <= hi <= |s| && i <= j <= hi - lo
    ensures s[lo..hi][i..j] == s[lo + i..lo + j]
  {
    assert |s[lo..hi][i..j]| == j - i == |s[lo + i..lo + j]|;
    forall k | 0 <= k < j - i
      ensures s[lo..hi][i..j][k] == s[lo + i..lo + j][k]
    {
    }
  }

  /** A slice of a suffix is a slice of the original. */
  lemma DropSlice<T>(s: seq<T>, d: nat, lo: nat, hi: nat)
    requires d <= lo <= hi <= |s|
    ensures s[d..][lo - d..hi - d] == s[lo..hi]
  {
    assert |s[d..][lo - d..hi - d]| == hi - lo;
    forall k | 0 <= k < hi - lo
      ensures s[d..][lo - d..hi - d][k] == s[lo..hi][k]
    {
    }
  }

  function Pow2(n: nat): (p: nat)
    ensures p >= 1
  {
    if n == 0 then 1 else 2 * Pow2(n - 1)
  }

  /** The powers of two the decoder's shifts and masks use. */
  lemma Pow2Values()
    ensures Pow2(2) == 4 && Pow2(3) == 8 && Pow2(4) == 16 && Pow2(5) == 32
    ensures Pow2(6) == 64 && Pow2(8) == 0x100 && Pow2(11) == 0x800
    ensures Pow2(16) == 0x1_0000 && Pow2(24) == 0x100_0000 && Pow2(32) == 0x1_0000_0000
    ensures Pow2(40) == 0x100_0000_0000 && Pow2(48) == 0x1_0000_0000_0000
  {
  }

  lemma {:induction false} Pow2Add(a: nat, b: nat)
    ensures Pow2(a + b) == Pow2(a) * Pow2(b)
  {
    if a > 0 {
      Pow2Add(a - 1, b);
      assert Pow2(a + b) == 2 * Pow2(a - 1 + b);
      MulAssoc(2, Pow2(a - 1), Pow2(b));
    }
  }

  /** `(w >> lo) & (2^width - 1)`: the `width`-bit field of `w` starting at bit `lo`. */
  function BitField(w: nat, lo: nat, width: nat): (r: nat)
    ensures r < Pow2(width)
  {
    (w / Pow2(lo)) % Pow2(width)
  }

  /**
   * Little-endian concatenation of `width`-bit fields: s[0] occupies the lowest
   * `width` bits, s[1] the next ones, and so on.
   */
  function Pack(s: seq<nat>, width: nat): (n: nat)
    requires forall i :: 0 <= i < |s| ==> s[i] < Pow2(width)
  {
    if |s| == 0 then 0 else s[0] + Pow2(width) * Pack(s[1..], width)
  }

  /** `|s|` fields of `width` bits fit in `width * |s|` bits. */
  lemma {:induction false} PackBound(s: seq<nat>, width: nat)
    requires forall i :: 0 <= i < |s| ==> s[i] < Pow2(width)
    ensures Pack(s, width) < Pow2(width * |s|)
  {
    if |s| > 0 {
      var tail, n := s[1..], |s| - 1;
      assert forall i :: 0 <= i < n ==> tail[i] == s[i + 1];
      PackBound(tail, width);
      Pow2Add(width, width * n);
      assert width * |s| == width + width * n;
      PlaceBound(s[0], Pack(tail, width), Pow2(width), Pow2(width * n));
    }
  }

  /** The unsigned value of a little-endian byte string (what BinaryReader assembles). */
  function LittleEndian(s: seq<byte>): (r: nat)
    ensures r < Pow2(8 * |s|)
  {
    PackBound(s, 8);
    Pack(s, 8)
  }

  /** Unfolds one field of `Pack`. */
  lemma PackCons(s: seq<nat>, width: nat)
    requires forall i :: 0 <= i < |s| ==> s[i] < Pow2(width)
    requires |s| > 0
    ensures Pack(s, width) == s[0] + Pow2(width) * Pack(s[1..], width)
  {}

  // Arithmetic facts, each stated without context so that the solver's
  // non-linear reasoning stays cheap.

  lemma MulLe(a: int, b: int, c: int)
    requires a <= b && c >= 0
    ensures a * c <= b * c
  {}

  lemma MulNat(a: nat, b: nat)
    ensures a * b >= 0
  {}

  lemma Distrib(p: int, r: int, b: int, q: int)
    ensures p * (r + b * q) == p * r + b * (p * q)
  {}

  lemma MulSucc(a: int, b: int)
    ensures a * (b + 1) == a * b + a
  {
  }

  lemma MulAssoc(a: int, b: int, c: int)
    ensures (a * b) * c == a * (b * c)
  {}

  /** A digit below `p` placed under a multiple of `p` stays below `p * q`. */
  lemma PlaceBound(lo: nat, hi: nat, p: nat, q: nat)
    requires lo < p && hi < q
    ensures lo + p * hi < p * q
  {
    MulLe(hi, q - 1, p);
    assert (q - 1) * p == q * p - p;
  }

  lemma DivModUnique(n: int, d: int, q: int, r: int)
    requires d > 0 && 0 <= r < d && n == q * d + r
    ensures n / d == q && n % d == r
  {
    var q', r' := n / d, n % d;
    assert n == q' * d + r';
    if q' > q {
      MulLe(q + 1, q', d);
      assert false;
    } else if q' < q {
      MulLe(q' + 1, q, d);
      assert false;
    }
  }

  lemma DivDiv(x: int, a: int, b: int)
    requires x >= 0 && a > 0 && b > 0
    ensures x / (a * b) == (x / a) / b
  {
    var q: int, r: int := x / a, x % a;
    var q2: int, r2: int := q / b, q % b;
    assert x == a * q + r;
    assert q == b * q2 + r2;
    assert x == (a * b) * q2 + (a * r2 + r);
    MulLe(r2, b - 1, a);
    DivModUnique(x, a * b, q2, a * r2 + r);
  }

  lemma ModAddMultiple(x: int, m: int, y: int)
    requires m > 0 && x >= 0 && y >= 0
    ensures (x + m * y) % m == x % m
  {
    DivModUnique(x + m * y, m, x / m + y, x % m);
  }

  /** Dropping the low digit `x < p`, then `q` more: `(x + p*y) / (p*q) == y / q`. */
  lemma DivPlace(n: int, x: int, p: int, y: int, q: int)
    requires 0 <= x < p && y >= 0 && q > 0 && n == x + p * y
    ensures n / (p * q) == y / q
  {
    DivModUnique(x + p * y, p, y, x);
    DivDiv(x + p * y, p, q);
  }

  /** The field at bit `lo` of `x + 2^width * y` when it lies below bit `width`. */
  lemma ShiftMaskHead(n: int, x: int, y: int, p: int, pl: int, pf: int, pg: int)
    requires x >= 0 && y >= 0 && pl > 0 && pf > 0 && pg > 0 && p == pl * (pf * pg) && n == x + p * y
    ensures (n / pl) % pf == (x / pl) % pf
  {
    var h: int, l: int := x / pl, x % pl;
    var t: int := pf * (pg * y);
    assert p * y == pl * t;
    assert x + p * y == (h + t) * pl + l;
    DivModUnique(x + p * y, pl, h + t, l);
    ModAddMultiple(h, pf, pg * y);
  }

  /** Shifting a packed word right by `m` whole fields drops the first `m` fields. */
  lemma {:induction false} PackShift(s: seq<nat>, width: nat, m: nat)
    requires forall i :: 0 <= i < |s| ==> s[i] < Pow2(width)
    requires m <= |s|
    ensures Pack(s, width) / Pow2(width * m) == Pack(s[m..], width)
  {
    if m == 0 {
      assert s[0..] == s;
    } else {
      var rest := Pack(s[1..], width);
      assert rest / Pow2(width * (m - 1)) == Pack(s[m..], width) by {
        PackShift(s[1..], width, m - 1);
        assert s[1..][m - 1..] == s[m..];
      }
      assert Pow2(width * m) == Pow2(width) * Pow2(width * (m - 1)) by {
        Pow2Add(width, width * (m - 1));
        assert width * m == width + width * (m - 1);
      }
      PackCons(s, width);
      DivPlace(Pack(s, width), s[0], Pow2(width), rest, Pow2(width * (m - 1)));
    }
  }

  /** A field lying inside the first packed element is read from that element. */
  lemma FieldOfHead(s: seq<nat>, width: nat, lo: nat, fw: nat)
    requires forall i :: 0 <= i < |s| ==> s[i] < Pow2(width)
    requires |s| > 0 && lo + fw <= width
    ensures BitField(Pack(s, width), lo, fw) == BitField(s[0], lo, fw)
  {
    PackCons(s, width);
    Pow2Split(width, lo, fw);
    ShiftMaskHead(Pack(s, width), s[0], Pack(s[1..], width), Pow2(width), Pow2(lo), Pow2(fw), Pow2(width - lo - fw));
  }

  /**
   * Field extraction inverts packing: the `fw`-bit field at bit `width*m + lo`
   * of a packed word is the field at bit `lo` of element `m`.
   */
  lemma BitFieldOfPack(s: seq<nat>, width: nat, m: nat, lo: nat, fw: nat)
    requires forall i :: 0 <= i < |s| ==> s[i] < Pow2(width)
    requires m < |s| && lo + fw <= width
    ensures BitField(Pack(s, width), width * m + lo, fw) == BitField(s[m], lo, fw)
  {
    PackShift(s, width, m);
    MulNat(width, m);
    Pow2Add(width * m, lo);
    DivDiv(Pack(s, width), Pow2(width * m), Pow2(lo));
    FieldOfHead(s[m..], width, lo, fw);
  }

  /** Every field of a packed word is the element packed there (round trip). */
  lemma UnpackPack(s: seq<nat>, width: nat, k: nat)
    requires forall i :: 0 <= i < |s| ==> s[i] < Pow2(width)
    requires k < |s|
    ensures BitField(Pack(s, width), width * k, width) == s[k]
  {
    BitFieldOfPack(s, width, k, 0, width);
    DivModUnique(s[k], Pow2(width), 0, s[k]);
  }

  /** Appending a byte adds it at the next 8-bit position: `num += b << (8 * n)`. */
  lemma {:induction false} LittleEndianSnoc(s: seq<byte>, b: byte)
    ensures LittleEndian(s + [b]) == LittleEndian(s) + b * Pow2(8 * |s|)
  {
    if |s| == 0 {
      assert [] + [b] == [b];
      PackCons([b], 8);
      assert [b][1..] == [];
    } else {
      var n := |s|;
      var r, q := LittleEndian(s[1..]), Pow2(8 * (n - 1));
      assert (s + [b])[1..] == s[1..] + [b];
      LittleEndianSnoc(s[1..], b);
      assert LittleEndian(s[1..] + [b]) == r + b * q;
      PackCons(s + [b], 8);
      assert LittleEndian(s + [b]) == s[0] + 256 * (r + b * q);
      PackCons(s, 8);
      assert LittleEndian(s) == s[0] + 256 * r;
      Pow2Add(8, 8 * (n - 1));
      assert 8 + 8 * (n - 1) == 8 * n;
      assert Pow2(8 * n) == 256 * q;
      Distrib(256, r, b, q);
    }
  }

  /** A quotient lies between `lo` and `hi` when the dividend lies between `lo * d` and `hi * d`. */
  lemma DivBetween(n: int, d: int, lo: int, hi: int)
    requires d > 0 && lo * d <= n <= hi * d
    ensures lo <= n / d <= hi
  {
    var q := n / d;
    assert n == q * d + n % d;
    if q < lo {
      MulLe(q + 1, lo, d);
      assert false;
    } else if q > hi {
      MulLe(hi + 1, q, d);
      assert false;
    }
  }

  lemma DivMonotone(n: int, m: int, d: int)
    requires d > 0 && n <= m
    ensures n / d <= m / d
  {
    var q, q' := n / d, m / d;
    assert n == q * d + n % d;
    assert m == q' * d + m % d;
    if q' < q {
      MulLe(q' + 1, q, d);
      assert false;
    }
  }

  lemma LittleEndian2(b0: byte, b1: byte)
    ensures LittleEndian([b0, b1]) == b0 + 0x100 * b1
  {
    assert LittleEndian([b1]) == b1 by {
      PackCons([b1], 8);
      assert [b1][1..] == [];
    }
    assert LittleEndian([b0, b1]) == b0 + Pow2(8) * LittleEndian([b1]) by {
      PackCons([b0, b1], 8);
      assert [b0, b1][1..] == [b1];
    }
    Pow2Values();
  }

  lemma LittleEndian4(b0: byte, b1: byte, b2: byte, b3: byte)
    ensures LittleEndian([b0, b1, b2, b3]) == b0 + 0x100 * b1 + 0x1_0000 * b2 + 0x100_0000 * b3
  {
    var v := LittleEndian([b2, b3]);
    LittleEndian2(b2, b3);
    assert LittleEndian([b1, b2, b3]) == b1 + Pow2(8) * v by {
      PackCons([b1, b2, b3], 8);
      assert [b1, b2, b3][1..] == [b2, b3];
    }
    assert LittleEndian([b0, b1, b2, b3]) == b0 + Pow2(8) * LittleEndian([b1, b2, b3]) by {
      PackCons([b0, b1, b2, b3], 8);
      assert [b0, b1, b2, b3][1..] == [b1, b2, b3];
    }
    Pow2Values();
  }

  lemma LittleEndian6(b0: byte, b1: byte, b2: byte, b3: byte, b4: byte, b5: byte)
    ensures LittleEndian([b0, b1, b2, b3, b4, b5])
            == b0 + 0x100 * b1 + 0x1_0000 * b2 + 0x100_0000 * b3 + 0x1_0000_0000 * b4 + 0x100_0000_0000 * b5
  {
    var v := LittleEndian([b2, b3, b4, b5]);
    LittleEndian4(b2, b3, b4, b5);
    assert LittleEndian([b1, b2, b3, b4, b5]) == b1 + Pow2(8) * v by {
      PackCons([b1, b2, b3, b4, b5], 8);
      assert [b1, b2, b3, b4, b5][1..] == [b2, b3, b4, b5];
    }
    assert LittleEndian([b0, b1, b2, b3, b4, b5]) == b0 + Pow2(8) * LittleEndian([b1, b2, b3, b4, b5]) by {
      PackCons([b0, b1, b2, b3, b4, b5], 8);
      assert [b0, b1, b2, b3, b4, b5][1..] == [b1, b2, b3, b4, b5];
    }
    Pow2Values();
  }

  // Little-endian words at an offset, as `BinaryReader` assembles them: the
  // byte at the lower position is the less significant one.

  function U16At(s: seq<byte>, o: nat): (v: u16)
    requires o + 2 <= |s|
  {
    s[o] as int + 0x100 * s[o + 1] as int
  }

  function U32At(s: seq<byte>, o: nat): (v: u32)
    requires o + 4 <= |s|
  {
    s[o] as int + 0x100 * s[o + 1] as int + 0x1_0000 * s[o + 2] as int + 0x100_0000 * s[o + 3] as int
  }

  /** Six bytes, as the BC3 alpha index field is assembled. */
  function U48At(s: seq<byte>, o: nat): (v: u64)
    requires o + 6 <= |s|
    ensures v < 0x1_0000_0000_0000
  {
    s[o] as int + 0x100 * s[o + 1] as int + 0x1_0000 * s[o + 2] as int + 0x100_0000 * s[o + 3] as int
    + 0x1_0000_0000 * s[o + 4] as int + 0x100_0000_0000 * s[o + 5] as int
  }

  /** The words at an offset are the little-endian values of the bytes there. */
  lemma U16AtLittleEndian(s: seq<byte>, o: nat)
    requires o + 2 <= |s|
    ensures U16At(s, o) == LittleEndian(s[o..o + 2])
  {
    assert s[o..o + 2] == [s[o], s[o + 1]];
    LittleEndian2(s[o], s[o + 1]);
  }

  lemma U32AtLittleEndian(s: seq<byte>, o: nat)
    requires o + 4 <= |s|
    ensures U32At(s, o) == LittleEndian(s[o..o + 4])
  {
    assert s[o..o + 4] == [s[o], s[o + 1], s[o + 2], s[o + 3]];
    LittleEndian4(s[o], s[o + 1], s[o + 2], s[o + 3]);
  }

  lemma U48AtLittleEndian(s: seq<byte>, o: nat)
    requires o + 6 <= |s|
    ensures U48At(s, o) == LittleEndian(s[o..o + 6])
  {
    assert s[o..o + 6] == [s[o], s[o + 1], s[o + 2], s[o + 3], s[o + 4], s[o + 5]];
    LittleEndian6(s[o], s[o + 1], s[o + 2], s[o + 3], s[o + 4], s[o + 5]);
  }

  /** Splits 2^n at bits `lo` and `lo + fw`. */
  lemma Pow2Split(n: nat, lo: nat, fw: nat)
    requires lo + fw <= n
    ensures Pow2(n) == Pow2(lo) * (Pow2(fw) * Pow2(n - lo - fw))
  {
    Pow2Add(lo, n - lo);
    assert lo + (n - lo) == n;
    Pow2Add(fw, n - lo - fw);
    assert fw + (n - lo - fw) == n - lo;
  }

  /** Every field of an all-ones word is all ones. */
  lemma BitFieldOfAllOnes(n: nat, lo: nat, fw: nat)
    requires lo + fw <= n
    ensures BitField(Pow2(n) - 1, lo, fw) == Pow2(fw) - 1
  {
    Pow2Split(n, lo, fw);
    AllOnesArith(Pow2(n), Pow2(lo), Pow2(fw), Pow2(n - lo - fw));
  }

  lemma AllOnesArith(p: int, pl: int, pf: int, pg: int)
    requires pl > 0 && pf > 0 && pg > 0 && p == pl * (pf * pg)
    ensures ((p - 1) / pl) % pf == pf - 1
  {
    var x: int := pf * pg;
    assert p - 1 == (x - 1) * pl + (pl - 1);
    DivModUnique(p - 1, pl, x - 1, pl - 1);
    assert x - 1 == (pg - 1) * pf + (pf - 1);
    DivModUnique(x - 1, pf, pg - 1, pf - 1);
  }
}
