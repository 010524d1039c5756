/** Byte sequences, little-endian integers and the byte-order conversion
    between a TIFF file and the host.

    The model keeps every tag payload in one fixed host order, little-endian
    (the order `ExifTag::toLong` assumes). A file in "II" order already
    matches it; a file in "MM" order stores each multi-byte unit reversed.
 */
module Bytes {

  type byte = b: int | 0 <= b < 0x100

  const TWO16: nat := 0x1_0000
  const TWO32: nat := 0x1_0000_0000

  function Zeros(n: nat): (z: seq<byte>)
    ensures |z| == n
    ensures forall i :: 0 <= i < n ==> z[i] == 0
  {
    seq(n, _ => 0)
  }

  function Pow256(n: nat): (p: nat)
    ensures p > 0
  {
    if n == 0 then 1 else 0x100 * Pow256(n - 1)
  }

  /** `v % 0x100`, computed by repeated subtraction so that unfolding it
      stays in linear arithmetic. */
  function LowByte(v: nat): (b: byte)
    decreases v
  {
    if v < 0x100 then v else LowByte(v - 0x100)
  }

  /** `v / 0x100`, computed the same way. */
  function HighPart(v: nat): (h: nat)
    decreases v
  {
    if v < 0x100 then 0 else 1 + HighPart(v - 0x100)
  }

  /** The two parts recombine to the value, and are the quotient and
      remainder by 0x100. */
  lemma {:induction false} LowHighSplit(v: nat)
    ensures v == LowByte(v) + 0x100 * HighPart(v)
    ensures LowByte(v) == v % 0x100 && HighPart(v) == v / 0x100
    decreases v
  {
    if v >= 0x100 {
      LowHighSplit(v - 0x100);
    }
  }

  /** The `n` low-order bytes of `v`, least significant first. Higher bytes
      are dropped, as a C conversion to an `n`-byte unsigned type does. */
  function LittleEndian(v: nat, n: nat): (r: seq<byte>)
    ensures |r| == n
    decreases n, v
  {
    if n == 0 then [] else [LowByte(v)] + LittleEndian(HighPart(v), n - 1)
  }

  /** The unsigned value of a little-endian byte run. */
  function LittleValue(s: seq<byte>): (v: nat)
    ensures v < Pow256(|s|)
  {
    if |s| == 0 then 0 else s[0] + 0x100 * LittleValue(s[1..])
  }

  lemma {:induction false} LittleRoundTrip(v: nat, n: nat)
    requires v < Pow256(n)
    ensures LittleValue(LittleEndian(v, n)) == v
  {
    if n > 0 {
      LowHighSplit(v);
      LittleRoundTrip(HighPart(v), n - 1);
      assert LittleEndian(v, n)[1..] == LittleEndian(HighPart(v), n - 1);
    }
  }

  lemma {:induction false} LittleValueRoundTrip(s: seq<byte>)
    ensures LittleEndian(LittleValue(s), |s|) == s
  {
    if |s| > 0 {
      LittleValueRoundTrip(s[1..]);
      LowHighSplit(LittleValue(s));
      assert LittleValue(s) % 0x100 == s[0];
      assert LittleValue(s) / 0x100 == LittleValue(s[1..]);
    }
  }

  lemma LittleValueZeros(n: nat)
    ensures LittleValue(Zeros(n)) == 0
  {
    if n > 0 {
      assert Zeros(n)[1..] == Zeros(n - 1);
      LittleValueZeros(n - 1);
    }
  }

  function Reverse(s: seq<byte>): (r: seq<byte>)
    ensures |r| == |s|
  {
    if |s| == 0 then [] else Reverse(s[1..]) + [s[0]]
  }

  lemma {:induction false} ReverseAt(s: seq<byte>, i: nat)
    requires i < |s|
    ensures Reverse(s)[i] == s[|s| - 1 - i]
    decreases |s|
  {
    if i < |s| - 1 {
      ReverseAt(s[1..], i);
    }
  }

  lemma ReverseOf2(w: seq<byte>)
    requires |w| == 2
    ensures Reverse(w) == [w[1], w[0]]
  {
    assert w[1..][1..] == [];
  }

  lemma ReverseOf4(w: seq<byte>)
    requires |w| == 4
    ensures Reverse(w) == [w[3], w[2], w[1], w[0]]
  {
    ReverseAt(w, 0);
    ReverseAt(w, 1);
    ReverseAt(w, 2);
    ReverseAt(w, 3);
  }

  /** Reverses every consecutive `unit`-byte chunk of `s` (a shorter final
      chunk is reversed as a whole). */
  function SwapUnits(s: seq<byte>, unit: nat): (r: seq<byte>)
    requires unit > 0
    ensures |r| == |s|
    decreases |s|
  {
    if |s| <= unit then Reverse(s) else Reverse(s[..unit]) + SwapUnits(s[unit..], unit)
  }

  /** Converts between file order and host order, one `unit`-byte element
      at a time: the identity for a little-endian file, a per-element byte
      reversal for a big-endian one. The same function serves both
      directions. */
  function Reorder(s: seq<byte>, unit: nat, bigEndian: bool): (r: seq<byte>)
    requires unit > 0
    ensures |r| == |s|
  {
    if bigEndian then SwapUnits(s, unit) else s
  }

  lemma ReverseReverse(s: seq<byte>)
    ensures Reverse(Reverse(s)) == s
  {
    forall i | 0 <= i < |s| ensures Reverse(Reverse(s))[i] == s[i] {
      ReverseAt(Reverse(s), i);
      ReverseAt(s, |s| - 1 - i);
    }
  }

  lemma {:induction false} SwapUnitsInvolution(s: seq<byte>, unit: nat)
    requires unit > 0
    ensures SwapUnits(SwapUnits(s, unit), unit) == s
    decreases |s|
  {
    if |s| <= unit {
      ReverseReverse(s);
    } else {
      var head := Reverse(s[..unit]);
      var tail := SwapUnits(s[unit..], unit);
      var w := head + tail;
      assert SwapUnits(s, unit) == w;
      assert w[..unit] == head;
      assert w[unit..] == tail;
      assert SwapUnits(w, unit) == Reverse(head) + SwapUnits(tail, unit);
      ReverseReverse(s[..unit]);
      SwapUnitsInvolution(s[unit..], unit);
      assert s == s[..unit] + s[unit..];
    }
  }

  /** Converting to host order and back (or back and forth) is the identity. */
  lemma ReorderInvolution(s: seq<byte>, unit: nat, bigEndian: bool)
    requires unit > 0
    ensures Reorder(Reorder(s, unit, bigEndian), unit, bigEndian) == s
  {
    if bigEndian {
      SwapUnitsInvolution(s, unit);
    }
  }

  /** A run converted one way is converted back by the same conversion. */
  lemma ReorderBack(x: seq<byte>, y: seq<byte>, unit: nat, bigEndian: bool)
    requires unit > 0 && x == Reorder(y, unit, bigEndian)
    ensures Reorder(x, unit, bigEndian) == y
  {
    ReorderInvolution(y, unit, bigEndian);
  }

  /** Converting a run whose first part is a whole number of units is
      converting the two parts separately. */
  lemma ReorderConcat(a: seq<byte>, b: seq<byte>, unit: nat, bigEndian: bool)
    requires unit > 0 && |a| % unit == 0
    ensures Reorder(a + b, unit, bigEndian) == Reorder(a, unit, bigEndian) + Reorder(b, unit, bigEndian)
  {
    if bigEndian {
      SwapUnitsConcat(a, b, unit);
    }
  }

  /** Joining two converted runs, the first a whole number of units, gives
      the conversion of the joined run. */
  lemma ReorderJoin(whole: seq<byte>, a: seq<byte>, b: seq<byte>, e: seq<byte>, ea: seq<byte>, eb: seq<byte>,
                    unit: nat, bigEndian: bool)
    requires unit > 0 && |a| % unit == 0 && whole == a + b
    requires ea == Reorder(a, unit, bigEndian) && eb == Reorder(b, unit, bigEndian) && e == ea + eb
    ensures e == Reorder(whole, unit, bigEndian)
  {
    ReorderConcat(a, b, unit, bigEndian);
  }

  lemma SliceSplit(s: seq<byte>, a: nat, b: nat, c: nat)
    requires a <= b <= c <= |s|
    ensures s[a..c] == s[a..b] + s[b..c]
  {
  }

  /** A 16-bit unsigned value stored at `pos` in file order (gbfgetuint16). */
  function Get16(s: seq<byte>, pos: nat, bigEndian: bool): (v: nat)
    requires pos + 2 <= |s|
    ensures v < TWO16
  {
    LittleValue(Reorder(s[pos..pos + 2], 2, bigEndian))
  }

  /** A 32-bit unsigned value stored at `pos` in file order (gbfgetuint32). */
  function Get32(s: seq<byte>, pos: nat, bigEndian: bool): (v: nat)
    requires pos + 4 <= |s|
    ensures v < TWO32
  {
    LittleValue(Reorder(s[pos..pos + 4], 4, bigEndian))
  }

  /** The file-order bytes of the low 16 bits of `v` (gbfputuint16). */
  function Put16(v: nat, bigEndian: bool): (r: seq<byte>)
    ensures |r| == 2
  {
    Reorder(LittleEndian(v, 2), 2, bigEndian)
  }

  /** The file-order bytes of the low 32 bits of `v` (gbfputuint32). */
  function Put32(v: nat, bigEndian: bool): (r: seq<byte>)
    ensures |r| == 4
  {
    Reorder(LittleEndian(v, 4), 4, bigEndian)
  }

  /** In "MM" order the first byte is the most significant, in "II" order the
      last: the two orders TIFF 6.0 section 2 defines for the header. */
  lemma Get16Meaning(s: seq<byte>, pos: nat, bigEndian: bool)
    requires pos + 2 <= |s|
    ensures bigEndian ==> Get16(s, pos, bigEndian) == 0x100 * (s[pos] as int) + s[pos + 1]
    ensures !bigEndian ==> Get16(s, pos, bigEndian) == s[pos] + 0x100 * (s[pos + 1] as int)
  {
    var w := s[pos..pos + 2];
    LittleValueOf2(w);
    ReverseOf2(w);
    LittleValueOf2(Reverse(w));
  }

  lemma Get32Meaning(s: seq<byte>, pos: nat, bigEndian: bool)
    requires pos + 4 <= |s|
    ensures bigEndian ==>
      Get32(s, pos, bigEndian) == 0x100_0000 * (s[pos] as int) + 0x1_0000 * (s[pos + 1] as int)
                                  + 0x100 * (s[pos + 2] as int) + s[pos + 3]
    ensures !bigEndian ==>
      Get32(s, pos, bigEndian) == s[pos] + 0x100 * (s[pos + 1] as int)
                                  + 0x1_0000 * (s[pos + 2] as int) + 0x100_0000 * (s[pos + 3] as int)
  {
    var w := s[pos..pos + 4];
    LittleValueOf4(w);
    ReverseOf4(w);
    LittleValueOf4(Reverse(w));
  }

  lemma LittleValueOf2(w: seq<byte>)
    requires |w| == 2
    ensures LittleValue(w) == w[0] + 0x100 * (w[1] as int)
  {
    assert LittleValue(w[1..][1..]) == 0;
  }

  lemma LittleValueOf4(w: seq<byte>)
    requires |w| == 4
    ensures LittleValue(w) == w[0] + 0x100 * (w[1] as int) + 0x1_0000 * (w[2] as int) + 0x100_0000 * (w[3] as int)
  {
    assert LittleValue(w[1..][1..][1..][1..]) == 0;
    assert LittleValue(w[1..][1..][1..]) == w[3];
    assert LittleValue(w[1..][1..]) == w[2] + 0x100 * (w[3] as int);
  }

  /** Reading back what was written recovers the value (for values that fit). */
  lemma Get16Put16(v: nat, bigEndian: bool, prefix: seq<byte>, suffix: seq<byte>)
    requires v < TWO16
    ensures Get16(prefix + Put16(v, bigEndian) + suffix, |prefix|, bigEndian) == v
  {
    var s := prefix + Put16(v, bigEndian) + suffix;
    assert s[|prefix|..|prefix| + 2] == Put16(v, bigEndian);
    ReorderInvolution(LittleEndian(v, 2), 2, bigEndian);
    LittleRoundTrip(v, 2);
  }

  lemma Get32Put32(v: nat, bigEndian: bool, prefix: seq<byte>, suffix: seq<byte>)
    requires v < TWO32
    ensures Get32(prefix + Put32(v, bigEndian) + suffix, |prefix|, bigEndian) == v
  {
    var s := prefix + Put32(v, bigEndian) + suffix;
    assert s[|prefix|..|prefix| + 4] == Put32(v, bigEndian);
    ReorderInvolution(LittleEndian(v, 4), 4, bigEndian);
    LittleRoundTrip(v, 4);
  }

  /** Converting two runs, the first a whole number of units, is converting
      their concatenation. */
  lemma SwapUnitsConcat(a: seq<byte>, b: seq<byte>, unit: nat)
    requires unit > 0 && |a| % unit == 0
    ensures SwapUnits(a + b, unit) == SwapUnits(a, unit) + SwapUnits(b, unit)
  {
    SwapUnitsConcatK(a, b, unit, |a| / unit);
  }

  lemma {:induction false} SwapUnitsConcatK(a: seq<byte>, b: seq<byte>, unit: nat, k: nat)
    requires unit > 0 && |a| == k * unit
    ensures SwapUnits(a + b, unit) == SwapUnits(a, unit) + SwapUnits(b, unit)
    decreases k
  {
    if k == 0 {
      assert a + b == b;
      assert SwapUnits(a, unit) == [];
    } else if |b| == 0 {
      assert a + b == a;
      assert SwapUnits(b, unit) == [];
    } else {
      var ab := a + b;
      assert |a[unit..]| == (k - 1) * unit;
      assert ab[..unit] == a[..unit];
      assert ab[unit..] == a[unit..] + b;
      assert SwapUnits(ab, unit) == Reverse(a[..unit]) + SwapUnits(a[unit..] + b, unit);
      SwapUnitsConcatK(a[unit..], b, unit, k - 1);
      if k == 1 {
        assert a[unit..] == [];
        assert SwapUnits(a[unit..], unit) == [];
        assert a[..unit] == a;
      } else {
        assert SwapUnits(a, unit) == Reverse(a[..unit]) + SwapUnits(a[unit..], unit);
      }
    }
  }

  /** Single-byte units need no conversion. */
  lemma {:induction false} SwapUnitsOne(s: seq<byte>)
    ensures SwapUnits(s, 1) == s
    decreases |s|
  {
    if |s| > 1 {
      SwapUnitsOne(s[1..]);
      assert s == s[..1] + s[1..];
    }
  }

  /** Reading at a position holding what Put16 wrote recovers the value. */
  lemma Get16At(s: seq<byte>, pos: nat, v: nat, bigEndian: bool)
    requires v < TWO16 && pos + 2 <= |s| && s[pos..pos + 2] == Put16(v, bigEndian)
    ensures Get16(s, pos, bigEndian) == v
  {
    Get16Put16(v, bigEndian, [], []);
    assert Put16(v, bigEndian) == [] + Put16(v, bigEndian) + [];
  }

  lemma Get32At(s: seq<byte>, pos: nat, v: nat, bigEndian: bool)
    requires v < TWO32 && pos + 4 <= |s| && s[pos..pos + 4] == Put32(v, bigEndian)
    ensures Get32(s, pos, bigEndian) == v
  {
    Get32Put32(v, bigEndian, [], []);
    assert Put32(v, bigEndian) == [] + Put32(v, bigEndian) + [];
  }
}
