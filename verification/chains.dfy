/** Pieces written back to back, each where the previous one ended: the
    shape of the directory loop of exif_write_apps, stated for any writer
    of pieces. When every piece written from an even position has a known
    even length, piece `k` sits at the sum of the lengths before it.
 */
module Chains {
  import opened Outcomes
  import opened Bytes

  /** Pieces `i` up to `n`, piece `j` written at the position where piece
      `j - 1` ended; the first failure stops the chain. */
  function Chain(n: nat, i: nat, pos: nat, piece: (nat, nat) -> Result<seq<byte>>): Result<seq<byte>>
    requires i <= n
    decreases n - i
  {
    if i == n then Ok([])
    else
      var w :- piece(i, pos);
      var rest :- Chain(n, i + 1, pos + |w|, piece);
      Ok(w + rest)
  }

  /** Piece `j` written from `p`, if it is written, has length `size(j)`. */
  predicate SizedAt(piece: (nat, nat) -> Result<seq<byte>>, size: nat -> nat, j: nat, p: nat) {
    piece(j, p).Ok? ==> |piece(j, p).value| == size(j)
  }

  /** Every piece written from an even position has length `size(j)`, and
      every size is even. */
  ghost predicate Sized(n: nat, piece: (nat, nat) -> Result<seq<byte>>, size: nat -> nat) {
    && (forall j: nat :: j < n ==> size(j) % 2 == 0)
    && (forall j: nat, p: nat :: j < n && p % 2 == 0 ==> SizedAt(piece, size, j, p))
  }

  /** The bytes pieces `i` up to `k` occupy. */
  function Total(size: nat -> nat, i: nat, k: nat): nat
    requires i <= k
    decreases k - i
  {
    if i == k then 0 else size(i) + Total(size, i + 1, k)
  }

  /** Where piece `k` starts when piece `i` starts at `pos`. */
  function StartOf(size: nat -> nat, i: nat, k: nat, pos: nat): nat
    requires i <= k
    decreases k - i
  {
    if i == k then pos else StartOf(size, i + 1, k, pos + size(i))
  }

  lemma {:induction false} StartOfTotal(size: nat -> nat, i: nat, k: nat, pos: nat)
    requires i <= k
    ensures StartOf(size, i, k, pos) == pos + Total(size, i, k)
    decreases k - i
  {
    if i < k {
      StartOfTotal(size, i + 1, k, pos + size(i));
    }
  }

  /** Totals add up. */
  lemma {:induction false} TotalSplit(size: nat -> nat, i: nat, j: nat, k: nat)
    requires i <= j <= k
    ensures Total(size, i, k) == Total(size, i, j) + Total(size, j, k)
    decreases j - i
  {
    if i < j {
      TotalSplit(size, i + 1, j, k);
    }
  }

  lemma Joined(w: seq<byte>, r: seq<byte>, f: nat, x: nat)
    requires |w| == f
    ensures |w + r| == f + |r|
    ensures x <= |r| ==> (w + r)[f + x..] == r[x..]
  {
  }

  /** One piece written: the chain is that piece, then the chain of the
      rest from an even position again. */
  lemma ChainStep(n: nat, i: nat, pos: nat, piece: (nat, nat) -> Result<seq<byte>>, size: nat -> nat)
    requires i < n && pos % 2 == 0 && Sized(n, piece, size) && Chain(n, i, pos, piece).Ok?
    ensures piece(i, pos).Ok? && |piece(i, pos).value| == size(i)
    ensures (pos + size(i)) % 2 == 0
    ensures Chain(n, i + 1, pos + size(i), piece).Ok?
    ensures Chain(n, i, pos, piece).value == piece(i, pos).value + Chain(n, i + 1, pos + size(i), piece).value
  {
    assert SizedAt(piece, size, i, pos);
  }

  /** The chain from piece `i` holds, from offset Total(i, k) on, the chain
      from piece `k` written where piece `k` starts. */
  lemma {:induction false} ChainFrom(n: nat, i: nat, pos: nat, piece: (nat, nat) -> Result<seq<byte>>, size: nat -> nat, k: nat)
    requires i <= k <= n && pos % 2 == 0 && Sized(n, piece, size) && Chain(n, i, pos, piece).Ok?
    ensures StartOf(size, i, k, pos) % 2 == 0
    ensures Chain(n, k, StartOf(size, i, k, pos), piece).Ok?
    ensures Total(size, i, k) <= |Chain(n, i, pos, piece).value|
    ensures Chain(n, i, pos, piece).value[Total(size, i, k)..] == Chain(n, k, StartOf(size, i, k, pos), piece).value
    decreases k - i
  {
    if i < k {
      ChainStep(n, i, pos, piece, size);
      ChainFrom(n, i + 1, pos + size(i), piece, size, k);
      Joined(piece(i, pos).value, Chain(n, i + 1, pos + size(i), piece).value, size(i), Total(size, i + 1, k));
    }
  }

  /** The chain takes the sum of the sizes. */
  lemma {:induction false} ChainLength(n: nat, i: nat, pos: nat, piece: (nat, nat) -> Result<seq<byte>>, size: nat -> nat)
    requires i <= n && pos % 2 == 0 && Sized(n, piece, size) && Chain(n, i, pos, piece).Ok?
    ensures |Chain(n, i, pos, piece).value| == Total(size, i, n)
    decreases n - i
  {
    if i < n {
      ChainStep(n, i, pos, piece, size);
      ChainLength(n, i + 1, pos + size(i), piece, size);
      Joined(piece(i, pos).value, Chain(n, i + 1, pos + size(i), piece).value, size(i), 0);
    }
  }

  /** Piece `k` is written, at its start, and occupies the bytes from
      Total(i, k) on. */
  lemma ChainAt(n: nat, i: nat, pos: nat, piece: (nat, nat) -> Result<seq<byte>>, size: nat -> nat, k: nat)
    requires i <= k < n && pos % 2 == 0 && Sized(n, piece, size) && Chain(n, i, pos, piece).Ok?
    ensures piece(k, StartOf(size, i, k, pos)).Ok?
    ensures Total(size, i, k) + size(k) <= |Chain(n, i, pos, piece).value|
    ensures Chain(n, i, pos, piece).value[Total(size, i, k)..Total(size, i, k) + size(k)]
         == piece(k, StartOf(size, i, k, pos)).value
  {
    var at := StartOf(size, i, k, pos);
    ChainFrom(n, i, pos, piece, size, k);
    ChainStep(n, k, at, piece, size);
    var whole := Chain(n, i, pos, piece).value;
    var t := Total(size, i, k);
    var w := piece(k, at).value;
    var rest := Chain(n, k + 1, at + size(k), piece).value;
    assert whole[t..] == w + rest;
    assert whole[t..t + size(k)] == whole[t..][..size(k)];
    assert (w + rest)[..size(k)] == w;
  }

  /** `w` is found in `t` from offset `h` on: its first byte at `h`, the
      rest from `h + 1`. */
  predicate At(t: seq<byte>, h: nat, w: seq<byte>)
    decreases |w|
  {
    if |w| == 0 then h <= |t| else h < |t| && t[h] == w[0] && At(t, h + 1, w[1..])
  }

  /** Being found at `h` is being the slice of `t` from `h`. */
  lemma {:induction false} AtSlice(t: seq<byte>, h: nat, w: seq<byte>)
    ensures At(t, h, w) <==> h + |w| <= |t| && t[h..h + |w|] == w
    decreases |w|
  {
    if |w| > 0 {
      AtSlice(t, h + 1, w[1..]);
      if h + |w| <= |t| {
        assert t[h..h + |w|] == [t[h]] + t[h + 1..h + 1 + |w[1..]|];
        assert w == [w[0]] + w[1..];
      }
    }
  }

  /** A slice of `t` is found where it was cut. */
  lemma SliceAt(t: seq<byte>, h: nat, w: seq<byte>)
    requires h + |w| <= |t| && t[h..h + |w|] == w
    ensures At(t, h, w)
  {
    AtSlice(t, h, w);
  }

  /** What is found in a part is found in the whole, shifted by where the
      part sits. */
  lemma AtAt(t: seq<byte>, h: nat, u: seq<byte>, x: nat, w: seq<byte>)
    requires At(t, h, u) && At(u, x, w)
    ensures At(t, h + x, w)
  {
    AtSlice(t, h, u);
    AtSlice(u, x, w);
    forall i | 0 <= i < |w| ensures t[h + x..h + x + |w|][i] == w[i] {
      assert u[x..x + |w|][i] == w[i];
      assert t[h..h + |u|][x + i] == u[x + i];
    }
    assert t[h + x..h + x + |w|] == w;
    AtSlice(t, h + x, w);
  }

  /** The second of four joined parts sits after the first. */
  lemma AtSecond(a: seq<byte>, b: seq<byte>, c: seq<byte>, d: seq<byte>)
    ensures At(a + b + c + d, |a|, b)
  {
    assert (a + b + c + d)[|a|..|a| + |b|] == b;
    AtSlice(a + b + c + d, |a|, b);
  }
}
