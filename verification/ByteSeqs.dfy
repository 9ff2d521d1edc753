/** Byte strings, and the few operations on them that every layer shares: clipped slices,
    fixed-size chunks, the zero-extending write of a sparse file, and big-endian integers. */
module ByteSeqs {
  import opened SymbolicArith

  type Byte = x: int | 0 <= x < 256
  type Bytes = seq<Byte>

  type U16 = x: int | 0 <= x < 0x1_0000
  type U32 = x: int | 0 <= x < 0x1_0000_0000
  type I64 = x: int | -0x8000_0000_0000_0000 <= x < 0x8000_0000_0000_0000
  type U64 = x: int | 0 <= x < 0x1_0000_0000_0000_0000

  /** The length of an AES-256 key. */
  const KeyLen := 32

  datatype Option<+T> = None | Some(value: T)

  /** What a parser that already has `done` makes of the rest. */
  function Behind<T>(done: seq<T>, rest: Option<seq<T>>): Option<seq<T>> {
    if rest.None? then None else Some(done + rest.value)
  }

  lemma BehindNothing<T>(rest: Option<seq<T>>)
    ensures Behind([], rest) == rest
  {
    if rest.Some? {
      assert [] + rest.value == rest.value;
    }
  }

  lemma BehindMore<T>(done: seq<T>, x: T, rest: Option<seq<T>>)
    ensures Behind(done, Behind([x], rest)) == Behind(done + [x], rest)
  {
    if rest.Some? {
      assert done + ([x] + rest.value) == done + [x] + rest.value;
    }
  }

  lemma Reassociate(a: Bytes, b: Bytes, c: Bytes)
    ensures a + (b + c) == a + b + c
  {
  }

  /** Bytes from the random number generator. */
  method RandomBytes(n: nat) returns (b: Bytes)
    ensures |b| == n
  {
    assert |Zeros(n)| == n;
    b :| |b| == n;
  }

  /** The bytes of a text in ASCII. */
  function Ascii(s: string): (r: Bytes)
    requires forall i :: 0 <= i < |s| ==> s[i] < 128 as char
    ensures |r| == |s|
  {
    seq(|s|, i requires 0 <= i < |s| => s[i] as int)
  }

  function Zeros(n: nat): (r: Bytes)
    ensures |r| == n
    ensures forall i :: 0 <= i < n ==> r[i] == 0
  {
    seq(n, _ => 0)
  }

  /** The bytes of `s` in [lo, hi), clipped to the length of `s`. */
  function Slice(s: Bytes, lo: nat, hi: nat): Bytes
    requires lo <= hi
  {
    s[Min(lo, |s|)..Min(hi, |s|)]
  }

  /** What a sparse file holds after `d` was written at offset `off`: a gap reads as zeros. */
  function Splice(s: Bytes, off: nat, d: Bytes): (r: Bytes)
    ensures |r| == Max(|s|, off + |d|)
    ensures forall i :: 0 <= i < |r| ==>
      r[i] == if off <= i < off + |d| then d[i - off] else if i < |s| then s[i] else 0
  {
    seq(Max(|s|, off + |d|),
        i requires 0 <= i < Max(|s|, off + |d|) =>
          if off <= i < off + |d| then d[i - off] else if i < |s| then s[i] else 0)
  }

  /** What a sparse file holds after its length was set to `n`. */
  function Resize(s: Bytes, n: nat): (r: Bytes)
    ensures |r| == n
    ensures forall i :: 0 <= i < n ==> r[i] == if i < |s| then s[i] else 0
  {
    if n <= |s| then s[..n] else s + Zeros(n - |s|)
  }

  /** The `k`-th chunk of `s` when cut into pieces of `size` bytes; the last one may be short. */
  function Chunk(s: Bytes, size: nat, k: nat): Bytes {
    Slice(s, Times(k, size), Times(k, size) + size)
  }

  lemma SubSlice(s: Bytes, a: nat, b: nat, c: nat, d: nat)
    requires a <= b <= |s| && c <= d <= b - a
    ensures s[a..b][c..d] == s[a + c..a + d]
  {
    assert |s[a..b][c..d]| == |s[a + c..a + d]|;
    forall i | 0 <= i < d - c ensures s[a..b][c..d][i] == s[a + c..a + d][i] {
      assert s[a..b][c + i] == s[a + c + i];
    }
  }

  lemma SliceClipped(s: Bytes, lo: nat, hi: nat, end: nat)
    requires lo <= end <= hi && end == Min(hi, |s|)
    ensures Slice(s, lo, hi) == s[lo..end]
  {
  }

  /** A slice that ends inside the first `n` bytes reads the same there. */
  lemma SlicePrefix(s: Bytes, n: nat, lo: nat, hi: nat)
    requires lo <= hi <= n <= |s|
    ensures Slice(s[..n], lo, hi) == Slice(s, lo, hi)
  {
    SubSlice(s, 0, n, lo, hi);
    assert s[0..n] == s[..n];
  }

  lemma SliceDrop(s: Bytes, n: nat, lo: nat, hi: nat)
    requires lo <= hi && n <= |s|
    ensures Slice(s, n + lo, n + hi) == Slice(s[n..], lo, hi)
  {
    var m := |s| - n;
    SubSlice(s, n, |s|, Min(lo, m), Min(hi, m));
    assert s[n..|s|] == s[n..];
  }

  lemma SliceAcross(s: Bytes, v: Bytes, lo: nat, hi: nat)
    requires lo <= |s| <= hi
    ensures Slice(s + v, lo, hi) == Slice(s, lo, hi) + Slice(v, 0, hi - |s|)
  {
    var all, end := s + v, Min(hi, |s| + |v|);
    assert all[lo..end] == all[lo..|s|] + all[|s|..end];
    assert all[lo..|s|] == s[lo..|s|];
    assert all[|s|..end] == v[0..end - |s|];
  }

  lemma SlicePast(s: Bytes, v: Bytes, lo: nat, hi: nat)
    requires |s| <= lo <= hi
    ensures Slice(s, lo, hi) == [] && Slice(s + v, lo, hi) == Slice(v, lo - |s|, hi - |s|)
  {
    SliceDrop(s + v, |s|, lo - |s|, hi - |s|);
    assert (s + v)[|s|..] == v;
  }

  // --- slices of a written file ------------------------------------------------

  lemma SliceBefore(s: Bytes, off: nat, d: Bytes, lo: nat, hi: nat)
    requires lo <= hi <= off && hi <= |s|
    ensures Slice(Splice(s, off, d), lo, hi) == Slice(s, lo, hi)
  {
  }

  lemma SliceGap(s: Bytes, off: nat, d: Bytes, lo: nat, hi: nat)
    requires |s| <= lo <= hi <= off
    ensures Slice(Splice(s, off, d), lo, hi) == Zeros(hi - lo)
  {
  }

  lemma SliceInside(s: Bytes, off: nat, d: Bytes, lo: nat, hi: nat)
    requires off <= lo <= hi && (hi <= off + |d| || |s| <= off + |d|)
    ensures Slice(Splice(s, off, d), lo, hi) == Slice(d, lo - off, hi - off)
  {
  }

  lemma SliceAfter(s: Bytes, off: nat, d: Bytes, lo: nat, hi: nat)
    requires off + |d| <= lo <= hi && off + |d| <= |s|
    ensures Slice(Splice(s, off, d), lo, hi) == Slice(s, lo, hi)
  {
  }

  /** A window [lo, hi) on a written file is the old window with the part [at, at + len) of the data
      that falls into it written over. */
  lemma SliceMerge(s: Bytes, off: nat, d: Bytes, lo: nat, hi: nat, at: nat, len: nat)
    requires lo <= at && at + len <= hi && off <= at && at + len <= off + |d| && len > 0
    requires at == lo || at == off
    requires at + len == hi || at + len == off + |d|
    ensures Slice(Splice(s, off, d), lo, hi) == Splice(Slice(s, lo, hi), at - lo, d[at - off..at - off + len])
  {
  }

  lemma SliceAppend(s: Bytes, v: Bytes, lo: nat, hi: nat)
    requires lo <= hi
    ensures hi <= |s| ==> Slice(s + v, lo, hi) == Slice(s, lo, hi)
    ensures lo == |s| && |s + v| <= hi ==> Slice(s + v, lo, hi) == v
  {
    if hi <= |s| {
      assert (s + v)[lo..hi] == s[lo..hi];
    }
  }

  // --- integers ------------------------------------------------------------

  function Pow256(w: nat): (r: nat)
    ensures r > 0
  {
    if w == 0 then 1 else 256 * Pow256(w - 1)
  }

  /** The low `w` bytes of `v`, most significant byte first. */
  function BE(v: nat, w: nat): (r: Bytes)
    ensures |r| == w
  {
    if w == 0 then [] else BE(v / 256, w - 1) + [v % 256]
  }

  function FromBE(s: Bytes): (r: nat)
    ensures r < Pow256(|s|)
  {
    if s == [] then 0 else FromBE(s[..|s| - 1]) * 256 + s[|s| - 1]
  }

  lemma {:induction false} FromBEofBE(v: nat, w: nat)
    requires v < Pow256(w)
    ensures FromBE(BE(v, w)) == v
  {
    if w > 0 {
      FromBEofBE(v / 256, w - 1);
      assert BE(v, w)[..w - 1] == BE(v / 256, w - 1);
    }
  }

  lemma {:induction false} BEofFromBE(s: Bytes)
    ensures BE(FromBE(s), |s|) == s
  {
    if s != [] {
      var n := |s| - 1;
      BEofFromBE(s[..n]);
      assert FromBE(s) / 256 == FromBE(s[..n]) && FromBE(s) % 256 == s[n];
      assert s == s[..n] + [s[n]];
    }
  }

  /** What the low `w` bytes say. */
  lemma {:induction false} BEMod(v: nat, w: nat)
    ensures FromBE(BE(v, w)) == v % Pow256(w)
  {
    if w > 0 {
      BEMod(v / 256, w - 1);
      assert BE(v, w)[..w - 1] == BE(v / 256, w - 1);
      ModStep(v, Pow256(w - 1));
    }
  }

  lemma ModStep(v: nat, p: nat)
    requires p > 0
    ensures v % (256 * p) == v / 256 % p * 256 + v % 256
  {
    var q, r := v / 256 / p, v / 256 % p;
    assert v / 256 == p * q + r;
    assert v == (256 * p) * q + (r * 256 + v % 256);
    MultipleMod(256 * p, q, r * 256 + v % 256);
  }

  /** The low `w` bytes are all zero exactly for multiples of 256^w. */
  lemma {:induction false} BEZero(v: nat, w: nat)
    ensures BE(v, w) == Zeros(w) <==> v % Pow256(w) == 0
  {
    if w > 0 {
      var p := Pow256(w - 1);
      BEZero(v / 256, w - 1);
      MultipleOf256(v, p);
      var high := BE(v / 256, w - 1);
      assert BE(v, w) == high + [v % 256] && Zeros(w) == Zeros(w - 1) + [0];
      assert BE(v, w)[..w - 1] == high && Zeros(w)[..w - 1] == Zeros(w - 1);
      assert BE(v, w)[w - 1] == v % 256 && Zeros(w)[w - 1] == 0;
    }
  }

  lemma MultipleOf256(v: nat, p: nat)
    requires p > 0
    ensures v % (256 * p) == 0 <==> v % 256 == 0 && (v / 256) % p == 0
  {
    if v % (256 * p) == 0 {
      var q := v / (256 * p);
      assert v == 256 * (p * q);
      assert (p * q) % p == 0 by { MultipleMod(p, q, 0); }
    }
    if v % 256 == 0 && (v / 256) % p == 0 {
      var q := v / 256 / p;
      assert v / 256 == p * q;
      assert v == (256 * p) * q;
      MultipleMod(256 * p, q, 0);
    }
  }

  lemma MultipleMod(d: nat, q: nat, r: nat)
    requires r < d
    ensures (d * q + r) % d == r
  {
    TimesIsMul(q, d);
    QuotUnique(d * q + r, d, q);
    RemIsMod(d * q + r, d);
  }

  // --- integers of fixed width ---------------------------------------------

  function U16Of(b: Bytes): U16
    requires |b| == 2
  {
    assert Pow256(2) == 0x1_0000;
    FromBE(b)
  }

  function U32Of(b: Bytes): U32
    requires |b| == 4
  {
    assert Pow256(4) == 0x1_0000_0000;
    FromBE(b)
  }

  function PutI64(v: I64): (r: Bytes)
    ensures |r| == 8
  {
    BE(if v < 0 then v + 0x1_0000_0000_0000_0000 else v, 8)
  }

  /** readI64: a value of any other length reads as 0. */
  function ReadI64(b: Bytes): I64 {
    if |b| != 8 then 0
    else
      assert Pow256(8) == 0x1_0000_0000_0000_0000;
      var u := FromBE(b);
      if u < 0x8000_0000_0000_0000 then u else u - 0x1_0000_0000_0000_0000
  }

  lemma IntegersRoundTrip(a: U16, b: U32, c: I64)
    ensures U16Of(BE(a, 2)) == a && U32Of(BE(b, 4)) == b && ReadI64(PutI64(c)) == c
  {
    assert Pow256(2) == 0x1_0000 && Pow256(4) == 0x1_0000_0000 && Pow256(8) == 0x1_0000_0000_0000_0000;
    FromBEofBE(a, 2);
    FromBEofBE(b, 4);
    FromBEofBE(if c < 0 then c + 0x1_0000_0000_0000_0000 else c, 8);
  }
}
