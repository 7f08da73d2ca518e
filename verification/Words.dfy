/** Machine words, their little-endian byte images, and the alignment arithmetic of
    binder_io (64-bit layout: size_t and binder_size_t take 8 bytes). */
module Words {

  const TWO16: nat := 0x1_0000
  const TWO32: nat := 0x1_0000_0000
  const TWO64: nat := 0x1_0000_0000_0000_0000

  type byte = x: int | 0 <= x < 0x100
  type u16 = x: int | 0 <= x < TWO16
  type u32 = x: int | 0 <= x < TWO32
  type u64 = x: int | 0 <= x < TWO64

  datatype Option<+T> = None | Some(value: T)

  function Le16(n: u16): (b: seq<byte>)
    ensures |b| == 2
  {
    [n % 256, n / 256]
  }

  function Le32(n: u32): (b: seq<byte>)
    ensures |b| == 4
  {
    var a: int := n / 256;
    var b := a / 256;
    [n % 256, a % 256, b % 256, b / 256]
  }

  function Le64(n: u64): (b: seq<byte>)
    ensures |b| == 8
  {
    Le32(n % TWO32) + Le32(n / TWO32)
  }

  function Get16(b: seq<byte>, at: nat): u16
    requires at + 2 <= |b|
  {
    (b[at] as int) + 256 * (b[at + 1] as int)
  }

  function Get32(b: seq<byte>, at: nat): u32
    requires at + 4 <= |b|
  {
    (b[at] as int) + 0x100 * (b[at + 1] as int) + 0x1_0000 * (b[at + 2] as int) + 0x100_0000 * (b[at + 3] as int)
  }

  function Get64(b: seq<byte>, at: nat): u64
    requires at + 8 <= |b|
  {
    (Get32(b, at) as int) + TWO32 * (Get32(b, at + 4) as int)
  }

  /** A 32-bit word read where it was stored is the word that was stored. */
  lemma ReadLe32(b: seq<byte>, at: nat, n: u32)
    requires at + 4 <= |b| && b[at..at + 4] == Le32(n)
    ensures Get32(b, at) == n
  {
    var c := b[at..at + 4];
    assert c[0] == b[at] && c[1] == b[at + 1] && c[2] == b[at + 2] && c[3] == b[at + 3];
  }

  lemma ReadLe64(b: seq<byte>, at: nat, n: u64)
    requires at + 8 <= |b| && b[at..at + 8] == Le64(n)
    ensures Get64(b, at) == n
  {
    assert b[at..at + 4] == b[at..at + 8][..4] == Le32(n % TWO32);
    assert b[at + 4..at + 8] == b[at..at + 8][4..] == Le32(n / TWO32);
    ReadLe32(b, at, n % TWO32);
    ReadLe32(b, at + 4, n / TWO32);
  }

  /** Reading depends on the bytes read and on nothing else. */
  lemma SameWord64(b: seq<byte>, at: nat, c: seq<byte>, to: nat)
    requires at + 8 <= |b| && to + 8 <= |c| && b[at..at + 8] == c[to..to + 8]
    ensures Get64(b, at) == Get64(c, to)
  {
    var x, y := b[at..at + 8], c[to..to + 8];
    assert x[0] == b[at] && x[1] == b[at + 1] && x[2] == b[at + 2] && x[3] == b[at + 3];
    assert x[4] == b[at + 4] && x[5] == b[at + 5] && x[6] == b[at + 6] && x[7] == b[at + 7];
  }

  /** A slice of a slice. */
  lemma SliceOfSlice<T>(b: seq<T>, at: nat, n: nat, lo: nat, hi: nat)
    requires at + n <= |b| && lo <= hi <= n
    ensures b[at..at + n][lo..hi] == b[at + lo..at + hi]
  {
    var s := b[at..at + n];
    assert forall k :: lo <= k < hi ==> s[k] == b[at + k];
  }

  /** Replacing one stretch of a sequence changes that stretch and nothing else. */
  function Splice<T>(r: seq<T>, at: nat, s: seq<T>): (q: seq<T>)
    requires at + |s| <= |r|
    ensures |q| == |r|
  {
    r[..at] + s + r[at + |s|..]
  }

  lemma SpliceSlices<T>(r: seq<T>, at: nat, s: seq<T>, lo: nat, hi: nat)
    requires at + |s| <= |r| && lo <= hi <= |r|
    ensures Splice(r, at, s)[at..at + |s|] == s
    ensures hi <= at || at + |s| <= lo ==> Splice(r, at, s)[lo..hi] == r[lo..hi]
  {
    var q := Splice(r, at, s);
    if hi <= at {
      forall k | lo <= k < hi ensures q[k] == r[k] {
        assert q[k] == r[..at][k];
      }
      assert q[lo..hi] == r[lo..hi];
    } else if at + |s| <= lo {
      forall k | lo <= k < hi ensures q[k] == r[k] {
        assert q[k] == r[at + |s|..][k - at - |s|];
      }
      assert q[lo..hi] == r[lo..hi];
    }
  }

  /** Two stores with a gap between them, in either order, are one store of both and of what
      the gap held. */
  lemma SpliceTwice<T>(r: seq<T>, at: nat, s: seq<T>, gap: nat, t: seq<T>)
    requires at + |s| + gap + |t| <= |r|
    ensures var mid := r[at + |s|..at + |s| + gap];
            && Splice(Splice(r, at, s), at + |s| + gap, t) == Splice(r, at, s + mid + t)
            && Splice(Splice(r, at + |s| + gap, t), at, s) == Splice(r, at, s + mid + t)
  {
    var mid, to := r[at + |s|..at + |s| + gap], at + |s| + gap;
    var p, q := Splice(r, at, s), Splice(r, to, t);
    assert p[..to] == r[..at] + s + mid && p[to + |t|..] == r[to + |t|..];
    assert q[at + |s|..] == mid + t + r[to + |t|..] && q[..at] == r[..at];
  }

  /** The bytes of a run of 16-bit units, and the units of a run of bytes. */
  function UnitBytes(s: seq<u16>): (b: seq<byte>)
    ensures |b| == 2 * |s|
  {
    if s == [] then [] else UnitBytes(s[..|s| - 1]) + Le16(s[|s| - 1])
  }

  function Units(b: seq<byte>): (s: seq<u16>)
    ensures |s| == |b| / 2
  {
    seq(|b| / 2, k requires 0 <= k < |b| / 2 => Get16(b, 2 * k))
  }

  lemma {:induction false} UnitBytesAppend(s: seq<u16>, c: u16)
    ensures UnitBytes(s + [c]) == UnitBytes(s) + Le16(c)
  {
    var t := s + [c];
    var u := t[..|t| - 1];
    assert UnitBytes(t) == UnitBytes(u) + Le16(t[|t| - 1]);
    assert u == s && t[|t| - 1] == c;
    assert UnitBytes(t) == UnitBytes(s) + Le16(c);
  }

  lemma {:induction false} UnitsOfBytes(s: seq<u16>)
    ensures Units(UnitBytes(s)) == s
  {
    if s != [] {
      var n := |s| - 1;
      UnitsOfBytes(s[..n]);
      var b, c := UnitBytes(s[..n]), UnitBytes(s);
      assert c == b + Le16(s[n]);
      forall k | 0 <= k <= n ensures Units(c)[k] == s[k] {
        if k < n {
          assert c[2 * k] == b[2 * k] && c[2 * k + 1] == b[2 * k + 1];
          assert Units(b)[k] == s[..n][k];
        } else {
          assert c[2 * n] == Le16(s[n])[0] && c[2 * n + 1] == Le16(s[n])[1];
        }
      }
    }
  }

  /** The 64-bit words of a table, 8 bytes each. */
  function Table(b: seq<byte>): (t: seq<u64>)
    ensures |t| == |b| / 8
  {
    seq(|b| / 8, k requires 0 <= k < |b| / 8 => Get64(b, 8 * k))
  }

  lemma TableEntry(m: seq<byte>, at: nat, n: nat, k: nat)
    requires at + 8 * n <= |m| && k < n
    ensures Table(m[at..at + 8 * n])[k] == Get64(m, at + 8 * k)
  {
    var b := m[at..at + 8 * n];
    SliceOfSlice(m, at, 8 * n, 8 * k, 8 * k + 8);
    SameWord64(m, at + 8 * k, b, 8 * k);
  }

  lemma TableAppend(b: seq<byte>, n: u64)
    requires |b| % 8 == 0
    ensures Table(b + Le64(n)) == Table(b) + [n]
  {
    var c := b + Le64(n);
    forall k | 0 <= k < |b| / 8 ensures Table(c)[k] == Table(b)[k] {
      assert c[8 * k..8 * k + 8] == b[8 * k..8 * k + 8];
      SameWord64(c, 8 * k, b, 8 * k);
    }
    assert c[|b|..|b| + 8] == Le64(n);
    ReadLe64(c, |b|, n);
  }

  /** (size + 3) & ~3 on a 64-bit size_t, wrap-around included. */
  function Align4(size: nat): nat
  {
    ((size + 3) % TWO64) / 4 * 4
  }

  /** Below the wrap-around the rounding is exact: the next multiple of four. */
  lemma Align4Exact(size: nat)
    requires size + 3 < TWO64
    ensures size <= Align4(size) < size + 4 && Align4(size) % 4 == 0
    ensures size % 4 == 0 ==> Align4(size) == size
  {
  }

  /** The length of a C string: the index of its first terminator. */
  function StrLen(s: seq<int>): (n: nat)
    requires 0 in s
    ensures n < |s| && s[n] == 0 && 0 !in s[..n]
  {
    if s[0] == 0 then 0
    else
      var n := 1 + StrLen(s[1..]);
      assert s[..n] == [s[0]] + s[1..][..n - 1];
      n
  }

  lemma {:induction false} StrLenUnique(s: seq<int>, n: nat)
    requires n < |s| && s[n] == 0 && 0 !in s[..n]
    ensures StrLen(s) == n
  {
    if n > 0 {
      assert s[0] == s[..n][0];
      assert s[1..][..n - 1] == s[..n][1..];
      StrLenUnique(s[1..], n - 1);
    }
  }

  /** Byte-to-unit widening, as `*ptr++ = *str++` does through unsigned char. */
  function Widen(s: seq<byte>): (w: seq<u16>)
    ensures |w| == |s|
    ensures forall k :: 0 <= k < |s| ==> w[k] == s[k]
  {
    seq(|s|, k requires 0 <= k < |s| => s[k])
  }
}
