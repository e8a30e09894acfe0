/**
 * Layout of a TGAImage pixel buffer (src/tgaimage.cpp:319-334): pixels are
 * stored row after row, `bytespp` bytes each, so byte b of pixel (x, y) lives
 * at (x + y * width) * bytespp + b.  Every image operation addresses the
 * buffer this way, either per pixel (get, set) or per scan line of
 * width * bytespp bytes (flipVertically, scale).
 */
module TgaLayout {

  lemma MulMono(a: int, b: int, n: int)
    requires n >= 0 && a <= b
    ensures a * n <= b * n
  {}

  lemma MulSucc(k: int, n: int)
    ensures (k + 1) * n == k * n + n
  {}

  lemma MulAdd(a: int, b: int, n: int)
    ensures (a + b) * n == a * n + b * n
  {}

  /**
   * The length of k blocks of n bytes laid end to end, as a sum.  The scan
   * line offsets of scale are kept in this form, which needs no reasoning
   * about products, and TimesIsMul relates it to k * n where a pixel
   * address needs the product.
   */
  function Times(k: nat, n: int): int
  {
    if k == 0 then 0 else Times(k - 1, n) + n
  }

  lemma {:induction false} TimesIsMul(k: nat, n: int)
    ensures Times(k, n) == k * n
  {
    if k > 0 {
      TimesIsMul(k - 1, n);
      MulSucc(k - 1, n);
    }
  }

  lemma TimesSucc(k: nat, n: int)
    ensures Times(k + 1, n) == Times(k, n) + n
  {}

  lemma {:induction false} TimesAdd(a: nat, b: nat, n: int)
    ensures Times(a + b, n) == Times(a, n) + Times(b, n)
  {
    if b > 0 {
      TimesAdd(a, b - 1, n);
    }
  }

  /** Two more blocks after k fit in h blocks when k + 2 <= h. */
  lemma TimesRoom(k: nat, h: int, n: int)
    requires k + 2 <= h && n >= 0
    ensures Times(k, n) + n + n <= Times(h, n)
  {
    TimesMono(k + 2, h, n);
    TimesSucc(k + 1, n);
    TimesSucc(k, n);
  }

  lemma {:induction false} TimesMono(a: nat, b: nat, n: int)
    requires a <= b && n >= 0
    ensures Times(a, n) <= Times(b, n)
  {
    if a < b {
      TimesMono(a, b - 1, n);
    }
  }

  /** Euclidean division pinned down by bounds on the dividend. */
  lemma DivBetween(k: int, i: int, n: int)
    requires n > 0 && i * n <= k < i * n + n
    ensures k / n == i && k % n == k - i * n
  {
    var q, r := k / n, k % n;
    assert k == q * n + r && 0 <= r < n;
    assert (i + 1) * n == i * n + n;
    assert (q + 1) * n == q * n + n;
    if q > i {
      MulMono(i + 1, q, n);
    } else if q < i {
      MulMono(q + 1, i, n);
    }
  }

  /**
   * With k steps of n and an error e making up i steps of m, for some
   * i <= n, an error of at least c * n leaves room for c more of the m steps.
   */
  lemma StepsLeft(k: nat, e: int, n: int, i: nat, m: int, c: int)
    requires n > 0 && m >= 0 && i <= n && c >= 0
    requires Times(k, n) + e == Times(i, m) && c * n <= e
    ensures k + c <= m
  {
    TimesIsMul(k, n);
    TimesIsMul(i, m);
    MulMono(i, n, m);
    assert (k + c) * n == k * n + c * n;
    MulSucc(m, n);
    if k + c > m {
      MulMono(m + 1, k + c, n);
    }
  }

  predicate InImage(w: int, h: int, x: int, y: int) {
    0 <= x < w && 0 <= y < h
  }

  /** The position of the first byte of pixel (x, y). */
  function Start(w: int, bpp: int, x: int, y: int): int {
    (x + y * w) * bpp
  }

  /** Start(w, bpp, x, y) as a sum: y whole scan lines, then x pixels. */
  function LineStart(w: nat, bpp: int, x: nat, y: nat): int {
    Times(y, Times(w, bpp)) + Times(x, bpp)
  }

  lemma LineStartIsStart(w: nat, bpp: int, x: nat, y: nat)
    ensures LineStart(w, bpp, x, y) == Start(w, bpp, x, y)
  {
    TimesIsMul(w, bpp);
    TimesIsMul(y, w * bpp);
    TimesIsMul(x, bpp);
    IndexByLine(w, bpp, x, y, 0);
  }

  /** The position of byte b of pixel (x, y). */
  function Index(w: int, bpp: int, x: int, y: int, b: int): int {
    Start(w, bpp, x, y) + b
  }

  /** The same position, read as byte x * bpp + b of scan line y. */
  lemma IndexByLine(w: int, bpp: int, x: int, y: int, b: int)
    ensures Index(w, bpp, x, y, b) == y * (w * bpp) + (x * bpp + b)
  {
    assert (x + y * w) * bpp == x * bpp + (y * w) * bpp;
    assert (y * w) * bpp == y * (w * bpp);
  }

  /** A byte of a scan line lies inside the line. */
  lemma InLine(w: int, bpp: int, x: int, b: int)
    requires 0 <= x < w && 0 <= b < bpp
    ensures 0 <= x * bpp + b < w * bpp
  {
    MulMono(0, x, bpp);
    MulMono(x + 1, w, bpp);
  }

  /** A line-relative offset inside scan line y of an h-line buffer. */
  lemma LineFits(bpl: int, h: int, y: int, c: int)
    requires 0 <= y < h && 0 <= c < bpl
    ensures 0 <= y * bpl + c < h * bpl
    ensures (y * bpl + c) / bpl == y && (y * bpl + c) % bpl == c
  {
    MulMono(0, y, bpl);
    MulMono(y + 1, h, bpl);
    DivBetween(y * bpl + c, y, bpl);
  }

  /** The buffer of a w x h image holds h lines of w * bpp bytes. */
  lemma BufferIsLines(w: int, h: int, bpp: int)
    ensures w * h * bpp == h * (w * bpp)
  {}

  lemma IndexInBuffer(w: int, h: int, bpp: int, x: int, y: int, b: int)
    requires InImage(w, h, x, y) && 0 <= b < bpp
    ensures 0 <= Index(w, bpp, x, y, b) < w * h * bpp
  {
    IndexByLine(w, bpp, x, y, b);
    InLine(w, bpp, x, b);
    LineFits(w * bpp, h, y, x * bpp + b);
    BufferIsLines(w, h, bpp);
  }

  /** Distinct (pixel, byte) pairs occupy distinct bytes. */
  lemma IndexInjective(w: int, h: int, bpp: int, x: int, y: int, b: int, x2: int, y2: int, b2: int)
    requires InImage(w, h, x, y) && 0 <= b < bpp
    requires InImage(w, h, x2, y2) && 0 <= b2 < bpp
    requires Index(w, bpp, x, y, b) == Index(w, bpp, x2, y2, b2)
    ensures x == x2 && y == y2 && b == b2
  {
    var k := Index(w, bpp, x, y, b);
    IndexByLine(w, bpp, x, y, b);
    IndexByLine(w, bpp, x2, y2, b2);
    InLine(w, bpp, x, b);
    InLine(w, bpp, x2, b2);
    LineFits(w * bpp, h, y, x * bpp + b);
    LineFits(w * bpp, h, y2, x2 * bpp + b2);
    DivBetween(x * bpp + b, x, bpp);
    DivBetween(x2 * bpp + b2, x2, bpp);
  }

  /** While i < n steps of m have been taken, fewer than m whole steps of n fit in them. */
  lemma StepsBelow(k: nat, e: int, n: int, i: nat, m: int)
    requires n > 0 && m > 0 && i < n && e >= 0
    requires Times(k, n) + e == Times(i, m)
    ensures k < m
  {
    TimesIsMul(k, n);
    TimesIsMul(i, m);
    MulMono(i, n - 1, m);
    assert (n - 1) * m == n * m - m;
    assert m * n == n * m;
    if k >= m {
      MulMono(m, k, n);
    }
  }

  /** A prefix of a buffer splits at any point below its end. */
  lemma PrefixSplit<T>(t: seq<T>, a: int, b: int)
    requires 0 <= a <= b <= |t|
    ensures t[..b] == t[..a] + t[a..b]
  {
    assert t[..b] == t[..b][..a] + t[..b][a..];
  }

  /** A slice of a slice is a slice of the whole. */
  lemma SliceOfSlice<T>(s: seq<T>, a: int, n: int, c: int, l: int)
    requires 0 <= a && a + n <= |s| && 0 <= c && 0 <= l && c + l <= n
    ensures s[a..a + n][c..c + l] == s[a + c..a + c + l]
  {
    var inner, whole := s[a..a + n][c..c + l], s[a + c..a + c + l];
    forall k | 0 <= k < l
      ensures inner[k] == whole[k]
    {
      assert inner[k] == s[a..a + n][c + k] == s[a + c + k];
    }
  }

  /** Replacing the n elements at a: they read back as the new ones, and a slice clear of them is untouched. */
  lemma SliceReplaced<T>(t: seq<T>, u: seq<T>, a: int, n: int, b: int)
    requires 0 <= a && 0 <= n && a + n <= |t| && |u| == n
    requires 0 <= b && b + n <= |t|
    ensures var s := t[..a] + u + t[a + n..]; |s| == |t| && s[a..a + n] == u
    ensures b + n <= a || a + n <= b ==> (t[..a] + u + t[a + n..])[b..b + n] == t[b..b + n]
  {
    var s := t[..a] + u + t[a + n..];
    assert s[a..a + n] == u;
    if b + n <= a || a + n <= b {
      var got, was := s[b..b + n], t[b..b + n];
      forall k | 0 <= k < n ensures got[k] == was[k] {
        assert got[k] == s[b + k];
      }
    }
  }

  /** A whole sequence of n elements overwritten from its start. */
  lemma Overwritten<T>(s0: seq<T>, u: seq<T>, s1: seq<T>, n: int)
    requires |s0| == n == |u| && s1 == s0[..0] + u + s0[n..]
    ensures s1 == u
  {
    assert s0[..0] == [] && s0[n..] == [];
  }

  lemma WholeSlice<T>(s: seq<T>, n: int)
    requires |s| == n
    ensures s[0..n] == s
  {}

  /** A piece of a slice, found at its place in the whole. */
  lemma SliceWithin<T>(s: seq<T>, a: int, n: int, part: seq<T>, c: int, l: int, piece: seq<T>, b: int)
    requires 0 <= a && 0 <= n && a + n <= |s| && s[a..a + n] == part
    requires 0 <= c && 0 <= l && c + l <= n && part[c..c + l] == piece && b == a + c
    ensures 0 <= b && b + l <= |s| && s[b..b + l] == piece
  {
    SliceOfSlice(s, a, n, c, l);
  }

  /** A quotient is below h when the dividend is below h * n. */
  lemma QuotientBelow(k: int, n: int, h: int)
    requires n > 0 && 0 <= k < h * n
    ensures 0 <= k / n < h && k == k / n * n + k % n
  {
    if k / n >= h {
      MulMono(h, k / n, n);
    }
  }

  /** The pixel and byte a buffer position belongs to. */
  function Coords(w: int, h: int, bpp: int, k: int): (c: (int, int, int))
    requires w > 0 && bpp > 0 && 0 <= k < w * h * bpp
    ensures InImage(w, h, c.0, c.1) && 0 <= c.2 < bpp
    ensures Index(w, bpp, c.0, c.1, c.2) == k
  {
    var bpl := w * bpp;
    BufferIsLines(w, h, bpp);
    QuotientBelow(k, bpl, h);
    var y, c := k / bpl, k % bpl;
    QuotientBelow(c, bpp, w);
    var x, b := c / bpp, c % bpp;
    IndexByLine(w, bpp, x, y, b);
    (x, y, b)
  }

  /** The start of pixel (x, y) and the whole pixel fit in the buffer. */
  lemma PixelInBuffer(w: int, h: int, bpp: int, x: int, y: int)
    requires InImage(w, h, x, y) && bpp > 0
    ensures 0 <= Start(w, bpp, x, y) && Start(w, bpp, x, y) + bpp <= w * h * bpp
  {
    IndexInBuffer(w, h, bpp, x, y, bpp - 1);
  }
}
