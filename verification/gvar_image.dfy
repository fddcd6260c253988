/**
  Pixel arithmetic of the GVAR plugin on 16-bit images: the square-window
  average that feeds the temperature look-up (`getAVG`), the look-up index it
  is turned into (`>> 6`, into a 1024-entry table), and the 8-bit preview
  samples (`>> 8`).

  An image is its width, height, channel count and the flat sample sequence
  it is indexed by (`image[k]`). `getAVG` uses C's truncating `/` and `%` on
  `int`, which differ from Dafny's for negative operands, so they are written
  out as `CDiv` and `CMod`.
 */
module GvarImage {
  import opened Bits

  type Sample = x: nat | x < 65536
  type Byte = x: nat | x < 256

  datatype Image = Image(width: nat, height: nat, channels: nat, pixels: seq<Sample>)

  /** C's `/` on `int`: the quotient rounded toward zero. */
  function CDiv(a: int, b: int): int
    requires b != 0
  {
    var q := Abs(a) / Abs(b);
    if (a < 0) == (b < 0) then q else -q
  }

  /** C's `%` on `int`: the remainder takes the sign of the dividend. */
  function CMod(a: int, b: int): int
    requires b != 0
  {
    a - b * CDiv(a, b)
  }

  function Abs(a: int): nat
  {
    if a < 0 then -a else a
  }

  /** Side of the window for radius `r`: `2r + 1`, odd and therefore never zero. */
  function Side(r: int): (s: int)
    ensures s != 0 && s % 2 == 1
  {
    2 * r + 1
  }

  /** Number of samples `getAVG` adds up: `pow(2r + 1, 2)`. */
  function WindowCount(r: int): (n: nat)
    ensures n >= 1
  {
    var s := Side(r);
    assert s * s == Abs(s) * Abs(s);
    MulAtLeast(Abs(s), Abs(s));
    s * s
  }

  /** The flat index of the `i`-th sample of the window, as `getAVG` computes it. */
  function WindowIndex(width: int, x: int, y: int, r: int, i: int): int
  {
    (y - r + CDiv(i, Side(r))) * width + (x - r + CMod(i, Side(r)))
  }

  /** Every sample the window reads lies inside the image's buffer. */
  predicate WindowInBounds(img: Image, x: int, y: int, r: int)
  {
    forall i :: 0 <= i < WindowCount(r) ==> 0 <= WindowIndex(img.width, x, y, r, i) < |img.pixels|
  }

  /** The `i`-th sample of the window. */
  function WindowSample(img: Image, x: int, y: int, r: int, i: nat): Sample
    requires WindowInBounds(img, x, y, r) && i < WindowCount(r)
  {
    img.pixels[WindowIndex(img.width, x, y, r, i)]
  }

  /** The sum of the first `n` samples of the window. */
  function WindowSum(img: Image, x: int, y: int, r: int, n: nat): nat
    requires WindowInBounds(img, x, y, r) && n <= WindowCount(r)
  {
    if n == 0 then 0 else WindowSum(img, x, y, r, n - 1) + WindowSample(img, x, y, r, n - 1)
  }

  /** The sum of `n` samples lies between `n` times their least and `n` times their greatest bound. */
  lemma {:induction false} WindowSumBounds(img: Image, x: int, y: int, r: int, n: nat, lo: nat, hi: nat)
    requires WindowInBounds(img, x, y, r) && n <= WindowCount(r)
    requires forall i :: 0 <= i < n ==> lo <= WindowSample(img, x, y, r, i) <= hi
    ensures lo * n <= WindowSum(img, x, y, r, n) <= hi * n
  {
    if n > 0 {
      WindowSumBounds(img, x, y, r, n - 1, lo, hi);
      assert lo * n == lo * (n - 1) + lo;
      assert hi * n == hi * (n - 1) + hi;
    }
  }

  /**
    `getAVG`: the mean of the window's samples, rounded down, as an
    `unsigned short`. The sum is taken in an unbounded integer.
   */
  method GetAvg(img: Image, x: int, y: int, r: int) returns (avg: Sample)
    requires WindowInBounds(img, x, y, r)
    ensures var n, sum := WindowCount(r), WindowSum(img, x, y, r, WindowCount(r));
      avg * n <= sum < (avg + 1) * n
  {
    var n := WindowCount(r);
    var sum: nat := 0;
    var i: nat := 0;
    while i < n
      invariant i <= n
      invariant sum == WindowSum(img, x, y, r, i)
    {
      sum := sum + img.pixels[WindowIndex(img.width, x, y, r, i)];
      i := i + 1;
    }
    AllSamplesBelow(img, x, y, r);
    WindowSumBounds(img, x, y, r, n, 0, 65535);
    avg := FloorMean(sum, n, 65535);
  }

  lemma AllSamplesBelow(img: Image, x: int, y: int, r: int)
    requires WindowInBounds(img, x, y, r)
    ensures forall i :: 0 <= i < WindowCount(r) ==> 0 <= WindowSample(img, x, y, r, i) <= 65535
  {
  }

  /** `sum / n` rounded down, for a sum of `n` values none above `hi`. */
  function FloorMean(sum: nat, n: nat, hi: nat): (m: nat)
    requires n >= 1 && sum <= hi * n
    ensures m * n <= sum < (m + 1) * n
    ensures m <= hi
  {
    var m := sum / n;
    assert sum == n * m + sum % n;
    CancelLe(m, hi, n);
    m
  }

  lemma CancelLe(a: int, b: int, n: int)
    requires n >= 1 && a * n <= b * n
    ensures a <= b
  {
  }

  /**
    The average lies between the least and the greatest sample of the window
    (and so never exceeds 65535).
   */
  lemma AverageWithinSamples(img: Image, x: int, y: int, r: int, avg: nat, lo: nat, hi: nat)
    requires WindowInBounds(img, x, y, r)
    requires forall i :: 0 <= i < WindowCount(r) ==> lo <= WindowSample(img, x, y, r, i) <= hi
    requires var n, sum := WindowCount(r), WindowSum(img, x, y, r, WindowCount(r));
      avg * n <= sum < (avg + 1) * n
    ensures lo <= avg <= hi
  {
    var n := WindowCount(r);
    WindowSumBounds(img, x, y, r, n, lo, hi);
    CancelLe(avg, hi, n);
    CancelLt(lo, avg + 1, n);
  }

  lemma CancelLt(a: int, b: int, n: int)
    requires n >= 1 && a * n < b * n
    ensures a < b
  {
  }

  lemma MulMonotone(a: nat, b: nat, n: nat)
    requires a <= b
    ensures a * n <= b * n
  {
  }

  /**
    For a non-negative radius the window is the square of side `2r + 1`
    around `(x, y)`, row by row: sample `i` sits `i / (2r + 1)` rows and
    `i % (2r + 1)` columns from the top-left corner `(x - r, y - r)`, and every
    cell of the square is read by exactly that sample.
   */
  lemma WindowIsSquare(width: int, x: int, y: int, r: int, dy: int, dx: int)
    requires r >= 0
    requires -r <= dy <= r && -r <= dx <= r
    ensures var i := (dy + r) * Side(r) + (dx + r);
      0 <= i < WindowCount(r) && WindowIndex(width, x, y, r, i) == (y + dy) * width + (x + dx)
  {
    var s := Side(r);
    var row, col := dy + r, dx + r;
    var i := row * s + col;
    assert 0 <= row < s && 0 <= col < s;
    assert 0 <= i by { MulNonNegative(row, s); }
    DivMod(i, s, row, col);
    CTruncation(i, s);
    assert i < s * s by {
      MulMonotone(row, s - 1, s);
      assert (s - 1) * s + s == s * s;
    }
  }

  lemma MulNonNegative(a: nat, b: nat)
    ensures a * b >= 0
  {
  }

  /** On a non-negative dividend and a positive divisor, C's `/` and `%` are Dafny's. */
  lemma CTruncation(a: int, b: int)
    requires a >= 0 && b > 0
    ensures CDiv(a, b) == a / b && CMod(a, b) == a % b
  {
    assert a == b * (a / b) + a % b;
  }

  /** For a non-negative radius, each sample of the window lies in the square around `(x, y)`. */
  lemma WindowInSquare(r: int, i: int)
    requires r >= 0 && 0 <= i < WindowCount(r)
    ensures 0 <= CDiv(i, Side(r)) < Side(r)
    ensures 0 <= CMod(i, Side(r)) < Side(r)
  {
    var s := Side(r);
    assert s > 0 && WindowCount(r) == s * s;
    CTruncation(i, s);
    var q := i / s;
    DivNonNegative(i, s);
    assert q * s <= i by { assert i == s * q + i % s; }
    CancelLt(q, s, s);
  }

  /**
    A negative radius still reads `(2r + 1)^2` samples, but C's truncating
    division counts rows upward from `y - r`: for `r == -1` the single sample
    read is the one diagonally below and right of `(x, y)`.
   */
  lemma NegativeRadius(width: int, x: int, y: int)
    ensures WindowCount(-1) == 1
    ensures WindowIndex(width, x, y, -1, 0) == (y + 1) * width + (x + 1)
  {
  }

  // ----- Look-up index and 8-bit samples -----

  /** Size of each calibration look-up table. */
  const LutSize: nat := 1024

  /** `getAVG(...) >> 6`: the table entry an average selects. */
  function LutIndex(avg: Sample): (k: nat)
    ensures k < LutSize
    ensures k * 64 <= avg < (k + 1) * 64
  {
    ShiftValues(avg);
    DivBelow(avg, 64, 1024);
    Shr(avg, 6)
  }

  /** The quotient of a value below `d * m` by `d`, with its floor bounds. */
  lemma DivBelow(p: nat, d: nat, m: nat)
    requires d > 0 && p < d * m
    ensures p / d < m
    ensures (p / d) * d <= p < (p / d + 1) * d
  {
    var q := p / d;
    assert p == d * q + p % d;
    CancelLt(q, m, d);
  }

  /** `resized[i] >> 8`: the top byte of a sample. */
  function TopByte(p: Sample): (b: Byte)
    ensures b as nat * 256 <= p < (b as nat + 1) * 256
  {
    ShiftValues(p);
    DivBelow(p, 256, 256);
    Shr(p, 8)
  }

  /**
    The preview loop: the first `n` samples of the resized image reduced to
    their top byte, one for each pixel of the 8-bit channel. The loop reads
    `resized[i]` for every `i` below the 8-bit image's size, so that many
    samples must exist.
   */
  method ToEightBit(resized: seq<Sample>, n: nat) returns (out: seq<Byte>)
    requires n <= |resized|
    ensures |out| == n
    ensures forall i :: 0 <= i < n ==> out[i] as nat * 256 <= resized[i] < (out[i] as nat + 1) * 256
  {
    out := [];
    var i := 0;
    while i < n
      invariant i <= n && |out| == i
      invariant forall j :: 0 <= j < i ==> out[j] as nat * 256 <= resized[j] < (out[j] as nat + 1) * 256
    {
      out := out + [TopByte(resized[i])];
      i := i + 1;
    }
  }

  /** Reducing to the top byte keeps the order of samples. */
  lemma TopByteMonotone(p: Sample, q: Sample)
    requires p <= q
    ensures TopByte(p) <= TopByte(q)
  {
  }
}
