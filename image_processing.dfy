/**
 * The grayscale image filters: a 3x3 integer convolution and a 5-point
 * median, the driver that applies one of them to every pixel into a fresh
 * container, and the comparison of two containers. Pixels are stored row by
 * row, one byte per component. KERNEL_SIZE is 3.
 */
module ImageProcessing {
  /** uint8_t: a pixel component. */
  newtype Byte = x: int | 0 <= x < 256

  datatype Verdict = Same | Different

  /** image_container: dimensions, components per pixel and the pixel bytes. */
  class Container {
    const width: int
    const height: int
    const comp: int
    const data: array<Byte>

    ghost predicate Valid()
      reads this
    {
      width >= 0 && height >= 0 && comp >= 1 && data.Length == width * height * comp
    }

    /** A container of the given shape with zeroed pixels, as calloc leaves them. */
    constructor (width: nat, height: nat, comp: nat)
      requires comp >= 1
      ensures Valid() && fresh(data)
      ensures this.width == width && this.height == height && this.comp == comp
      ensures forall k :: 0 <= k < data.Length ==> data[k] == 0
    {
      this.width := width;
      this.height := height;
      this.comp := comp;
      data := new Byte[width * height * comp](_ => 0);
    }
  }

  /**
   * allocate_container: no container for 0 components or more than rgba
   * (COMPONENT_RGBA, whose value lives in a header outside this model).
   */
  method AllocateContainer(width: nat, height: nat, comp: nat, rgba: nat) returns (img: Container?)
    ensures img == null <==> comp == 0 || comp > rgba
    ensures img != null ==> fresh(img) && fresh(img.data) && img.Valid()
    ensures img != null ==> img.width == width && img.height == height && img.comp == comp
    ensures img != null ==> forall k :: 0 <= k < img.data.Length ==> img.data[k] == 0
  {
    if comp == 0 || comp > rgba {
      return null;
    }
    img := new Container(width, height, comp);
  }

  // ---------------------------------------------------------------- indexing

  /** Row-major indices of in-bounds pixels stay within the first width * height bytes. */
  lemma IndexInRange(w: int, h: int, x: int, y: int)
    requires 0 <= x < w && 0 <= y < h
    ensures 0 <= y * w + x < w * h
  {
    assert y * w <= (h - 1) * w by {
      assert (h - 1) * w - y * w == (h - 1 - y) * w;
    }
    assert (h - 1) * w + w == h * w;
  }

  lemma MulAtLeastOne(a: int, w: int)
    requires a >= 1 && w > 0
    ensures a * w >= w
  {
  }

  /** The row-major index of (x, y) gives back x and y by remainder and quotient. */
  lemma RowMajorDivMod(w: int, x: int, y: int)
    requires 0 <= x < w && 0 <= y
    ensures (y * w + x) % w == x && (y * w + x) / w == y
  {
    var k := y * w + x;
    var q, r := k / w, k % w;
    assert (y - q) * w == r - x by {
      assert k == q * w + r;
    }
    if y - q >= 1 {
      MulAtLeastOne(y - q, w);
    } else if q - y >= 1 {
      MulAtLeastOne(q - y, w);
    }
  }

  /** The pixel at (x, y) lies on the border, where no 3x3 window fits. */
  predicate OnBorder(w: int, h: int, x: int, y: int) {
    x - 1 < 0 || y - 1 < 0 || x + 1 >= w || y + 1 >= h
  }

  /** The data holds at least one byte per pixel. */
  predicate Fits(data: seq<Byte>, w: int, h: int) {
    w >= 0 && h >= 0 && |data| >= w * h
  }

  function Pixel(data: seq<Byte>, w: int, h: int, x: int, y: int): Byte
    requires Fits(data, w, h) && 0 <= x < w && 0 <= y < h
  {
    IndexInRange(w, h, x, y);
    data[y * w + x]
  }

  // ------------------------------------------------------------- convolution

  /** A 3x3 kernel of int8_t coefficients, row by row. */
  predicate IsKernel(kernel: seq<int>) {
    |kernel| == 9 && forall t :: 0 <= t < 9 ==> -128 <= kernel[t] <= 127
  }

  /**
   * Window pixel t of an interior pixel, t = (1 + j) * 3 + (1 + i) in loop
   * order: the pixel at (x - i, y - j), the one kernel[t] weighs.
   */
  function WindowPixel(data: seq<Byte>, w: int, h: int, x: int, y: int, t: nat): Byte
    requires Fits(data, w, h) && !OnBorder(w, h, x, y) && 0 <= x < w && 0 <= y < h && t < 9
  {
    var j, i := t / 3 - 1, t % 3 - 1;
    Pixel(data, w, h, x - i, y - j)
  }

  /** Term t of the convolution sum. */
  function ConvTerm(data: seq<Byte>, w: int, h: int, kernel: seq<int>, x: int, y: int, t: nat): int
    requires Fits(data, w, h) && !OnBorder(w, h, x, y) && 0 <= x < w && 0 <= y < h
    requires IsKernel(kernel) && t < 9
  {
    WindowPixel(data, w, h, x, y, t) as int * kernel[t]
  }

  /** The first n terms of the convolution sum. */
  function ConvSum(data: seq<Byte>, w: int, h: int, kernel: seq<int>, x: int, y: int, n: nat): int
    requires Fits(data, w, h) && !OnBorder(w, h, x, y) && 0 <= x < w && 0 <= y < h
    requires IsKernel(kernel) && n <= 9
  {
    if n == 0 then 0 else ConvSum(data, w, h, kernel, x, y, n - 1) + ConvTerm(data, w, h, kernel, x, y, n - 1)
  }

  function Abs(v: int): nat {
    if v < 0 then -v else v
  }

  /**
   * _conv_filter_x_y: the pixel itself on the border; inside, the absolute
   * value of the convolution sum, saturated at 255.
   */
  function ConvPixel(data: seq<Byte>, w: int, h: int, kernel: seq<int>, x: int, y: int): Byte
    requires Fits(data, w, h) && 0 <= x < w && 0 <= y < h && IsKernel(kernel)
  {
    if OnBorder(w, h, x, y) then Pixel(data, w, h, x, y)
    else
      var s := Abs(ConvSum(data, w, h, kernel, x, y, 9));
      if s > 255 then 255 else s as Byte
  }

  /** The data of a valid container holds at least one byte per pixel. */
  lemma ValidFits(img: Container)
    requires img.Valid()
    ensures Fits(img.data[..], img.width, img.height)
  {
    var w, h := img.width, img.height;
    assert w * h * img.comp - w * h == w * h * (img.comp - 1);
    assert w * h * (img.comp - 1) >= 0;
  }

  /** _conv_filter_x_y: the pixel itself on the border, else the saturated absolute convolution sum. */
  method ConvFilterAt(img: Container, kernel: seq<int>, x: int, y: int) returns (r: Byte)
    requires img.Valid() && 0 <= x < img.width && 0 <= y < img.height && IsKernel(kernel)
    ensures Fits(img.data[..], img.width, img.height)
    ensures r == ConvPixel(img.data[..], img.width, img.height, kernel, x, y)
  {
    ValidFits(img);
    var w, h := img.width, img.height;
    if x - 1 < 0 || y - 1 < 0 || x + 1 >= w || y + 1 >= h {
      IndexInRange(w, h, x, y);
      return img.data[y * w + x];
    }
    var result := ConvWindow(img, kernel, x, y);
    result := Abs(result);
    if result > 255 {
      result := 255;
    }
    r := result as Byte;
  }

  /** The two nested loops of _conv_filter_x_y over the 3x3 window of an interior pixel. */
  method ConvWindow(img: Container, kernel: seq<int>, x: int, y: int) returns (result: int)
    requires img.Valid() && Fits(img.data[..], img.width, img.height) && IsKernel(kernel)
    requires 0 <= x < img.width && 0 <= y < img.height && !OnBorder(img.width, img.height, x, y)
    ensures result == ConvSum(img.data[..], img.width, img.height, kernel, x, y, 9)
  {
    ghost var data := img.data[..];
    var w, h := img.width, img.height;
    result := 0;
    var j := -1;
    while j <= 1
      invariant -1 <= j <= 2
      invariant result == ConvSum(data, w, h, kernel, x, y, 3 * (j + 1))
    {
      var i := -1;
      while i <= 1
        invariant -1 <= i <= 2
        invariant result == ConvSum(data, w, h, kernel, x, y, 3 * (j + 1) + (i + 1))
      {
        IndexInRange(w, h, x - i, y - j);
        var pixel := img.data[(y - j) * w + (x - i)] as int;
        var coeff := kernel[(1 + j) * 3 + 1 + i];
        WindowIndex(data, w, h, x, y, j, i);
        result := result + pixel * coeff;
        i := i + 1;
      }
      j := j + 1;
    }
  }

  /** Loop position (j, i) reads window pixel (1 + j) * 3 + (1 + i). */
  lemma WindowIndex(data: seq<Byte>, w: int, h: int, x: int, y: int, j: int, i: int)
    requires Fits(data, w, h) && !OnBorder(w, h, x, y) && 0 <= x < w && 0 <= y < h
    requires -1 <= j <= 1 && -1 <= i <= 1
    ensures 0 <= (y - j) * w + (x - i) < |data|
    ensures WindowPixel(data, w, h, x, y, (1 + j) * 3 + (1 + i)) == data[(y - j) * w + (x - i)]
  {
    IndexInRange(w, h, x - i, y - j);
    var t := (1 + j) * 3 + (1 + i);
    assert t / 3 - 1 == j && t % 3 - 1 == i;
  }

  lemma MulNeg(p: int, k: int)
    ensures p * -k == -(p * k)
  {
  }

  lemma {:induction false} ConvSumNegated(data: seq<Byte>, w: int, h: int, kernel: seq<int>, neg: seq<int>, x: int, y: int, n: nat)
    requires Fits(data, w, h) && !OnBorder(w, h, x, y) && 0 <= x < w && 0 <= y < h
    requires IsKernel(kernel) && IsKernel(neg) && n <= 9
    requires forall t :: 0 <= t < 9 ==> neg[t] == -kernel[t]
    ensures ConvSum(data, w, h, neg, x, y, n) == -ConvSum(data, w, h, kernel, x, y, n)
  {
    if n > 0 {
      ConvSumNegated(data, w, h, kernel, neg, x, y, n - 1);
      MulNeg(WindowPixel(data, w, h, x, y, n - 1) as int, kernel[n - 1]);
      assert ConvTerm(data, w, h, neg, x, y, n - 1) == -ConvTerm(data, w, h, kernel, x, y, n - 1);
    }
  }

  /** Flipping the sign of every coefficient does not change the filtered pixel. */
  lemma NegatedKernel(data: seq<Byte>, w: int, h: int, kernel: seq<int>, neg: seq<int>, x: int, y: int)
    requires Fits(data, w, h) && 0 <= x < w && 0 <= y < h
    requires IsKernel(kernel) && IsKernel(neg)
    requires forall t :: 0 <= t < 9 ==> neg[t] == -kernel[t]
    ensures ConvPixel(data, w, h, neg, x, y) == ConvPixel(data, w, h, kernel, x, y)
  {
    if !OnBorder(w, h, x, y) {
      ConvSumNegated(data, w, h, kernel, neg, x, y, 9);
    }
  }

  /** The sum of the first n coefficients. */
  function KernelSum(kernel: seq<int>, n: nat): int
    requires n <= |kernel|
  {
    if n == 0 then 0 else KernelSum(kernel, n - 1) + kernel[n - 1]
  }

  /** On a flat region every pixel of the window is c, so the sum is c times the coefficient sum. */
  lemma {:induction false} ConvSumFlat(data: seq<Byte>, w: int, h: int, kernel: seq<int>, x: int, y: int, c: Byte, n: nat)
    requires Fits(data, w, h) && !OnBorder(w, h, x, y) && 0 <= x < w && 0 <= y < h
    requires IsKernel(kernel) && n <= 9
    requires forall t :: 0 <= t < 9 ==> WindowPixel(data, w, h, x, y, t) == c
    ensures ConvSum(data, w, h, kernel, x, y, n) == c as int * KernelSum(kernel, n)
  {
    if n > 0 {
      ConvSumFlat(data, w, h, kernel, x, y, c, n - 1);
      assert ConvTerm(data, w, h, kernel, x, y, n - 1) == c as int * kernel[n - 1];
      Distribute(c as int, KernelSum(kernel, n - 1), kernel[n - 1]);
    }
  }

  lemma Distribute(c: int, a: int, b: int)
    ensures c * (a + b) == c * a + c * b
  {
  }

  /**
   * An edge detector (any kernel whose coefficients sum to zero, such as
   * edge_detection_3x3) maps an interior pixel of a flat region to 0.
   */
  lemma FlatRegionHasNoEdge(data: seq<Byte>, w: int, h: int, kernel: seq<int>, x: int, y: int, c: Byte)
    requires Fits(data, w, h) && !OnBorder(w, h, x, y) && 0 <= x < w && 0 <= y < h
    requires IsKernel(kernel) && KernelSum(kernel, 9) == 0
    requires forall t :: 0 <= t < 9 ==> WindowPixel(data, w, h, x, y, t) == c
    ensures ConvPixel(data, w, h, kernel, x, y) == 0
  {
    ConvSumFlat(data, w, h, kernel, x, y, c, 9);
  }

  /** The kernel with a single 1 in the centre. */
  const IDENTITY_3X3: seq<int> := [0, 0, 0, 0, 1, 0, 0, 0, 0]

  lemma {:induction false} IdentitySum(data: seq<Byte>, w: int, h: int, x: int, y: int, n: nat)
    requires Fits(data, w, h) && !OnBorder(w, h, x, y) && 0 <= x < w && 0 <= y < h && n <= 9
    ensures ConvSum(data, w, h, IDENTITY_3X3, x, y, n) == if n <= 4 then 0 else WindowPixel(data, w, h, x, y, 4) as int
  {
    if n > 0 {
      IdentitySum(data, w, h, x, y, n - 1);
    }
  }

  /** The identity kernel leaves every pixel as it is, on the border and inside. */
  lemma IdentityKernel(data: seq<Byte>, w: int, h: int, x: int, y: int)
    requires Fits(data, w, h) && 0 <= x < w && 0 <= y < h
    ensures IsKernel(IDENTITY_3X3)
    ensures ConvPixel(data, w, h, IDENTITY_3X3, x, y) == Pixel(data, w, h, x, y)
  {
    if !OnBorder(w, h, x, y) {
      IdentitySum(data, w, h, x, y, 9);
    }
  }

  /** The kernels of kernels.c. */
  const EDGE_DETECTION_3X3: seq<int> := [1, 1, 1, 1, -8, 1, 1, 1, 1]
  const RIDGE_DETECTION_3X3: seq<int> := [0, -1, 0, -1, 4, -1, 0, -1, 0]
  const SHARPEN_3X3: seq<int> := [0, -1, 0, -1, 5, -1, 0, -1, 0]
  const BOX_BLUR_3X3: seq<int> := [1, 1, 1, 1, 1, 1, 1, 1, 1]
  const GAUSSIAN_BLUR_3X3: seq<int> := [1, 2, 1, 2, 4, 2, 1, 2, 1]

  /** Both detectors of kernels.c sum to zero and so see no edge in a flat region. */
  lemma DetectorsSumToZero()
    ensures IsKernel(EDGE_DETECTION_3X3) && KernelSum(EDGE_DETECTION_3X3, 9) == 0
    ensures IsKernel(RIDGE_DETECTION_3X3) && KernelSum(RIDGE_DETECTION_3X3, 9) == 0
  {
  }

  // ------------------------------------------------------------------ median

  /** compare_uint8_t: the difference of the two bytes, whose sign orders them. */
  function Compare(a: Byte, b: Byte): (r: int)
    ensures r < 0 <==> a < b
    ensures r == 0 <==> a == b
    ensures r > 0 <==> a > b
  {
    a as int - b as int
  }

  /** Swapping the operands flips the sign, as qsort expects of a comparator. */
  lemma CompareAntisymmetric(a: Byte, b: Byte)
    ensures Compare(a, b) == -Compare(b, a)
  {
  }

  predicate SortedBytes(s: seq<Byte>) {
    forall i, j :: 0 <= i < j < |s| ==> s[i] <= s[j]
  }

  function InsertByte(x: Byte, s: seq<Byte>): (r: seq<Byte>)
    ensures |r| == |s| + 1
  {
    if s == [] || Compare(x, s[0]) <= 0 then [x] + s else [s[0]] + InsertByte(x, s[1..])
  }

  /** The order qsort leaves the bytes in under compare_uint8_t: ascending. */
  function SortBytes(s: seq<Byte>): (r: seq<Byte>)
    ensures |r| == |s|
  {
    if s == [] then [] else InsertByte(s[0], SortBytes(s[1..]))
  }

  lemma {:induction false} InsertByteSorted(x: Byte, s: seq<Byte>)
    requires SortedBytes(s)
    ensures SortedBytes(InsertByte(x, s))
    ensures multiset(InsertByte(x, s)) == multiset(s) + multiset{x}
  {
    if s != [] && x > s[0] {
      InsertByteSorted(x, s[1..]);
      var r := InsertByte(x, s[1..]);
      assert InsertByte(x, s) == [s[0]] + r;
      assert multiset(s) == multiset{s[0]} + multiset(s[1..]) by {
        assert s == [s[0]] + s[1..];
      }
      forall k | 0 <= k < |r| ensures s[0] <= r[k] {
        assert r[k] in multiset(r);
        if r[k] != x {
          assert r[k] in s[1..];
        }
      }
      SortedCons(s[0], r);
    } else {
      forall k | 0 <= k < |s| ensures x <= s[k] {
        assert s[0] <= s[k];
      }
      SortedCons(x, s);
    }
  }

  lemma SortedCons(a: Byte, r: seq<Byte>)
    requires SortedBytes(r) && forall k :: 0 <= k < |r| ==> a <= r[k]
    ensures SortedBytes([a] + r)
  {
    var t := [a] + r;
    forall i, j | 0 <= i < j < |t| ensures t[i] <= t[j] {
      assert t[j] == r[j - 1];
      if i > 0 {
        assert t[i] == r[i - 1];
      }
    }
  }

  /** The sorted bytes are ascending and a permutation of the input. */
  lemma {:induction false} SortBytesSorted(s: seq<Byte>)
    ensures SortedBytes(SortBytes(s))
    ensures multiset(SortBytes(s)) == multiset(s)
  {
    if s != [] {
      var r := SortBytes(s[1..]);
      SortBytesSorted(s[1..]);
      InsertByteSorted(s[0], r);
      assert SortBytes(s) == InsertByte(s[0], r);
      assert multiset(s) == multiset{s[0]} + multiset(s[1..]) by {
        assert s == [s[0]] + s[1..];
      }
    }
  }

  /** The number of elements at most m, and at least m. */
  function CountLe(s: seq<Byte>, m: Byte): nat {
    if s == [] then 0 else (if s[0] <= m then 1 else 0) + CountLe(s[1..], m)
  }

  function CountGe(s: seq<Byte>, m: Byte): nat {
    if s == [] then 0 else (if s[0] >= m then 1 else 0) + CountGe(s[1..], m)
  }

  lemma {:induction false} InsertByteCounts(x: Byte, s: seq<Byte>, m: Byte)
    ensures CountLe(InsertByte(x, s), m) == (if x <= m then 1 else 0) + CountLe(s, m)
    ensures CountGe(InsertByte(x, s), m) == (if x >= m then 1 else 0) + CountGe(s, m)
  {
    if s != [] && x > s[0] {
      InsertByteCounts(x, s[1..], m);
      var r := InsertByte(x, s);
      assert r == [s[0]] + InsertByte(x, s[1..]);
      assert r[0] == s[0] && r[1..] == InsertByte(x, s[1..]);
    } else {
      var r := InsertByte(x, s);
      assert r == [x] + s;
      assert r[0] == x && r[1..] == s;
    }
  }

  /** Sorting does not change how many elements lie on either side of a value. */
  lemma {:induction false} SortBytesCounts(s: seq<Byte>, m: Byte)
    ensures CountLe(SortBytes(s), m) == CountLe(s, m)
    ensures CountGe(SortBytes(s), m) == CountGe(s, m)
  {
    if s != [] {
      SortBytesCounts(s[1..], m);
      InsertByteCounts(s[0], SortBytes(s[1..]), m);
    }
  }

  lemma {:induction false} SortedCountLe(s: seq<Byte>, m: Byte, k: nat)
    requires SortedBytes(s) && k < |s| && s[k] <= m
    ensures CountLe(s, m) >= k + 1
  {
    if k > 0 {
      SortedCountLe(s[1..], m, k - 1);
    }
  }

  lemma {:induction false} SortedCountGe(s: seq<Byte>, m: Byte, k: nat)
    requires SortedBytes(s) && k < |s| && s[k] >= m
    ensures CountGe(s, m) >= |s| - k
  {
    assert SortedBytes(s[1..]);
    if k > 0 {
      SortedCountGe(s[1..], m, k - 1);
    } else if |s| > 1 {
      assert s[1..][0] == s[1] >= s[0];
      SortedCountGe(s[1..], m, 0);
    }
  }

  /** The centre element of the five sorted values. */
  function Median(five: seq<Byte>): Byte
    requires |five| == 5
  {
    SortBytes(five)[2]
  }

  /** The median is one of the five, with at least three values at most it and three at least it. */
  lemma MedianSplits(five: seq<Byte>)
    requires |five| == 5
    ensures Median(five) in five
    ensures CountLe(five, Median(five)) >= 3 && CountGe(five, Median(five)) >= 3
  {
    var sorted := SortBytes(five);
    var m := sorted[2];
    SortBytesSorted(five);
    assert m in multiset(sorted);
    SortBytesCounts(five, m);
    SortedCountLe(sorted, m, 2);
    SortedCountGe(sorted, m, 2);
  }

  /** The pixel and its four direct neighbours, in the order median_filter_x_y gathers them. */
  function Cross(data: seq<Byte>, w: int, h: int, x: int, y: int): (five: seq<Byte>)
    requires Fits(data, w, h) && !OnBorder(w, h, x, y) && 0 <= x < w && 0 <= y < h
    ensures |five| == 5
  {
    [Pixel(data, w, h, x, y), Pixel(data, w, h, x + 1, y), Pixel(data, w, h, x - 1, y),
     Pixel(data, w, h, x, y + 1), Pixel(data, w, h, x, y - 1)]
  }

  /** median_filter_x_y: the pixel itself on the border, else the median of the cross around it. */
  function MedianPixel(data: seq<Byte>, w: int, h: int, x: int, y: int): Byte
    requires Fits(data, w, h) && 0 <= x < w && 0 <= y < h
  {
    if OnBorder(w, h, x, y) then Pixel(data, w, h, x, y) else Median(Cross(data, w, h, x, y))
  }

  /** A flat cross is left as it is. */
  lemma MedianOfFlatCross(data: seq<Byte>, w: int, h: int, x: int, y: int)
    requires Fits(data, w, h) && 0 <= x < w && 0 <= y < h && !OnBorder(w, h, x, y)
    requires forall k :: 0 <= k < 5 ==> Cross(data, w, h, x, y)[k] == Pixel(data, w, h, x, y)
    ensures MedianPixel(data, w, h, x, y) == Pixel(data, w, h, x, y)
  {
    MedianSplits(Cross(data, w, h, x, y));
  }

  // ------------------------------------------------------------ apply_filter

  /** The per-pixel filter the driver calls through filter_x_y. */
  datatype Filter = Convolution(kernel: seq<int>) | MedianFilter

  predicate FilterOk(f: Filter) {
    f.Convolution? ==> IsKernel(f.kernel)
  }

  function FilterAt(f: Filter, data: seq<Byte>, w: int, h: int, x: int, y: int): Byte
    requires FilterOk(f) && Fits(data, w, h) && 0 <= x < w && 0 <= y < h
  {
    match f
    case Convolution(kernel) => ConvPixel(data, w, h, kernel, x, y)
    case MedianFilter => MedianPixel(data, w, h, x, y)
  }

  /** The byte v is the filtered pixel output byte k stands for, k = y * w + x. */
  predicate FilteredAt(v: Byte, data: seq<Byte>, w: int, h: int, f: Filter, k: int) {
    FilterOk(f) && Fits(data, w, h) && w > 0 && 0 <= k && 0 <= k / w < h &&
    v == FilterAt(f, data, w, h, k % w, k / w)
  }

  /** Every pixel of the output holds the filter applied to the input at the same place. */
  predicate FilteredImage(out: seq<Byte>, data: seq<Byte>, w: int, h: int, f: Filter)
    requires FilterOk(f) && Fits(data, w, h) && Fits(out, w, h)
  {
    forall x, y :: 0 <= x < w && 0 <= y < h ==> Pixel(out, w, h, x, y) == FilterAt(f, data, w, h, x, y)
  }

  /**
   * apply_filter: no result unless the image has grayscale (the value of
   * COMPONENT_GRAYSCALE) components; otherwise a fresh container of the same
   * shape whose every pixel is the filter applied to the input there. The
   * input is only read.
   */
  method ApplyFilter(img: Container, f: Filter, grayscale: nat, rgba: nat) returns (out: Container?)
    requires img.Valid() && FilterOk(f) && 1 <= grayscale <= rgba
    ensures out == null <==> img.comp != grayscale
    ensures out != null ==> fresh(out) && fresh(out.data) && out.Valid()
    ensures out != null ==> out.width == img.width && out.height == img.height && out.comp == img.comp
    ensures out != null ==> Fits(img.data[..], img.width, img.height) && Fits(out.data[..], out.width, out.height)
    ensures out != null ==> FilteredImage(out.data[..], img.data[..], img.width, img.height, f)
  {
    if img.comp != grayscale {
      return null;
    }
    out := AllocateContainer(img.width, img.height, img.comp, rgba);
    ValidFits(img);
    ValidFits(out);
    var w, h := img.width, img.height;
    ghost var data := img.data[..];
    var y := 0;
    while y < h
      invariant 0 <= y <= h
      invariant out.Valid() && out.width == w && out.height == h && img.data[..] == data
      invariant forall k :: 0 <= k < y * w ==> k < out.data.Length && FilteredAt(out.data[k], data, w, h, f, k)
    {
      FilterRow(img, out, f, y);
      assert (y + 1) * w == y * w + w;
      y := y + 1;
    }
    RowsMakeImage(out.data[..], data, w, h, f);
  }

  /** Filtered flat indices below h * w make a filtered image. */
  lemma RowsMakeImage(o: seq<Byte>, data: seq<Byte>, w: int, h: int, f: Filter)
    requires FilterOk(f) && Fits(data, w, h) && Fits(o, w, h)
    requires forall k :: 0 <= k < h * w ==> k < |o| && FilteredAt(o[k], data, w, h, f, k)
    ensures FilteredImage(o, data, w, h, f)
  {
    forall x, y | 0 <= x < w && 0 <= y < h
      ensures Pixel(o, w, h, x, y) == FilterAt(f, data, w, h, x, y)
    {
      IndexInRange(w, h, x, y);
      RowMajorDivMod(w, x, y);
      assert FilteredAt(o[y * w + x], data, w, h, f, y * w + x);
    }
  }

  /** The inner loop of apply_filter: filter row y into out. */
  method FilterRow(img: Container, out: Container, f: Filter, y: int)
    requires img.Valid() && out.Valid() && FilterOk(f) && img.data != out.data
    requires out.width == img.width && out.height == img.height && 0 <= y < img.height
    requires Fits(img.data[..], img.width, img.height) && Fits(out.data[..], out.width, out.height)
    modifies out.data
    ensures forall k :: 0 <= k < y * img.width ==> out.data[k] == old(out.data[k])
    ensures forall k :: y * img.width <= k < y * img.width + img.width ==>
      k < out.data.Length && FilteredAt(out.data[k], img.data[..], img.width, img.height, f, k)
  {
    var w, h := img.width, img.height;
    ghost var data := img.data[..];
    var base := y * w;
    if w > 0 {
      IndexInRange(w, h, w - 1, y);
    }
    var x := 0;
    while x < w
      invariant 0 <= x <= w && img.data[..] == data
      invariant forall k :: 0 <= k < base ==> out.data[k] == old(out.data[k])
      invariant forall i :: 0 <= i < x ==> out.data[base + i] == FilterAt(f, data, w, h, i, y)
    {
      var v := FilterCall(img, f, x, y);
      out.data[base + x] := v;
      x := x + 1;
    }
    forall k | base <= k < base + w
      ensures k < out.data.Length && FilteredAt(out.data[k], data, w, h, f, k)
    {
      FilteredPixel(out.data[k], data, w, h, f, k - base, y);
    }
  }

  /** The filtered pixel (x, y) is what output byte y * w + x must hold. */
  lemma FilteredPixel(v: Byte, data: seq<Byte>, w: int, h: int, f: Filter, x: int, y: int)
    requires FilterOk(f) && Fits(data, w, h) && 0 <= x < w && 0 <= y < h
    requires v == FilterAt(f, data, w, h, x, y)
    ensures 0 <= y * w + x < w * h
    ensures FilteredAt(v, data, w, h, f, y * w + x)
  {
    IndexInRange(w, h, x, y);
    RowMajorDivMod(w, x, y);
  }

  /** filter_x_y(img, x, y) for the chosen filter. */
  method FilterCall(img: Container, f: Filter, x: int, y: int) returns (v: Byte)
    requires img.Valid() && FilterOk(f) && 0 <= x < img.width && 0 <= y < img.height
    ensures Fits(img.data[..], img.width, img.height)
    ensures v == FilterAt(f, img.data[..], img.width, img.height, x, y)
  {
    ValidFits(img);
    match f
    case Convolution(kernel) =>
      v := ConvFilterAt(img, kernel, x, y);
    case MedianFilter =>
      v := MedianPixel(img.data[..], img.width, img.height, x, y);
  }

  // -------------------------------------------------------- show_differences

  /** Two containers disagree on height, width or number of components. */
  predicate ShapesDiffer(a: Container, b: Container)
    reads a, b
  {
    a.height != b.height || a.width != b.width || a.comp != b.comp
  }

  /**
   * show_differences as written: after the shape checks it walks width *
   * height bytes of each buffer (the loops name the bounds the other way
   * round, which does not change the count). Without list it stops at the
   * first mismatch; with list it goes on (printing each one) and reports
   * DIFFERENT at the end.
   */
  method ShowDifferences(a: Container, b: Container, list: bool) returns (v: Verdict)
    requires a.Valid() && b.Valid()
    ensures ShapesDiffer(a, b) ==> v == Different
    ensures !ShapesDiffer(a, b) ==> a.width * a.height <= a.data.Length && a.width * a.height <= b.data.Length
    ensures !ShapesDiffer(a, b) ==>
      (v == Same <==> a.data[..a.width * a.height] == b.data[..a.width * a.height])
  {
    if a.height != b.height || a.width != b.width || a.comp != b.comp {
      return Different;
    }
    ValidFits(a);
    ValidFits(b);
    v := WalkBoth(a.data, b.data, a.width, a.height, list);
  }

  /** The two pointer walks of show_differences: outer * inner bytes, row after row. */
  method WalkBoth(a: array<Byte>, b: array<Byte>, outer: int, inner: int, list: bool) returns (v: Verdict)
    requires 0 <= outer && 0 <= inner && outer * inner <= a.Length && outer * inner <= b.Length
    ensures v == Same <==> a[..outer * inner] == b[..outer * inner]
  {
    var flag := Same;
    var p := 0;
    var y := 0;
    while y < outer
      invariant 0 <= y <= outer && p == y * inner && p <= outer * inner
      invariant flag == Same <==> a[..p] == b[..p]
    {
      var x := 0;
      while x < inner
        invariant 0 <= x <= inner && p == y * inner + x && p <= outer * inner
        invariant flag == Same <==> a[..p] == b[..p]
      {
        IndexInRange(inner, outer, x, y);
        if a[p] != b[p] {
          if list {
            flag := Different;
          } else {
            assert a[..p + 1][p] != b[..p + 1][p];
            assert a[..outer * inner][p] != b[..outer * inner][p];
            return Different;
          }
        }
        assert a[..p + 1] == a[..p] + [a[p]];
        assert b[..p + 1] == b[..p] + [b[p]];
        p := p + 1;
        x := x + 1;
      }
      assert (y + 1) * inner == y * inner + inner;
      y := y + 1;
    }
    return flag;
  }

  /**
   * The comparison as written misses differences beyond the first width *
   * height bytes: two 1x1 RGB images that differ only in the blue byte are
   * reported the same, while the full comparison tells them apart.
   */
  method ShowDifferencesMissesLaterComponents() returns (asWritten: Verdict, intended: Verdict)
    ensures asWritten == Same && intended == Different
  {
    var a := new Container(1, 1, 3);
    var b := new Container(1, 1, 3);
    b.data[2] := 1;
    assert a.data[..1] == b.data[..1];
    asWritten := ShowDifferences(a, b, false);
    intended := ShowAllDifferences(a, b, false);
  }

  /** The comparison evidently intended: every component byte of every pixel. */
  method ShowAllDifferences(a: Container, b: Container, list: bool) returns (v: Verdict)
    requires a.Valid() && b.Valid()
    ensures ShapesDiffer(a, b) ==> v == Different
    ensures !ShapesDiffer(a, b) ==> (v == Same <==> a.data[..] == b.data[..])
  {
    if a.height != b.height || a.width != b.width || a.comp != b.comp {
      return Different;
    }
    var flag := Same;
    var p := 0;
    while p < a.data.Length
      invariant 0 <= p <= a.data.Length
      invariant flag == Same <==> a.data[..p] == b.data[..p]
    {
      if a.data[p] != b.data[p] {
        if list {
          flag := Different;
        } else {
          assert a.data[..p + 1][p] != b.data[..p + 1][p];
          return Different;
        }
      }
      assert a.data[..p + 1] == a.data[..p] + [a.data[p]];
      assert b.data[..p + 1] == b.data[..p] + [b.data[p]];
      p := p + 1;
    }
    assert a.data[..] == a.data[..p];
    assert b.data[..] == b.data[..p];
    return flag;
  }
}
