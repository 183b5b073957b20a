/** Helpers shared by the contrast checks: the screenshot colour sampling, the
    contrast ratio of two colours and the xpath of a DOM element. */
module Utils14 {
  import opened Py
  import opened Dom

  // ---------------------------------------------------------------------------
  // Colours and screenshots

  /** One colour channel, 0 to 255. Screenshot pixels hold whole numbers; the
      mean colour of the border strips can hold fractions. */
  type Channel = x: real | 0.0 <= x <= 255.0

  /** A pixel as three channels, in the order the screenshot stores them. */
  datatype Color = Color(c0: Channel, c1: Channel, c2: Channel)

  /** `np.sum(color)`. */
  function ChannelSum(c: Color): real {
    c.c0 + c.c1 + c.c2
  }

  /** A screenshot: rows of pixels, each `width` wide. */
  datatype Image = Image(rows: seq<seq<Color>>, width: nat)

  predicate Rectangular(img: Image) {
    forall r :: 0 <= r < |img.rows| ==> |img.rows[r]| == img.width
  }

  /** `img[y1:y2, x1:x2]`, with Python's slicing of each axis. */
  function Crop(img: Image, y1: int, y2: int, x1: int, x2: int): (c: Image)
    requires Rectangular(img)
    ensures Rectangular(c)
    ensures |c.rows| == SliceBounds(|img.rows|, y1, y2).1 - SliceBounds(|img.rows|, y1, y2).0
    ensures c.width == SliceBounds(img.width, x1, x2).1 - SliceBounds(img.width, x1, x2).0
    ensures forall r, k :: 0 <= r < |c.rows| && 0 <= k < c.width ==>
      c.rows[r][k] == img.rows[SliceBounds(|img.rows|, y1, y2).0 + r][SliceBounds(img.width, x1, x2).0 + k]
  {
    var ys := SliceBounds(|img.rows|, y1, y2);
    var xs := SliceBounds(img.width, x1, x2);
    Image(seq(ys.1 - ys.0, r requires 0 <= r < ys.1 - ys.0 => img.rows[ys.0 + r][xs.0..xs.1]), xs.1 - xs.0)
  }

  /** The pixels of an image row by row (`img.reshape(h * w, 3)`). */
  function Pixels(rows: seq<seq<Color>>): (ps: seq<Color>)
    ensures |ps| == Total(rows)
  {
    if rows == [] then [] else rows[0] + Pixels(rows[1..])
  }

  function Total(rows: seq<seq<Color>>): nat {
    if rows == [] then 0 else |rows[0]| + Total(rows[1..])
  }

  /** An image has as many pixels as its height times its width, so it has no
      pixels exactly when one of the two is zero. */
  lemma {:induction false} PixelCount(img: Image)
    requires Rectangular(img)
    ensures |Pixels(img.rows)| == |img.rows| * img.width
    ensures Pixels(img.rows) == [] <==> |img.rows| == 0 || img.width == 0
  {
    RowsTotal(img.rows, img.width);
  }

  lemma {:induction false} RowsTotal(rows: seq<seq<Color>>, w: nat)
    requires forall r :: 0 <= r < |rows| ==> |rows[r]| == w
    ensures Total(rows) == |rows| * w
  {
    if rows != [] {
      RowsTotal(rows[1..], w);
    }
  }

  // ---------------------------------------------------------------------------
  // The two most common colours

  function Count(ps: seq<Color>, c: Color): nat {
    multiset(ps)[c]
  }

  /** The position of the first pixel of colour `c`. */
  function FirstIndex<T(==)>(s: seq<T>, x: T): (k: nat)
    requires x in s
    ensures k < |s| && s[k] == x
    ensures forall j :: 0 <= j < k ==> s[j] != x
  {
    if s[0] == x then 0 else 1 + FirstIndex(s[1..], x)
  }

  /** The most common colour among the first `n` pixels other than
      `excluded`, counting over all of `ps`; a tie goes to the colour seen
      first. This is the order `Counter(ps).most_common()` lists colours in. */
  function Best(ps: seq<Color>, n: nat, excluded: Option<Color>): (b: Option<Color>)
    requires n <= |ps|
    ensures b.None? <==> forall k :: 0 <= k < n ==> Some(ps[k]) == excluded
    ensures b.Some? ==> b.value in ps && FirstIndex(ps, b.value) < n && Some(b.value) != excluded
    ensures b.Some? ==> forall k :: 0 <= k < n && Some(ps[k]) != excluded ==>
      Count(ps, ps[k]) < Count(ps, b.value)
      || (Count(ps, ps[k]) == Count(ps, b.value) && FirstIndex(ps, b.value) <= k)
  {
    if n == 0 then None
    else
      var b := Best(ps, n - 1, excluded);
      var c := ps[n - 1];
      if Some(c) == excluded then b
      else if b.None? || Count(ps, c) > Count(ps, b.value) then Some(c)
      else b
  }

  /** `[v[0] for v in Counter(ps).most_common(2)]`. */
  function TopTwo(ps: seq<Color>): (top: seq<Color>)
    ensures |top| <= 2
    ensures top == [] <==> ps == []
    ensures forall k :: 0 <= k < |top| ==> top[k] in ps
    ensures |top| == 2 ==> top[0] != top[1]
    ensures |top| < 2 ==> forall k :: 0 <= k < |ps| ==> ps[k] in top
    // the first colour has the highest count of all, the second the highest
    // count among the others; a tie goes to the colour that appears first
    ensures |top| >= 1 ==> forall k :: 0 <= k < |ps| ==>
      Count(ps, ps[k]) < Count(ps, top[0])
      || (Count(ps, ps[k]) == Count(ps, top[0]) && FirstIndex(ps, top[0]) <= k)
    ensures |top| == 2 ==> forall k :: 0 <= k < |ps| && ps[k] != top[0] ==>
      Count(ps, ps[k]) < Count(ps, top[1])
      || (Count(ps, ps[k]) == Count(ps, top[1]) && FirstIndex(ps, top[1]) <= k)
  {
    var first := Best(ps, |ps|, None);
    if first.None? then []
    else
      var second := Best(ps, |ps|, first);
      if second.None? then [first.value] else [first.value, second.value]
  }

  /** A region of one colour gives that colour and nothing else. */
  lemma SingleColour(ps: seq<Color>, c: Color)
    requires ps != [] && forall k :: 0 <= k < |ps| ==> ps[k] == c
    ensures TopTwo(ps) == [c]
  {
    assert ps[0] == c;
  }

  /** `most_common_colors`: the two most common colours of the region,
      padded with `None` to two entries. */
  method MostCommonColors(img: Image) returns (colors: seq<Option<Color>>)
    requires Rectangular(img)
    ensures |colors| == 2
    ensures var top := TopTwo(Pixels(img.rows));
      forall k :: 0 <= k < 2 ==> colors[k] == (if k < |top| then Some(top[k]) else None)
  {
    var top := TopTwo(Pixels(img.rows));
    colors := seq(|top|, k requires 0 <= k < |top| => Some(top[k]));
    while |colors| < 2
      invariant |top| <= |colors| <= 2
      invariant forall k :: 0 <= k < |colors| ==> colors[k] == (if k < |top| then Some(top[k]) else None)
      decreases 2 - |colors|
    {
      colors := colors + [None];
    }
  }

  // ---------------------------------------------------------------------------
  // Contrast ratio

  /** A relative luminance: any measure of a colour's lightness that is never
      negative. */
  type Luminance = f: Color -> real | forall c :: 0.0 <= f(c) witness (c: Color) => 0.0

  /** The power curve `v ** 2.4` of the gamma expansion, left abstract: it maps
      non-negative values to non-negative values and 1 to 1. */
  type Gamma = f: real -> real | f(1.0) == 1.0 && forall v :: 0.0 <= v ==> 0.0 <= f(v)
    witness (v: real) => v

  /** `linearize`: a gamma-compressed channel (0-255) as a linear value. */
  function Linearize(gamma: Gamma, v: Channel): (l: real)
    ensures 0.0 <= l
    ensures v == 0.0 ==> l == 0.0
    ensures v == 255.0 ==> l == 1.0
  {
    var index := v / 255.0;
    if index < 0.03928 then index / 12.92 else gamma((index + 0.055) / 1.055)
  }

  /** `relative_luminance` with the weights of WCAG 2.1, applied to the
      channels in the order they are stored. */
  function WcagLuminance(gamma: Gamma): Luminance {
    (c: Color) => 0.2126 * Linearize(gamma, c.c0) + 0.7152 * Linearize(gamma, c.c1)
                  + 0.0722 * Linearize(gamma, c.c2)
  }

  /** `calculate_contrast_ratio` as written: the lighter and darker colour are
      chosen by channel sum rather than by luminance. */
  function ContrastRatioBySum(lum: Luminance, a: Color, b: Color): (r: real)
    ensures 0.0 < r
    ensures ChannelSum(a) == ChannelSum(b) ==> r == 1.0
  {
    var light := if ChannelSum(a) > ChannelSum(b) then a else b;
    var dark := if ChannelSum(a) < ChannelSum(b) then a else b;
    (lum(light) + 0.05) / (lum(dark) + 0.05)
  }

  /** The argument order matters only when the channel sums are equal, and
      then both orders give 1. */
  lemma ContrastRatioBySumSymmetric(lum: Luminance, a: Color, b: Color)
    ensures ContrastRatioBySum(lum, a, b) == ContrastRatioBySum(lum, b, a)
  {
  }

  const Magenta := Color(255.0, 0.0, 255.0)
  const Green := Color(0.0, 255.0, 0.0)

  /** Choosing by channel sum can put the darker colour on top: magenta has
      the larger sum but a lower WCAG luminance than green, so the ratio
      falls below 1 and the pair reads as lower contrast than it has. */
  lemma ContrastRatioBySumBelowOne(gamma: Gamma)
    ensures ContrastRatioBySum(WcagLuminance(gamma), Magenta, Green) < 1.0
  {
    var lum := WcagLuminance(gamma);
    assert Linearize(gamma, 255.0) == 1.0 && Linearize(gamma, 0.0) == 0.0;
    assert lum(Magenta) == 0.2848;
    assert lum(Green) == 0.7152;
    assert ChannelSum(Magenta) > ChannelSum(Green);
    QuotientBelowOne(0.3348, 0.7652);
  }

  lemma QuotientBelowOne(a: real, b: real)
    requires 0.0 < a < b
    ensures a / b < 1.0
  {
    var q := a / b;
    assert q * b == a;
    if q >= 1.0 {
      assert false;
    }
  }

  /** The contrast ratio of WCAG 2.1: the lighter colour, by luminance, over the
      darker one. */
  function ContrastRatio(lum: Luminance, a: Color, b: Color): (r: real)
    ensures 1.0 <= r
    ensures r == 1.0 <==> lum(a) == lum(b)
  {
    var la := lum(a);
    var lb := lum(b);
    if la >= lb then Ratio(la, lb) else Ratio(lb, la)
  }

  function Ratio(light: real, dark: real): (r: real)
    requires 0.0 <= dark <= light
    ensures 1.0 <= r
    ensures r == 1.0 <==> light == dark
  {
    assert (light + 0.05) == (light + 0.05) / (dark + 0.05) * (dark + 0.05);
    (light + 0.05) / (dark + 0.05)
  }

  lemma ContrastRatioSymmetric(lum: Luminance, a: Color, b: Color)
    ensures ContrastRatio(lum, a, b) == ContrastRatio(lum, b, a)
  {
  }

  /** Where the channel sums order two colours the way their luminances do,
      the source's choice and the WCAG choice give the same ratio. */
  lemma ContrastRatioAgreesBySum(lum: Luminance, a: Color, b: Color)
    requires ChannelSum(a) > ChannelSum(b) ==> lum(a) >= lum(b)
    requires ChannelSum(b) > ChannelSum(a) ==> lum(b) >= lum(a)
    requires ChannelSum(a) == ChannelSum(b) ==> lum(a) == lum(b)
    ensures ContrastRatioBySum(lum, a, b) == ContrastRatio(lum, a, b)
  {
  }

  const White := Color(255.0, 255.0, 255.0)
  const Black := Color(0.0, 0.0, 0.0)

  /** White on black is the largest ratio WCAG defines, 21:1. */
  lemma WhiteOnBlack(gamma: Gamma)
    ensures ContrastRatio(WcagLuminance(gamma), White, Black) == 21.0
  {
    var lum := WcagLuminance(gamma);
    assert lum(White) == 1.0;
    assert lum(Black) == 0.0;
  }

  /** A rule that scores a pair of colours: `calculate_contrast_ratio` as
      written (`BySum`), or the WCAG ratio (`ByLuminance`). Either is
      positive. */
  type PairRatio = f: (Color, Color) -> real | forall a, b :: 0.0 < f(a, b)
    witness (a: Color, b: Color) => 1.0

  /** `calculate_contrast_ratio`, the rule the source uses. */
  function BySum(lum: Luminance): (ratio: PairRatio)
    ensures forall a, b :: ratio(a, b) == ContrastRatioBySum(lum, a, b)
  {
    (a: Color, b: Color) => ContrastRatioBySum(lum, a, b)
  }

  /** The WCAG contrast ratio, the rule the source evidently intends. */
  function ByLuminance(lum: Luminance): (ratio: PairRatio)
    ensures forall a, b :: ratio(a, b) == ContrastRatio(lum, a, b)
    ensures AtLeastOne(ratio)
  {
    (a: Color, b: Color) => ContrastRatio(lum, a, b)
  }

  ghost predicate AtLeastOne(ratio: PairRatio) {
    forall a, b :: 1.0 <= ratio(a, b)
  }

  // ---------------------------------------------------------------------------
  // Contrast of a word against its background

  /** The mean colour of the strips above and below a word, left abstract. */
  type BorderMean = (Image, Image) -> Color

  /** `get_contrast_ratio(img, x1, x2, y1, y2)`, with pairs of colours scored
      by `ratio`: the largest of the ratio between the two most common colours
      inside the box and the ratios between the border colour and each of
      them; a missing colour contributes -1. So the result is -1 exactly when
      the box holds no pixels, and positive otherwise. */
  function SampledContrast(ratio: PairRatio, border: BorderMean, img: Image,
                           x1: int, x2: int, y1: int, y2: int): (r: real)
    requires Rectangular(img)
    ensures r == -1.0 <==> Pixels(Crop(img, y1, y2, x1, x2).rows) == []
    ensures r != -1.0 ==> 0.0 < r
  {
    var word := Crop(img, y1, y2, x1, x2);
    var borderColor := border(Crop(img, y1 - 3, y1, x1, x2), Crop(img, y2, y2 + 3, x1, x2));
    var top := TopTwo(Pixels(word.rows));
    var contrast1 := if |top| == 2 then ratio(top[0], top[1]) else -1.0;
    var contrast2 := if |top| >= 1 then ratio(borderColor, top[0]) else -1.0;
    var contrast3 := if |top| == 2 then ratio(borderColor, top[1]) else -1.0;
    Max3(contrast1, contrast2, contrast3)
  }

  /** `max(a, b, c)`. */
  function Max3(a: real, b: real, c: real): (m: real)
    ensures a <= m && b <= m && c <= m
    ensures m == a || m == b || m == c
  {
    if a >= b && a >= c then a else if b >= c then b else c
  }

  /** With a rule that never scores a pair below 1, such as the WCAG ratio,
      a box with pixels is never measured below 1. */
  lemma SampledAtLeastOne(ratio: PairRatio, border: BorderMean, img: Image,
                          x1: int, x2: int, y1: int, y2: int)
    requires Rectangular(img) && AtLeastOne(ratio)
    ensures var r := SampledContrast(ratio, border, img, x1, x2, y1, y2);
      r == -1.0 || 1.0 <= r
  {
    var top := TopTwo(Pixels(Crop(img, y1, y2, x1, x2).rows));
    if |top| >= 1 {
      var b := border(Crop(img, y1 - 3, y1, x1, x2), Crop(img, y2, y2 + 3, x1, x2));
      assert 1.0 <= ratio(b, top[0]);
    }
  }

  /** A box of one colour is measured against its border alone. */
  lemma SampledSingleColour(ratio: PairRatio, border: BorderMean, img: Image,
                            x1: int, x2: int, y1: int, y2: int, c: Color)
    requires Rectangular(img)
    requires var ps := Pixels(Crop(img, y1, y2, x1, x2).rows);
      ps != [] && forall k :: 0 <= k < |ps| ==> ps[k] == c
    ensures SampledContrast(ratio, border, img, x1, x2, y1, y2)
      == ratio(border(Crop(img, y1 - 3, y1, x1, x2), Crop(img, y2, y2 + 3, x1, x2)), c)
  {
    SingleColour(Pixels(Crop(img, y1, y2, x1, x2).rows), c);
  }

  /** As written, a green word between magenta strips is measured below 1:
      the sum puts magenta on top although green is the lighter colour. */
  lemma SampledBelowOne(gamma: Gamma, border: BorderMean, img: Image,
                        x1: int, x2: int, y1: int, y2: int)
    requires Rectangular(img)
    requires var ps := Pixels(Crop(img, y1, y2, x1, x2).rows);
      ps != [] && forall k :: 0 <= k < |ps| ==> ps[k] == Green
    requires border(Crop(img, y1 - 3, y1, x1, x2), Crop(img, y2, y2 + 3, x1, x2)) == Magenta
    ensures SampledContrast(BySum(WcagLuminance(gamma)), border, img, x1, x2, y1, y2) < 1.0
    ensures 1.0 < SampledContrast(ByLuminance(WcagLuminance(gamma)), border, img, x1, x2, y1, y2)
  {
    var lum := WcagLuminance(gamma);
    SampledSingleColour(BySum(lum), border, img, x1, x2, y1, y2, Green);
    SampledSingleColour(ByLuminance(lum), border, img, x1, x2, y1, y2, Green);
    ContrastRatioBySumBelowOne(gamma);
    MagentaGreenDiffer(gamma);
  }

  lemma MagentaGreenDiffer(gamma: Gamma)
    ensures WcagLuminance(gamma)(Magenta) != WcagLuminance(gamma)(Green)
  {
    assert Linearize(gamma, 255.0) == 1.0 && Linearize(gamma, 0.0) == 0.0;
  }

  /** A box of two or more colours is never measured below the ratio between
      its two most common colours. */
  lemma SampledAtLeastInner(ratio: PairRatio, border: BorderMean, img: Image,
                            x1: int, x2: int, y1: int, y2: int)
    requires Rectangular(img)
    requires |TopTwo(Pixels(Crop(img, y1, y2, x1, x2).rows))| == 2
    ensures var top := TopTwo(Pixels(Crop(img, y1, y2, x1, x2).rows));
      ratio(top[0], top[1]) <= SampledContrast(ratio, border, img, x1, x2, y1, y2)
  {
  }

  /** A crop inside the image has exactly the requested size. */
  lemma CropInside(img: Image, y1: int, y2: int, x1: int, x2: int)
    requires Rectangular(img)
    requires 0 <= y1 <= y2 <= |img.rows| && 0 <= x1 <= x2 <= img.width
    ensures |Crop(img, y1, y2, x1, x2).rows| == y2 - y1 && Crop(img, y1, y2, x1, x2).width == x2 - x1
  {
    assert SliceBounds(|img.rows|, y1, y2) == (y1, y2);
    assert SliceBounds(img.width, x1, x2) == (x1, x2);
  }

  /** A box with pixels inside the image is always measured: its sample is a
      positive ratio, never -1. */
  lemma SampledInside(ratio: PairRatio, border: BorderMean, img: Image,
                      x1: int, x2: int, y1: int, y2: int)
    requires Rectangular(img)
    requires 0 <= y1 < y2 <= |img.rows| && 0 <= x1 < x2 <= img.width
    ensures 0.0 < SampledContrast(ratio, border, img, x1, x2, y1, y2)
  {
    CropInside(img, y1, y2, x1, x2);
    PixelCount(Crop(img, y1, y2, x1, x2));
  }

  // ---------------------------------------------------------------------------
  // XPath of a DOM element

  /** Only the document's `html` element has no parent. */
  predicate Rooted(dom: Tree) {
    forall i :: 0 <= i < |dom| && dom[i].parent.None? ==> dom[i].tag == "html"
  }

  /** How many of the first `n` elements of `cs` have the tag `tag`. */
  function TagCount(dom: Tree, cs: seq<nat>, n: nat, tag: string): (c: nat)
    requires n <= |cs| && forall k :: 0 <= k < |cs| ==> cs[k] < |dom|
    ensures c <= n
  {
    if n == 0 then 0
    else TagCount(dom, cs, n - 1, tag) + (if dom[cs[n - 1]].tag == tag then 1 else 0)
  }

  lemma {:induction false} TagCountMonotone(dom: Tree, cs: seq<nat>, m: nat, n: nat, tag: string)
    requires m <= n <= |cs| && forall k :: 0 <= k < |cs| ==> cs[k] < |dom|
    ensures TagCount(dom, cs, m, tag) <= TagCount(dom, cs, n, tag)
    decreases n - m
  {
    if m < n {
      TagCountMonotone(dom, cs, m, n - 1, tag);
    }
  }

  /** The position of element `i` among the children `cs` of its parent that
      share its tag, counting from 1. */
  function SiblingRank(dom: Tree, cs: seq<nat>, i: nat): (r: nat)
    requires i < |dom| && i in cs && forall k :: 0 <= k < |cs| ==> cs[k] < |dom|
    ensures 1 <= r
  {
    TagCount(dom, cs, FirstIndex(cs, i) + 1, dom[i].tag)
  }

  /** Two different siblings with the same tag get different ranks, so the
      step `/tag[rank]` tells them apart. */
  lemma SiblingRanksDistinct(dom: Tree, cs: seq<nat>, i: nat, j: nat)
    requires i < |dom| && j < |dom| && i in cs && j in cs && i != j
    requires forall k :: 0 <= k < |cs| ==> cs[k] < |dom|
    requires dom[i].tag == dom[j].tag
    ensures SiblingRank(dom, cs, i) != SiblingRank(dom, cs, j)
  {
    var fi, fj := FirstIndex(cs, i), FirstIndex(cs, j);
    if fi < fj {
      TagCountMonotone(dom, cs, fi + 1, fj, dom[i].tag);
    } else {
      TagCountMonotone(dom, cs, fj + 1, fi, dom[i].tag);
    }
  }

  /** `get_xpath_of_element(element, suffix)`: the `/tag[rank]` steps from
      the `html` element down to element `i`, followed by `suffix`; empty
      when an element is missing from its parent's children. */
  function XPath(dom: Tree, i: nat, suffix: string): string
    requires WellFormed(dom) && Rooted(dom) && i < |dom|
    decreases i
  {
    if dom[i].tag == "html" then "/html[1]" + suffix
    else
      var p := dom[i].parent.value;
      var cs := dom[p].children;
      if i !in cs then ""
      else XPath(dom, p, "/" + dom[i].tag + "[" + NatToString(SiblingRank(dom, cs, i)) + "]" + suffix)
  }

  /** An xpath is empty or starts at `/html[1]` and ends with the suffix it
      was given. */
  lemma {:induction false} XPathShape(dom: Tree, i: nat, suffix: string)
    requires WellFormed(dom) && Rooted(dom) && i < |dom|
    ensures var x := XPath(dom, i, suffix);
      x == "" || (|x| >= 8 + |suffix| && x[..8] == "/html[1]" && x[|x| - |suffix|..] == suffix)
    decreases i
  {
    if dom[i].tag != "html" {
      var p := dom[i].parent.value;
      var cs := dom[p].children;
      if i in cs {
        var step := "/" + dom[i].tag + "[" + NatToString(SiblingRank(dom, cs, i)) + "]";
        XPathShape(dom, p, step + suffix);
        var x := XPath(dom, i, suffix);
        if x != "" {
          assert x[|x| - |suffix|..] == (step + suffix)[|step|..];
        }
      }
    }
  }

  /** The `html` element's xpath is `/html[1]`. */
  lemma XPathOfRoot(dom: Tree, i: nat)
    requires WellFormed(dom) && Rooted(dom) && i < |dom| && dom[i].tag == "html"
    ensures XPath(dom, i, "") == "/html[1]"
  {
  }

  /** `get_xpath_of_element`: counts same-tag siblings up to the element, then
      recurses on the parent with the new step prepended. */
  method XPathOf(dom: Tree, i: nat, suffix: string) returns (x: string)
    requires WellFormed(dom) && Rooted(dom) && i < |dom|
    ensures x == XPath(dom, i, suffix)
    decreases i
  {
    if dom[i].tag == "html" {
      return "/html[1]" + suffix;
    }
    var p := dom[i].parent.value;
    var children := dom[p].children;
    var count := 0;
    var k := 0;
    while k < |children|
      invariant k <= |children|
      invariant i !in children[..k]
      invariant count == TagCount(dom, children, k, dom[i].tag)
    {
      if dom[i].tag == dom[children[k]].tag {
        count := count + 1;
      }
      if children[k] == i {
        assert FirstIndex(children, i) == k;
        x := XPathOf(dom, p, "/" + dom[i].tag + "[" + NatToString(count) + "]" + suffix);
        return;
      }
      assert children[..k + 1] == children[..k] + [children[k]];
      k := k + 1;
    }
    assert children[..k] == children;
    return "";
  }
}
