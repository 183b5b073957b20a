/** WCAG 1.4.3 (contrast, minimum): text boxes found on the screenshot are
    scored for contrast, the low ones are snapped into rows, merged into
    lines and reported once per DOM element. */
module Wcag143 {
  import opened Py
  import opened Dom
  import opened Infractions
  import opened Utils14

  const MinContrastRatio: real := 4.5
  const MinContrastRatioLargeText: real := 3.0
  /** Scores below this are taken for sampling noise and never reported. */
  const MinReportedContrast: real := 1.2
  /** Boxes lower than this many pixels hold normal (not large) text. */
  const LargeTextHeight: int := 20
  /** Boxes whose tops lie this close are put on one row. */
  const RowTolerance: int := 3

  /** The fields of a bounding box at one moment. */
  datatype Box = Box(x1: int, x2: int, y1: int, y2: int, contrast: real, threshold: real)

  /** A text box found by the detector. The scoring, snapping and merging
      passes update its fields in place. */
  class BoundingBox {
    var x1: int
    var x2: int
    var y1: int
    var y2: int
    var contrast: real
    var threshold: real

    /** The detector's boxes start with no contrast and no threshold (-1). */
    constructor (x1: int, x2: int, y1: int, y2: int)
      ensures Value() == Box(x1, x2, y1, y2, -1.0, -1.0)
    {
      this.x1, this.x2, this.y1, this.y2 := x1, x2, y1, y2;
      contrast, threshold := -1.0, -1.0;
    }

    function Value(): Box
      reads this
    {
      Box(x1, x2, y1, y2, contrast, threshold)
    }
  }

  function Values(bs: seq<BoundingBox>): (vs: seq<Box>)
    reads set b | b in bs
    ensures |vs| == |bs| && forall k :: 0 <= k < |bs| ==> vs[k] == bs[k].Value()
  {
    seq(|bs|, k reads set b | b in bs requires 0 <= k < |bs| => bs[k].Value())
  }

  // ---------------------------------------------------------------------------
  // Padding the screenshot

  /** `get_new_size`: width and height rounded up to the next multiple of 32;
      a size that is already a multiple still grows by 32. */
  function NewSize(width: nat, height: nat): (size: (nat, nat))
    ensures size.0 % 32 == 0 && width < size.0 <= width + 32
    ensures size.1 % 32 == 0 && height < size.1 <= height + 32
    ensures width % 32 == 0 ==> size.0 == width + 32
    ensures height % 32 == 0 ==> size.1 == height + 32
  {
    (width + (32 - width % 32), height + (32 - height % 32))
  }

  /** `cv2.resize` to a given width and height, left abstract. */
  type Resizer = f: (Image, nat, nat) -> Image | forall img, w, h :: Rectangular(f(img, w, h))
    witness (img: Image, w: nat, h: nat) => Image([], 0)

  /** The retina screenshot resized to twice the padded size of the
      screenshot, so that box coordinates doubled address it. */
  function Enlarged(resize: Resizer, imgSmall: Image, imgLarge: Image): (img: Image)
    ensures Rectangular(img)
  {
    var size := NewSize(imgSmall.width, |imgSmall.rows|);
    resize(imgLarge, 2 * size.0, 2 * size.1)
  }

  // ---------------------------------------------------------------------------
  // Scoring

  /** The parts of the contrast measurement left abstract. */
  datatype Sampler = Sampler(lum: Luminance, border: BorderMean)

  /** Normal text needs 4.5:1, large text (20 pixels or more) 3:1. */
  function Threshold(v: Box): (t: real)
    ensures t == MinContrastRatio || t == MinContrastRatioLargeText
    ensures t == MinContrastRatio <==> v.y2 - v.y1 < LargeTextHeight
  {
    if v.y2 - v.y1 < LargeTextHeight then MinContrastRatio else MinContrastRatioLargeText
  }

  /** The contrast of a box, sampled on the double-resolution screenshot with
      the source's channel-sum rule: -1 exactly when the doubled box covers
      no pixels, otherwise positive (and possibly below 1). */
  function Score(s: Sampler, img: Image, v: Box): (c: real)
    requires Rectangular(img)
    ensures c == -1.0 <==> Pixels(Crop(img, 2 * v.y1, 2 * v.y2, 2 * v.x1, 2 * v.x2).rows) == []
    ensures c != -1.0 ==> 0.0 < c
  {
    SampledContrast(BySum(s.lum), s.border, img, 2 * v.x1, 2 * v.x2, 2 * v.y1, 2 * v.y2)
  }

  /** The scoring function of the pass, on the enlarged screenshot. */
  function Scorer(s: Sampler, img: Image): (score: Box -> real)
    requires Rectangular(img)
    ensures forall v :: score(v) == Score(s, img, v)
  {
    v => Score(s, img, v)
  }

  /** A box is reported when its contrast is below its threshold but not
      below 1.2. */
  predicate IsLow(v: Box) {
    MinReportedContrast <= v.contrast < v.threshold
  }

  /** A low box whose threshold is one of the two the criterion sets. */
  predicate Reportable(v: Box) {
    IsLow(v) && (v.threshold == MinContrastRatio || v.threshold == MinContrastRatioLargeText)
  }

  /** A box with its score and threshold filled in. */
  function Scored(score: Box -> real, v: Box): (w: Box)
    ensures w.x1 == v.x1 && w.x2 == v.x2 && w.y1 == v.y1 && w.y2 == v.y2
    ensures w.threshold == Threshold(v)
  {
    v.(contrast := score(v), threshold := Threshold(v))
  }

  /** The boxes the scoring pass keeps, in detector order. */
  function Kept(score: Box -> real, vs: seq<Box>): (kept: seq<Box>)
    ensures |kept| <= |vs|
    ensures forall k :: 0 <= k < |kept| ==> Reportable(kept[k])
  {
    if vs == [] then []
    else
      var scored := Scored(score, vs[|vs| - 1]);
      Kept(score, vs[..|vs| - 1]) + (if IsLow(scored) then [scored] else [])
  }

  /** A box is kept exactly when its score is at least 1.2 and below the
      threshold for its height, and it is kept with that score and
      threshold. */
  lemma {:induction false} KeptExactly(score: Box -> real, vs: seq<Box>)
    ensures forall k :: 0 <= k < |vs| && IsLow(Scored(score, vs[k])) ==>
      Scored(score, vs[k]) in Kept(score, vs)
    ensures forall w :: w in Kept(score, vs) ==>
      exists k :: 0 <= k < |vs| && w == Scored(score, vs[k]) && IsLow(w)
  {
    if vs != [] {
      var init := vs[..|vs| - 1];
      KeptExactly(score, init);
      forall w | w in Kept(score, vs)
        ensures exists k :: 0 <= k < |vs| && w == Scored(score, vs[k]) && IsLow(w)
      {
        if w in Kept(score, init) {
          var k :| 0 <= k < |init| && w == Scored(score, init[k]) && IsLow(w);
          assert init[k] == vs[k];
        } else {
          assert w == Scored(score, vs[|vs| - 1]);
        }
      }
      forall k | 0 <= k < |vs| && IsLow(Scored(score, vs[k]))
        ensures Scored(score, vs[k]) in Kept(score, vs)
      {
        if k < |init| {
          assert init[k] == vs[k];
        }
      }
    }
  }

  /** Every box of `vs` has one of the contrasts `cs`. */
  predicate ContrastsAmong(vs: seq<Box>, cs: seq<real>) {
    forall k :: 0 <= k < |vs| ==> vs[k].contrast in cs
  }

  /** The scores of the boxes. */
  function Scores(score: Box -> real, vs: seq<Box>): (cs: seq<real>)
    ensures |cs| == |vs| && forall k :: 0 <= k < |vs| ==> cs[k] == score(vs[k])
  {
    seq(|vs|, k requires 0 <= k < |vs| => score(vs[k]))
  }

  /** A kept box carries the score of one of the boxes. */
  lemma KeptContrasts(score: Box -> real, vs: seq<Box>)
    ensures ContrastsAmong(Kept(score, vs), Scores(score, vs))
  {
    var kept := Kept(score, vs);
    var cs := Scores(score, vs);
    KeptExactly(score, vs);
    forall k | 0 <= k < |kept|
      ensures kept[k].contrast in cs
    {
      assert kept[k] in kept;
      var j :| 0 <= j < |vs| && kept[k] == Scored(score, vs[j]) && IsLow(kept[k]);
      assert cs[j] == kept[k].contrast;
    }
  }

  /** The state of the scoring loop after the first `i` boxes: `low` holds
      the kept ones among them, with the values `Kept` gives; every other box
      is as it was. */
  ghost predicate Keeping(boxes: seq<BoundingBox>, before: seq<Box>, i: nat,
                          low: seq<BoundingBox>, score: Box -> real)
    reads set b | b in boxes
  {
    i <= |boxes| == |before|
    && NoDuplicates(low) && (forall b :: b in low ==> b in boxes[..i])
    && Values(low) == Kept(score, before[..i])
    && (forall j :: i <= j < |boxes| ==> boxes[j].Value() == before[j])
    && (forall j :: 0 <= j < i && boxes[j] !in low ==> boxes[j].Value() == before[j])
  }

  /** One turn of the scoring loop, on box `i`. */
  method KeepTurn(boxes: seq<BoundingBox>, ghost before: seq<Box>, i: nat,
                  low: seq<BoundingBox>, score: Box -> real) returns (low': seq<BoundingBox>)
    requires NoDuplicates(boxes) && i < |boxes| && Keeping(boxes, before, i, low, score)
    modifies boxes[i]
    ensures Keeping(boxes, before, i + 1, low', score)
  {
    var box := boxes[i];
    assert box !in low;
    assert forall j :: 0 <= j < |boxes| && j != i ==> boxes[j] != box;
    var contrast := score(box.Value());
    var minContrast := if box.y2 - box.y1 < LargeTextHeight then MinContrastRatio else MinContrastRatioLargeText;
    assert before[..i + 1][..i] == before[..i];
    low' := low;
    if contrast < minContrast && contrast >= MinReportedContrast {
      box.contrast := contrast;
      box.threshold := minContrast;
      low' := low + [box];
    }
  }

  /** The scoring loop: every box is scored; a low box gets its contrast and
      threshold written and joins the low list, the others stay as they
      were. */
  method KeepLowContrast(boxes: seq<BoundingBox>, score: Box -> real) returns (low: seq<BoundingBox>)
    requires NoDuplicates(boxes)
    modifies set b | b in boxes
    ensures NoDuplicates(low) && forall b :: b in low ==> b in boxes
    ensures Values(low) == Kept(score, old(Values(boxes)))
    ensures forall b :: b in boxes && b !in low ==> b.Value() == old(b.Value())
  {
    ghost var before := Values(boxes);
    low := [];
    var i := 0;
    assert before[..0] == [];
    while i < |boxes|
      invariant Keeping(boxes, before, i, low, score)
    {
      low := KeepTurn(boxes, before, i, low, score);
      i := i + 1;
    }
    assert before[..i] == before;
    assert boxes[..i] == boxes;
  }

  // ---------------------------------------------------------------------------
  // Snapping rows

  /** Lexicographic order on the sort key `[b.y1, b.x1]`. */
  predicate KeyBefore(a: (int, int), b: (int, int)) {
    a.0 < b.0 || (a.0 == b.0 && a.1 <= b.1)
  }

  predicate SortedBy<T>(xs: seq<T>, key: T -> (int, int)) {
    forall i, j :: 0 <= i < j < |xs| ==> KeyBefore(key(xs[i]), key(xs[j]))
  }

  /** Inserts `x` in front of the first element it may come before. */
  function InsertBy<T>(x: T, xs: seq<T>, key: T -> (int, int)): (r: seq<T>)
    ensures multiset(r) == multiset(xs) + multiset{x}
  {
    if xs == [] || KeyBefore(key(x), key(xs[0])) then [x] + xs
    else
      assert xs == [xs[0]] + xs[1..];
      [xs[0]] + InsertBy(x, xs[1..], key)
  }

  lemma {:induction false} InsertBySorted<T>(x: T, xs: seq<T>, key: T -> (int, int))
    requires SortedBy(xs, key)
    ensures SortedBy(InsertBy(x, xs, key), key)
  {
    if xs != [] && !KeyBefore(key(x), key(xs[0])) {
      InsertBySorted(x, xs[1..], key);
      InsertByAbove(xs[0], x, xs[1..], key);
    }
  }

  /** An element whose key comes before `x` and before all of `xs` comes
      before everything in `InsertBy(x, xs, key)`. */
  lemma {:induction false} InsertByAbove<T>(y: T, x: T, xs: seq<T>, key: T -> (int, int))
    requires KeyBefore(key(y), key(x))
    requires forall k :: 0 <= k < |xs| ==> KeyBefore(key(y), key(xs[k]))
    ensures forall k :: 0 <= k < |InsertBy(x, xs, key)| ==> KeyBefore(key(y), key(InsertBy(x, xs, key)[k]))
  {
    if xs != [] && !KeyBefore(key(x), key(xs[0])) {
      InsertByAbove(y, x, xs[1..], key);
    }
  }

  /** Python's `sorted` by a key: a stable sort, so elements with equal keys
      keep their order. */
  function SortBy<T>(xs: seq<T>, key: T -> (int, int)): (r: seq<T>)
    ensures multiset(r) == multiset(xs)
  {
    if xs == [] then []
    else
      assert xs == [xs[0]] + xs[1..];
      InsertBy(xs[0], SortBy(xs[1..], key), key)
  }

  lemma {:induction false} SortBySorted<T>(xs: seq<T>, key: T -> (int, int))
    ensures SortedBy(SortBy(xs, key), key)
  {
    if xs != [] {
      SortBySorted(xs[1..], key);
      InsertBySorted(xs[0], SortBy(xs[1..], key), key);
    }
  }

  /** The key `[b.y1, b.x1]` of every box in `bs`, read now. */
  function RowKeys(bs: seq<BoundingBox>): (key: BoundingBox -> (int, int))
    reads set b | b in bs
    ensures forall b :: b in bs ==> key(b) == (b.y1, b.x1)
  {
    var m := map b | b in bs :: (b.y1, b.x1);
    b => if b in m then m[b] else (0, 0)
  }

  /** `bs` is ordered by top edge, then left edge. */
  predicate RowSorted(bs: seq<BoundingBox>)
    reads set b | b in bs
  {
    KeysSorted(RowKeySeq(bs))
  }

  function RowKeySeq(bs: seq<BoundingBox>): (ks: seq<(int, int)>)
    reads set b | b in bs
    ensures |ks| == |bs| && forall k :: 0 <= k < |bs| ==> ks[k] == (bs[k].y1, bs[k].x1)
  {
    seq(|bs|, k reads set b | b in bs requires 0 <= k < |bs| => (bs[k].y1, bs[k].x1))
  }

  predicate KeysSorted(ks: seq<(int, int)>) {
    forall i, j :: 0 <= i < j < |ks| ==> KeyBefore(ks[i], ks[j])
  }

  /** `sorted(bs, key=lambda b: [b.y1, b.x1])`. */
  function SortRows(bs: seq<BoundingBox>): seq<BoundingBox>
    reads set b | b in bs
  {
    SortBy(bs, RowKeys(bs))
  }

  /** Sorting rows rearranges the boxes into order by top edge, then left
      edge. */
  lemma SortRowsSorts(bs: seq<BoundingBox>)
    ensures multiset(SortRows(bs)) == multiset(bs)
    ensures RowSorted(SortRows(bs))
  {
    var r := SortRows(bs);
    var key := RowKeys(bs);
    SortBySorted(bs, key);
    forall i | 0 <= i < |r|
      ensures key(r[i]) == (r[i].y1, r[i].x1)
    {
      assert r[i] in multiset(bs);
    }
  }

  /** The call `sorted(bs, key=lambda b: [b.y1, b.x1])`. */
  method SortByRow(bs: seq<BoundingBox>) returns (r: seq<BoundingBox>)
    ensures r == SortRows(bs)
    ensures multiset(r) == multiset(bs)
    ensures RowSorted(r)
  {
    r := SortRows(bs);
    SortRowsSorts(bs);
  }

  // ---------------------------------------------------------------------------
  // Stability of the sort

  /** `a` comes before `b` in `xs`. */
  ghost predicate Before<T>(xs: seq<T>, a: T, b: T) {
    a in xs && b in xs && FirstIndex(xs, a) < FirstIndex(xs, b)
  }

  /** Elements of `r` with equal keys come in the order they have in `xs`. */
  ghost predicate StableFor<T>(r: seq<T>, xs: seq<T>, key: T -> (int, int)) {
    forall i, j :: 0 <= i < j < |r| && key(r[i]) == key(r[j]) ==> Before(xs, r[i], r[j])
  }

  lemma IndexOfDistinct<T>(xs: seq<T>, i: nat)
    requires NoDuplicates(xs) && i < |xs|
    ensures FirstIndex(xs, xs[i]) == i
  {
  }

  lemma FirstIndexTail<T>(xs: seq<T>, y: T)
    requires xs != [] && y in xs[1..] && y != xs[0]
    ensures FirstIndex(xs, y) == 1 + FirstIndex(xs[1..], y)
  {
  }

  /** Where `InsertBy` puts `x`: after the elements whose keys come strictly
      before its own. */
  lemma {:induction false} InsertByAt<T>(x: T, xs: seq<T>, key: T -> (int, int)) returns (p: nat)
    ensures p <= |xs|
    ensures var r := InsertBy(x, xs, key);
      |r| == |xs| + 1 && r[p] == x
      && (forall k :: 0 <= k < p ==> r[k] == xs[k])
      && (forall k :: p < k < |r| ==> r[k] == xs[k - 1])
    ensures forall j :: 0 <= j < p ==> !KeyBefore(key(x), key(xs[j]))
  {
    if xs == [] || KeyBefore(key(x), key(xs[0])) {
      p := 0;
    } else {
      var q := InsertByAt(x, xs[1..], key);
      p := q + 1;
      var r := InsertBy(x, xs, key);
      var r' := InsertBy(x, xs[1..], key);
      assert r == [xs[0]] + r';
      forall k | 0 < k < |r|
        ensures r[k] == r'[k - 1]
      {
      }
      forall j | 0 <= j < p
        ensures !KeyBefore(key(x), key(xs[j]))
      {
        if 0 < j {
          assert xs[j] == xs[1..][j - 1];
        }
      }
    }
  }

  /** `sorted` is stable: elements with equal keys keep their order. */
  lemma {:induction false} SortByStable<T>(xs: seq<T>, key: T -> (int, int))
    requires NoDuplicates(xs)
    ensures StableFor(SortBy(xs, key), xs, key)
  {
    if xs != [] {
      var rest := xs[1..];
      var s := SortBy(rest, key);
      SortByStable(rest, key);
      var p := InsertByAt(xs[0], s, key);
      var r := SortBy(xs, key);
      assert r == InsertBy(xs[0], s, key);
      InTail(xs, s);
      forall i, j | 0 <= i < j < |r| && key(r[i]) == key(r[j])
        ensures Before(xs, r[i], r[j])
      {
        InsertedPair(xs, s, r, p, key, i, j);
      }
    }
  }

  /** A rearrangement of the tail of a list without duplicates holds only
      elements of the tail, none of them the head. */
  lemma InTail<T>(xs: seq<T>, s: seq<T>)
    requires NoDuplicates(xs) && xs != [] && multiset(s) == multiset(xs[1..])
    ensures forall k :: 0 <= k < |s| ==> s[k] in xs[1..] && s[k] != xs[0]
  {
    forall k | 0 <= k < |s|
      ensures s[k] in xs[1..] && s[k] != xs[0]
    {
      assert s[k] in multiset(xs[1..]);
    }
  }

  /** One pair of `r`, the list `s` with `xs[0]` inserted at `p`. */
  lemma InsertedPair<T>(xs: seq<T>, s: seq<T>, r: seq<T>, p: nat, key: T -> (int, int), i: nat, j: nat)
    requires xs != [] && forall k :: 0 <= k < |s| ==> s[k] in xs[1..] && s[k] != xs[0]
    requires StableFor(s, xs[1..], key)
    requires p <= |s| && forall k :: 0 <= k < p ==> !KeyBefore(key(xs[0]), key(s[k]))
    requires |r| == |s| + 1 && r[p] == xs[0]
    requires forall k :: 0 <= k < p ==> r[k] == s[k]
    requires forall k :: p < k < |r| ==> r[k] == s[k - 1]
    requires i < j < |r| && key(r[i]) == key(r[j])
    ensures Before(xs, r[i], r[j])
  {
    if i == p {
      FirstIndexTail(xs, r[j]);
    } else if j != p {
      var i', j' := if i < p then i else i - 1, if j < p then j else j - 1;
      assert r[i] == s[i'] && r[j] == s[j'];
      FirstIndexTail(xs, r[i]);
      FirstIndexTail(xs, r[j]);
    }
  }

  /** A sorted, stable rearrangement is unique: two lists sorted by the same
      key, holding the same distinct elements, each with ties in the order of
      `xs`, are the same list. */
  lemma {:induction false} StableUnique<T>(r1: seq<T>, r2: seq<T>, xs: seq<T>, key: T -> (int, int))
    requires multiset(r1) == multiset(r2) && NoDuplicates(r1)
    requires SortedBy(r1, key) && SortedBy(r2, key)
    requires StableFor(r1, xs, key) && StableFor(r2, xs, key)
    ensures r1 == r2
    decreases |r1|
  {
    assert |r1| == |multiset(r1)| == |r2|;
    if r1 != [] {
      SameHead(r1, r2, xs, key);
      var t1, t2 := r1[1..], r2[1..];
      OrderedTail(r1, xs, key);
      OrderedTail(r2, xs, key);
      assert r1 == [r1[0]] + t1 && r2 == [r2[0]] + t2;
      assert multiset(r1) == multiset{r1[0]} + multiset(t1);
      assert multiset(r2) == multiset{r2[0]} + multiset(t2);
      assert multiset(t1) == multiset(r1) - multiset{r1[0]} == multiset(t2);
      StableUnique(t1, t2, xs, key);
    }
  }

  lemma OrderedTail<T>(r: seq<T>, xs: seq<T>, key: T -> (int, int))
    requires r != [] && SortedBy(r, key) && StableFor(r, xs, key)
    ensures SortedBy(r[1..], key) && StableFor(r[1..], xs, key)
    ensures NoDuplicates(r) ==> NoDuplicates(r[1..])
  {
    var t := r[1..];
    forall i, j | 0 <= i < j < |t|
      ensures KeyBefore(key(t[i]), key(t[j]))
      ensures key(t[i]) == key(t[j]) ==> Before(xs, t[i], t[j])
    {
      assert t[i] == r[i + 1] && t[j] == r[j + 1];
    }
  }

  lemma SameHead<T>(r1: seq<T>, r2: seq<T>, xs: seq<T>, key: T -> (int, int))
    requires multiset(r1) == multiset(r2) && r1 != [] && r2 != []
    requires SortedBy(r1, key) && SortedBy(r2, key)
    requires StableFor(r1, xs, key) && StableFor(r2, xs, key)
    ensures r1[0] == r2[0]
  {
    var a, b := r1[0], r2[0];
    assert b in multiset(r1) && a in multiset(r2);
    var j :| 0 <= j < |r1| && r1[j] == b;
    var i :| 0 <= i < |r2| && r2[i] == a;
    assert KeyBefore(key(a), key(b)) && KeyBefore(key(b), key(a));
    assert a != b ==> Before(xs, a, b) && Before(xs, b, a);
  }

  /** Sorting keeps `a` before `b` when `a`'s key does not come after `b`'s. */
  lemma SortByKeepsOrder<T>(xs: seq<T>, key: T -> (int, int), a: T, b: T)
    requires NoDuplicates(xs) && Before(xs, a, b) && KeyBefore(key(a), key(b))
    ensures Before(SortBy(xs, key), a, b)
  {
    var r := SortBy(xs, key);
    assert a in multiset(r) && b in multiset(r);
    SortBySorted(xs, key);
    SortByStable(xs, key);
    KeepsOrderIn(xs, r, key, a, b);
  }

  lemma KeepsOrderIn<T>(xs: seq<T>, r: seq<T>, key: T -> (int, int), a: T, b: T)
    requires a in r && b in r && SortedBy(r, key) && StableFor(r, xs, key)
    requires Before(xs, a, b) && KeyBefore(key(a), key(b))
    ensures Before(r, a, b)
  {
    var i, j := FirstIndex(r, a), FirstIndex(r, b);
    assert j < i ==> KeyBefore(key(r[j]), key(r[i]));
    assert j < i ==> Before(xs, r[j], r[i]);
  }

  /** Elements of `order` whose keys in `fk` are equal appear in `rows` in
      the order they have in `order`. */
  ghost predicate TiesInOrder<T>(rows: seq<T>, order: seq<T>, fk: seq<(int, int)>) {
    |fk| == |order| && forall p, q :: 0 <= p < q < |order| && fk[p] == fk[q] ==> Before(rows, order[p], order[q])
  }

  lemma TiesInOrderSelf<T>(order: seq<T>, fk: seq<(int, int)>)
    requires NoDuplicates(order) && |fk| == |order|
    ensures TiesInOrder(order, order, fk)
  {
    forall p, q | 0 <= p < q < |order|
      ensures Before(order, order[p], order[q])
    {
      IndexOfDistinct(order, p);
      IndexOfDistinct(order, q);
    }
  }

  /** A sort under keys that keep every tie of `fk` in order keeps those ties
      in order. */
  lemma TiesAfterSort<T>(rows: seq<T>, order: seq<T>, key: T -> (int, int), fk: seq<(int, int)>)
    requires NoDuplicates(rows) && TiesInOrder(rows, order, fk)
    requires forall p, q :: 0 <= p < q < |order| && fk[p] == fk[q] ==> KeyBefore(key(order[p]), key(order[q]))
    ensures TiesInOrder(SortBy(rows, key), order, fk)
  {
    forall p, q | 0 <= p < q < |order| && fk[p] == fk[q]
      ensures Before(SortBy(rows, key), order[p], order[q])
    {
      SortByKeepsOrder(rows, key, order[p], order[q]);
    }
  }

  /** Once `fk` are the keys, ties in order make `rows` stable with respect
      to `order`. */
  lemma TiesStable<T>(rows: seq<T>, order: seq<T>, key: T -> (int, int), fk: seq<(int, int)>)
    requires NoDuplicates(rows) && multiset(rows) == multiset(order)
    requires TiesInOrder(rows, order, fk)
    requires forall j :: 0 <= j < |order| ==> key(order[j]) == fk[j]
    ensures StableFor(rows, order, key)
  {
    forall i, j | 0 <= i < j < |rows| && key(rows[i]) == key(rows[j])
      ensures Before(order, rows[i], rows[j])
    {
      assert rows[i] in multiset(order) && rows[j] in multiset(order);
      var p, q := FirstIndex(order, rows[i]), FirstIndex(order, rows[j]);
      var op, oq := order[p], order[q];
      IndexOfDistinct(rows, i);
      IndexOfDistinct(rows, j);
      assert q < p ==> Before(rows, oq, op);
    }
  }

  /** The sort key `[v.y1, v.x1]` of a box value. */
  function BoxKey(v: Box): (int, int) {
    (v.y1, v.x1)
  }

  /** `[f(x) for x in xs]`. */
  function MapSeq<T, U>(xs: seq<T>, f: T -> U): (ys: seq<U>)
    ensures |ys| == |xs| && forall k :: 0 <= k < |xs| ==> ys[k] == f(xs[k])
  {
    if xs == [] then [] else [f(xs[0])] + MapSeq(xs[1..], f)
  }

  lemma {:induction false} InsertByMap<T, U>(x: T, xs: seq<T>, f: T -> U, kt: T -> (int, int), ku: U -> (int, int))
    requires kt(x) == ku(f(x)) && forall y :: y in xs ==> kt(y) == ku(f(y))
    ensures MapSeq(InsertBy(x, xs, kt), f) == InsertBy(f(x), MapSeq(xs, f), ku)
  {
    if xs != [] && !KeyBefore(kt(x), kt(xs[0])) {
      var t := InsertBy(x, xs[1..], kt);
      InsertByMap(x, xs[1..], f, kt, ku);
      assert ([xs[0]] + t)[1..] == t;
    }
  }

  /** Sorting commutes with a map that keeps the keys. */
  lemma {:induction false} SortByMap<T, U>(xs: seq<T>, f: T -> U, kt: T -> (int, int), ku: U -> (int, int))
    requires forall y :: y in xs ==> kt(y) == ku(f(y))
    ensures MapSeq(SortBy(xs, kt), f) == SortBy(MapSeq(xs, f), ku)
  {
    if xs != [] {
      var s := SortBy(xs[1..], kt);
      SortByMap(xs[1..], f, kt, ku);
      forall y | y in s
        ensures kt(y) == ku(f(y))
      {
        assert y in multiset(xs[1..]);
      }
      InsertByMap(xs[0], s, f, kt, ku);
    }
  }

  /** The value of every box in `bs`, read now. */
  function ValueOf(bs: seq<BoundingBox>): (f: BoundingBox -> Box)
    reads set b | b in bs
    ensures forall b :: b in bs ==> f(b) == b.Value()
  {
    var m := map b | b in bs :: b.Value();
    b => if b in m then m[b] else Box(0, 0, 0, 0, 0.0, 0.0)
  }

  /** The values of the sorted boxes are the sorted values. */
  lemma ValuesSortRows(bs: seq<BoundingBox>)
    ensures Values(SortRows(bs)) == SortBy(Values(bs), BoxKey)
  {
    var f := ValueOf(bs);
    var r := SortRows(bs);
    SortByMap(bs, f, RowKeys(bs), BoxKey);
    ValuesMapped(bs, f);
    forall k | 0 <= k < |r|
      ensures f(r[k]) == r[k].Value()
    {
      assert r[k] in multiset(bs);
    }
    ValuesMapped(r, f);
  }

  lemma ValuesMapped(bs: seq<BoundingBox>, f: BoundingBox -> Box)
    requires forall k :: 0 <= k < |bs| ==> f(bs[k]) == bs[k].Value()
    ensures Values(bs) == MapSeq(bs, f)
  {
  }

  /** The tops after the snapping pass, for boxes visited in the order of
      `ys`: a box whose top lies within 3 pixels of the previous box's top
      (as already snapped) takes that top; every other box keeps its own. */
  function SnapY(ys: seq<int>): (s: seq<int>)
    ensures |s| == |ys|
  {
    if ys == [] then [] else var s := SnapY(ys[..|ys| - 1]); s + [SnapNext(s, ys[|ys| - 1])]
  }

  /** The top a box with top `y` ends up with, after boxes whose snapped tops
      are `s`. */
  function SnapNext(s: seq<int>, y: int): int {
    if s != [] && Abs(y - s[|s| - 1]) <= RowTolerance then s[|s| - 1] else y
  }

  /** Snapping one more box extends the snapped prefix by that box's top. */
  lemma SnapYExtend(ys: seq<int>, i: nat)
    requires i < |ys|
    ensures SnapY(ys[..i + 1]) == SnapY(ys[..i]) + [SnapNext(SnapY(ys[..i]), ys[i])]
  {
    assert ys[..i + 1][..i] == ys[..i];
  }

  /** Each top is either left alone or set to the snapped top of the box
      before it, and only when the two lie within 3 pixels. */
  lemma {:induction false} SnapYKeepsOrJoins(ys: seq<int>)
    ensures forall k :: 0 <= k < |ys| ==>
      SnapY(ys)[k] == ys[k]
      || (0 < k && SnapY(ys)[k] == SnapY(ys)[k - 1] && Abs(ys[k] - SnapY(ys)[k - 1]) <= RowTolerance)
  {
    if ys != [] {
      var init := ys[..|ys| - 1];
      SnapYKeepsOrJoins(init);
      assert forall k :: 0 <= k < |init| ==> init[k] == ys[k] && SnapY(init)[k] == SnapY(ys)[k];
    }
  }

  /** Every snapped top is the original top of that box or of an earlier one. */
  lemma SnapYFromEarlier(ys: seq<int>)
    ensures forall k :: 0 <= k < |ys| ==> SnapY(ys)[k] in ys[..k + 1]
  {
    var s := SnapY(ys);
    SnapYKeepsOrJoins(ys);
    assert KeptOrRepeated(ys, s);
    forall k | 0 <= k < |ys|
      ensures s[k] in ys[..k + 1]
    {
      SnappedFrom(ys, s, k);
      var j :| 0 <= j <= k && s[k] == ys[j];
      assert ys[..k + 1][j] == ys[j];
    }
  }

  /** Each top of `s` is the one of `ys` at its place or the one of `s`
      before it. */
  predicate KeptOrRepeated(ys: seq<int>, s: seq<int>) {
    |s| == |ys| && forall l :: 0 <= l < |ys| ==> s[l] == ys[l] || (0 < l && s[l] == s[l - 1])
  }

  /** When each top of `s` is its own or the one before it, top `k` is one
      of the first `k + 1` of `ys`. */
  lemma {:induction false} SnappedFrom(ys: seq<int>, s: seq<int>, k: nat)
    requires KeptOrRepeated(ys, s) && k < |ys|
    ensures exists j :: 0 <= j <= k && s[k] == ys[j]
    decreases k
  {
    assert s[k] == ys[k] || (0 < k && s[k] == s[k - 1]);
    if s[k] != ys[k] {
      SnappedFrom(ys, s, k - 1);
    }
  }

  /** Snapping twice is snapping once: after one pass no box lies within 3
      pixels of a different row top before it. */
  lemma {:induction false} SnapYIdempotent(ys: seq<int>)
    ensures SnapY(SnapY(ys)) == SnapY(ys)
  {
    if ys != [] {
      var init := ys[..|ys| - 1];
      var s := SnapY(ys);
      SnapYIdempotent(init);
      assert s[..|s| - 1] == SnapY(init);
    }
  }

  /** The snapped tops of a prefix are the prefix of the snapped tops. */
  lemma {:induction false} SnapYPrefix(ys: seq<int>, n: nat)
    requires n <= |ys|
    ensures SnapY(ys[..n]) == SnapY(ys)[..n]
  {
    if n < |ys| {
      var init := ys[..|ys| - 1];
      SnapYPrefix(init, n);
      assert init[..n] == ys[..n];
      assert SnapY(ys)[..|ys| - 1] == SnapY(init);
    } else {
      assert ys[..n] == ys;
    }
  }

  /** Snapping tops that are already in ascending order keeps them in
      ascending order and never moves a top down the page. */
  lemma {:induction false} SnapYAscending(ys: seq<int>)
    requires forall i, j :: 0 <= i < j < |ys| ==> ys[i] <= ys[j]
    ensures forall k :: 0 <= k < |ys| ==> SnapY(ys)[k] <= ys[k]
    ensures forall i, j :: 0 <= i < j < |ys| ==> SnapY(ys)[i] <= SnapY(ys)[j]
  {
    if ys != [] {
      var init := ys[..|ys| - 1];
      SnapYAscending(init);
      var s := SnapY(ys);
      assert s[..|s| - 1] == SnapY(init);
      if |ys| > 1 {
        assert s[|s| - 2] <= ys[|ys| - 2] <= ys[|ys| - 1];
      }
    }
  }

  /** The tops of box values. */
  function TopsOf(vs: seq<Box>): (ys: seq<int>)
    ensures |ys| == |vs| && forall k :: 0 <= k < |vs| ==> ys[k] == vs[k].y1
  {
    seq(|vs|, k requires 0 <= k < |vs| => vs[k].y1)
  }

  /** The boxes `vs`, visited in this order, after the snapping pass: each
      keeps every field but its top, which becomes the one `SnapY` gives. */
  function Resnap(vs: seq<Box>): (ws: seq<Box>)
    ensures |ws| == |vs|
  {
    var s := SnapY(TopsOf(vs));
    seq(|vs|, k requires 0 <= k < |vs| => vs[k].(y1 := s[k]))
  }

  /** One step of the snapping pass: the top of `box` joins `prev` when
      the two lie within 3 pixels, unless `box` is the first one. */
  method SnapBox(box: BoundingBox, prev: int, first: bool) returns (y: int)
    modifies box
    ensures y == (if !first && Abs(old(box.y1) - prev) <= RowTolerance then prev else old(box.y1))
    ensures box.Value() == old(box.Value()).(y1 := y)
  {
    if !first && Abs(box.y1 - prev) <= RowTolerance {
      box.y1 := prev;
    }
    y := box.y1;
  }

  /** The row-snapping pass. It walks the boxes in the order of the first sort,
      snapping each top as `SnapY` says, and sorts the list again after every
      step; only the last sort shows in the result. */
  method SnapRows(low: seq<BoundingBox>) returns (rows: seq<BoundingBox>)
    requires NoDuplicates(low)
    modifies set b | b in low
    ensures multiset(rows) == multiset(low)
    ensures RowSorted(rows)
    ensures Values(old(SortRows(low))) == Resnap(old(Values(SortRows(low))))
    ensures Values(rows) == SnapSorted(old(Values(low)))
    ensures forall b :: b in low ==> b.Value() == old(b.Value()).(y1 := b.y1)
  {
    var order := SortRows(low);
    SortRowsSorts(low);
    ValuesSortRows(low);
    DistinctPermutation(low, order);
    assert forall b :: b in order ==> b in multiset(low);
    rows := SnapPass(order);
  }

  /** What the snapping pass does to the values of the boxes it is given:
      sort them, snap their tops in that order, sort them again. */
  function SnapSorted(vs: seq<Box>): (ws: seq<Box>)
    ensures multiset(ws) == multiset(Resnap(SortBy(vs, BoxKey)))
    ensures SortedBy(ws, BoxKey)
  {
    var ws := SortBy(Resnap(SortBy(vs, BoxKey)), BoxKey);
    SortBySorted(Resnap(SortBy(vs, BoxKey)), BoxKey);
    ws
  }

  /** The keys the boxes of `order` end up with: their values after the pass. */
  function FinalKeys(before: seq<Box>): (fk: seq<(int, int)>)
    ensures |fk| == |before|
  {
    BoxKeys(Resnap(before))
  }

  function BoxKeys(vs: seq<Box>): (ks: seq<(int, int)>)
    ensures |ks| == |vs| && forall k :: 0 <= k < |vs| ==> ks[k] == BoxKey(vs[k])
  {
    seq(|vs|, k requires 0 <= k < |vs| => BoxKey(vs[k]))
  }

  /** Within the pass, boxes whose final keys are equal never swap: their
      current keys already agree with their order in `before`. */
  lemma TurnKeys(before: seq<Box>, n: nat, snapped: seq<int>, cur: seq<(int, int)>)
    requires n <= |before| == |cur| && snapped == SnapY(TopsOf(before)[..n])
    requires KeysSorted(BoxKeys(before))
    requires forall j :: 0 <= j < n ==> cur[j] == (snapped[j], before[j].x1)
    requires forall j :: n <= j < |before| ==> cur[j] == BoxKey(before[j])
    ensures forall p, q :: 0 <= p < q < |before| && FinalKeys(before)[p] == FinalKeys(before)[q] ==> KeyBefore(cur[p], cur[q])
  {
    var ys := TopsOf(before);
    var fk := FinalKeys(before);
    SnapYPrefix(ys, n);
    assert forall i, j :: 0 <= i < j < |ys| ==> ys[i] <= ys[j] by {
      forall i, j | 0 <= i < j < |ys|
        ensures ys[i] <= ys[j]
      {
        assert KeyBefore(BoxKeys(before)[i], BoxKeys(before)[j]);
      }
    }
    SnapYAscending(ys);
    var s := SnapY(ys);
    forall p, q | 0 <= p < q < |before| && fk[p] == fk[q]
      ensures KeyBefore(cur[p], cur[q])
    {
      assert fk[p] == (s[p], before[p].x1) && fk[q] == (s[q], before[q].x1);
      assert p < n ==> cur[p] == (s[p], before[p].x1);
      assert q < n ==> cur[q] == (s[q], before[q].x1);
    }
  }

  /** One sort in the pass keeps ties of the final keys in order. */
  lemma TiesAfterTurn(rows: seq<BoundingBox>, order: seq<BoundingBox>, before: seq<Box>, n: nat, snapped: seq<int>)
    requires Snapping(order, before, n, snapped)
    requires KeysSorted(BoxKeys(before))
    requires NoDuplicates(rows) && multiset(rows) == multiset(order)
    requires TiesInOrder(rows, order, FinalKeys(before))
    ensures TiesInOrder(SortRows(rows), order, FinalKeys(before))
  {
    var key := RowKeys(rows);
    var cur := BoxKeys(Values(order));
    forall j | 0 <= j < |order|
      ensures key(order[j]) == cur[j]
    {
      assert order[j] in multiset(rows);
    }
    TurnKeys(before, n, snapped, cur);
    TiesAfterSort(rows, order, key, FinalKeys(before));
  }

  /** At the end of the pass the boxes are in the one stable order of their
      final keys. */
  lemma TiesSorted(rows: seq<BoundingBox>, order: seq<BoundingBox>, before: seq<Box>)
    requires Values(order) == Resnap(before)
    requires NoDuplicates(rows) && NoDuplicates(order) && multiset(rows) == multiset(order)
    requires TiesInOrder(rows, order, FinalKeys(before)) && RowSorted(rows)
    ensures rows == SortRows(order)
  {
    var key := RowKeys(order);
    forall j | 0 <= j < |order|
      ensures key(order[j]) == FinalKeys(before)[j]
    {
      assert BoxKey(order[j].Value()) == BoxKey(Resnap(before)[j]);
    }
    TiesStable(rows, order, key, FinalKeys(before));
    forall i, j | 0 <= i < j < |rows|
      ensures KeyBefore(key(rows[i]), key(rows[j]))
    {
      assert rows[i] in multiset(order) && rows[j] in multiset(order);
      assert KeyBefore(RowKeySeq(rows)[i], RowKeySeq(rows)[j]);
    }
    var sorted := SortRows(order);
    SortBySorted(order, key);
    SortByStable(order, key);
    StableUnique(rows, sorted, order, key);
  }

  /** The state of the snapping loop after the first `i` boxes of `order`:
      those carry their snapped tops, the others are as they were. */
  ghost predicate Snapping(order: seq<BoundingBox>, before: seq<Box>, i: nat, snapped: seq<int>)
    reads set b | b in order
  {
    i <= |order| == |before|
    && snapped == SnapY(TopsOf(before)[..i])
    && (forall j :: 0 <= j < i ==> order[j].Value() == before[j].(y1 := snapped[j]))
    && (forall j :: i <= j < |order| ==> order[j].Value() == before[j])
  }

  /** Once every box is snapped, the boxes hold `Resnap` of their old values. */
  lemma SnappedAll(order: seq<BoundingBox>, before: seq<Box>, snapped: seq<int>)
    requires Snapping(order, before, |order|, snapped)
    ensures Values(order) == Resnap(before)
  {
    assert TopsOf(before)[..|order|] == TopsOf(before);
  }

  /** One turn of the snapping loop, on box `i`. */
  method SnapTurn(order: seq<BoundingBox>, ghost before: seq<Box>, i: nat, prev: int, ghost snapped: seq<int>)
    returns (prev': int, ghost snapped': seq<int>)
    requires NoDuplicates(order) && i < |order| && Snapping(order, before, i, snapped)
    requires 0 < i ==> prev == snapped[i - 1]
    modifies order[i]
    ensures Snapping(order, before, i + 1, snapped') && prev' == snapped'[i]
  {
    SnapYExtend(TopsOf(before), i);
    prev' := SnapBox(order[i], prev, i == 0);
    snapped' := snapped + [prev'];
    assert forall j :: 0 <= j < |order| && j != i ==> order[j] != order[i];
  }

  /** One turn of the snapping pass: box `i` is snapped, then the list is
      sorted again. */
  method PassTurn(order: seq<BoundingBox>, ghost before: seq<Box>, i: nat, prev: int, ghost snapped: seq<int>, rows: seq<BoundingBox>)
    returns (prev': int, ghost snapped': seq<int>, rows': seq<BoundingBox>)
    requires NoDuplicates(order) && i < |order| && Snapping(order, before, i, snapped)
    requires 0 < i ==> prev == snapped[i - 1]
    requires KeysSorted(BoxKeys(before))
    requires multiset(rows) == multiset(order) && NoDuplicates(rows)
    requires TiesInOrder(rows, order, FinalKeys(before))
    modifies order[i]
    ensures Snapping(order, before, i + 1, snapped') && prev' == snapped'[i]
    ensures multiset(rows') == multiset(order) && NoDuplicates(rows') && RowSorted(rows')
    ensures TiesInOrder(rows', order, FinalKeys(before))
  {
    prev', snapped' := SnapTurn(order, before, i, prev, snapped);
    TiesAfterTurn(rows, order, before, i + 1, snapped');
    rows' := SortByRow(rows);
    DistinctPermutation(order, rows');
  }

  /** The loop of the snapping pass over `order`, the boxes in the order of
      the first sort. */
  method SnapPass(order: seq<BoundingBox>) returns (rows: seq<BoundingBox>)
    requires NoDuplicates(order) && RowSorted(order)
    modifies set b | b in order
    ensures multiset(rows) == multiset(order)
    ensures RowSorted(rows)
    ensures Values(order) == Resnap(old(Values(order)))
    ensures rows == SortRows(order)
    ensures Values(rows) == SortBy(Resnap(old(Values(order))), BoxKey)
    ensures forall b :: b in order ==> b.Value() == old(b.Value()).(y1 := b.y1)
  {
    rows := order;
    ghost var before := Values(order);
    assert BoxKeys(before) == RowKeySeq(order);
    var prev := -1;
    var i := 0;
    ghost var snapped: seq<int> := [];
    assert TopsOf(before)[..0] == [];
    TiesInOrderSelf(order, FinalKeys(before));
    while i < |order|
      invariant Snapping(order, before, i, snapped)
      invariant 0 < i ==> prev == snapped[i - 1]
      invariant multiset(rows) == multiset(order) && NoDuplicates(rows)
      invariant i == 0 ==> rows == order
      invariant 0 < i ==> RowSorted(rows)
      invariant TiesInOrder(rows, order, FinalKeys(before))
    {
      prev, snapped, rows := PassTurn(order, before, i, prev, snapped, rows);
      i := i + 1;
    }
    SnappedAll(order, before, snapped);
    TiesSorted(rows, order, before);
    ValuesSortRows(order);
  }

  /** A rearrangement of distinct elements has distinct elements. */
  lemma DistinctPermutation<T>(xs: seq<T>, ys: seq<T>)
    requires NoDuplicates(xs) && multiset(xs) == multiset(ys)
    ensures NoDuplicates(ys)
  {
    forall i, j | 0 <= i < j < |ys|
      ensures ys[i] != ys[j]
    {
      AtMostOnce(xs, ys[i]);
      TwiceIfRepeated(ys, i, j);
    }
  }

  lemma {:induction false} AtMostOnce<T>(xs: seq<T>, x: T)
    requires NoDuplicates(xs)
    ensures multiset(xs)[x] <= 1
  {
    if xs != [] {
      assert xs == [xs[0]] + xs[1..];
      AtMostOnce(xs[1..], x);
      if x == xs[0] {
        assert x !in xs[1..];
      }
    }
  }

  lemma TwiceIfRepeated<T>(ys: seq<T>, i: nat, j: nat)
    requires i < j < |ys|
    ensures ys[i] == ys[j] ==> multiset(ys)[ys[i]] >= 2
  {
    assert ys == ys[..i] + [ys[i]] + ys[i + 1..j] + [ys[j]] + ys[j + 1..];
  }

  // ---------------------------------------------------------------------------
  // Merging words into lines

  /** Box `v` continues the line whose last state is `p`: it starts less than
      one line height after `p` ends, and both its top and bottom lie less
      than half a line height from `p`'s. */
  predicate Joins(p: Box, v: Box) {
    var h := p.y2 - p.y1;
    Abs(v.x1 - p.x2) < h
    && (Abs(v.y1 - p.y1) as real) < (h as real) / 2.0
    && (Abs(v.y2 - p.y2) as real) < (h as real) / 2.0
  }

  /** Line `p` after `v` is merged into it: it reaches to `v`'s right edge
      and takes the lower of the two contrasts. */
  function Joined(p: Box, v: Box): (q: Box)
    ensures q.contrast <= p.contrast && q.contrast <= v.contrast
    ensures q.x2 == v.x2
    ensures q.(contrast := p.contrast, x2 := p.x2) == p
  {
    p.(contrast := MinReal(p.contrast, v.contrast), x2 := v.x2)
  }

  /** The lines built from a list of boxes, and for each line the index of
      the box that started it. */
  datatype Merged = Merged(lines: seq<Box>, heads: seq<nat>)

  predicate HeadsOf(heads: seq<nat>, n: nat) {
    (forall k :: 0 <= k < |heads| ==> heads[k] < n)
    && (forall k, l :: 0 <= k < l < |heads| ==> heads[k] < heads[l])
    && (heads != [] ==> heads[0] == 0)
  }

  /** `concatenate_words_horizontally` on box values: each box is merged
      into the line before it when it `Joins` that line, and starts a new
      line otherwise. */
  function Merge(vs: seq<Box>): (m: Merged)
    ensures |m.lines| == |m.heads| <= |vs|
    ensures m.lines == [] <==> vs == []
    ensures HeadsOf(m.heads, |vs|)
  {
    if vs == [] then Merged([], [])
    else
      var m := Merge(vs[..|vs| - 1]);
      var v := vs[|vs| - 1];
      if m.lines != [] && Joins(m.lines[|m.lines| - 1], v) then
        Merged(m.lines[..|m.lines| - 1] + [Joined(m.lines[|m.lines| - 1], v)], m.heads)
      else
        Merged(m.lines + [v], m.heads + [|vs| - 1])
  }

  /** The lowest contrast among boxes `i` to `j - 1`. */
  function MinContrast(vs: seq<Box>, i: nat, j: nat): real
    requires i < j <= |vs|
    decreases j
  {
    if j == i + 1 then vs[i].contrast
    else MinReal(MinContrast(vs, i, j - 1), vs[j - 1].contrast)
  }

  /** `MinContrast` is the contrast of one of the boxes, and no box has a
      lower one. */
  lemma {:induction false} MinContrastIsLowest(vs: seq<Box>, i: nat, j: nat)
    requires i < j <= |vs|
    ensures forall k :: i <= k < j ==> MinContrast(vs, i, j) <= vs[k].contrast
    ensures exists k :: i <= k < j && MinContrast(vs, i, j) == vs[k].contrast
    decreases j
  {
    if j == i + 1 {
      assert MinContrast(vs, i, j) == vs[i].contrast;
    } else {
      MinContrastIsLowest(vs, i, j - 1);
      if MinContrast(vs, i, j) != vs[j - 1].contrast {
        var k :| i <= k < j - 1 && MinContrast(vs, i, j - 1) == vs[k].contrast;
        assert MinContrast(vs, i, j) == vs[k].contrast;
      }
    }
  }

  /** The lowest contrast of boxes that all lie in a shorter list is the
      same there. */
  lemma {:induction false} MinContrastPrefix(vs: seq<Box>, i: nat, j: nat)
    requires i < j < |vs|
    ensures MinContrast(vs, i, j) == MinContrast(vs[..|vs| - 1], i, j)
    decreases j
  {
    if j > i + 1 {
      MinContrastPrefix(vs, i, j - 1);
    }
  }

  /** The line made of boxes `i` to `j - 1`: the first box stretched to the
      last one's right edge, with the lowest contrast of them all. */
  function Span(vs: seq<Box>, i: nat, j: nat): Box
    requires i < j <= |vs|
  {
    vs[i].(contrast := MinContrast(vs, i, j), x2 := vs[j - 1].x2)
  }

  /** Where the group of head `k` ends: at the next head, or at the end. */
  function GroupEnd(heads: seq<nat>, k: nat, n: nat): nat
    requires k < |heads|
  {
    if k + 1 < |heads| then heads[k + 1] else n
  }

  /** Each line of `m` spans the boxes of `vs` from its head up to the next
      head. */
  predicate Spans(vs: seq<Box>, m: Merged)
    requires |m.lines| == |m.heads| && HeadsOf(m.heads, |vs|)
  {
    forall k :: 0 <= k < |m.heads| ==> m.lines[k] == Span(vs, m.heads[k], GroupEnd(m.heads, k, |vs|))
  }

  /** A span that ends before the last box is the same without it. */
  lemma SpanPrefix(vs: seq<Box>, i: nat, j: nat)
    requires i < j < |vs|
    ensures Span(vs, i, j) == Span(vs[..|vs| - 1], i, j)
  {
    MinContrastPrefix(vs, i, j);
  }

  /** A span that ends at the last box is the span before it joined by
      that box. */
  lemma SpanExtend(vs: seq<Box>, i: nat)
    requires i < |vs| - 1
    ensures Span(vs, i, |vs|) == Joined(Span(vs[..|vs| - 1], i, |vs| - 1), vs[|vs| - 1])
  {
    MinContrastPrefix(vs, i, |vs| - 1);
  }

  /** Every line spans the boxes from its head up to the next head: it keeps
      the head's left edge, top, bottom and threshold, reaches to the right
      edge of its last box and has the lowest contrast of its boxes. */
  lemma {:induction false} MergeSpans(vs: seq<Box>)
    ensures Spans(vs, Merge(vs))
  {
    if vs != [] {
      var init := vs[..|vs| - 1];
      var m0 := Merge(init);
      MergeSpans(init);
      if m0.lines != [] && Joins(m0.lines[|m0.lines| - 1], vs[|vs| - 1]) {
        SpansAfterJoin(vs, m0);
      } else {
        SpansAfterNewLine(vs, m0);
      }
    }
  }

  /** The spans stay right when the last box joins the last line. */
  lemma SpansAfterJoin(vs: seq<Box>, m0: Merged)
    requires vs != [] && |m0.lines| == |m0.heads| && HeadsOf(m0.heads, |vs| - 1)
    requires Spans(vs[..|vs| - 1], m0) && m0.lines != []
    ensures var last := |m0.lines| - 1;
      var m := Merged(m0.lines[..last] + [Joined(m0.lines[last], vs[|vs| - 1])], m0.heads);
      HeadsOf(m.heads, |vs|) && Spans(vs, m)
  {
    var n := |vs|;
    var last := |m0.lines| - 1;
    var m := Merged(m0.lines[..last] + [Joined(m0.lines[last], vs[n - 1])], m0.heads);
    assert |vs[..n - 1]| == n - 1 && HeadsOf(m.heads, n);
    forall k | 0 <= k < |m.heads|
      ensures m.lines[k] == Span(vs, m.heads[k], GroupEnd(m.heads, k, n))
    {
      SpanAfterJoinAt(vs, m0.heads, k, m0.lines[k]);
      assert k < last ==> m.lines[k] == m0.lines[k];
      assert k == last ==> m.lines[k] == Joined(m0.lines[last], vs[n - 1]) && GroupEnd(m.heads, k, n) == n;
    }
  }

  /** Line `k` of the boxes before the last one, seen from all of them: an
      earlier line is unchanged, and the last line takes in the last box. */
  lemma SpanAfterJoinAt(vs: seq<Box>, heads: seq<nat>, k: nat, line: Box)
    requires vs != [] && HeadsOf(heads, |vs| - 1) && k < |heads|
    requires line == Span(vs[..|vs| - 1], heads[k], GroupEnd(heads, k, |vs| - 1))
    ensures k < |heads| - 1 ==> line == Span(vs, heads[k], GroupEnd(heads, k, |vs|))
    ensures k == |heads| - 1 ==> Joined(line, vs[|vs| - 1]) == Span(vs, heads[k], |vs|)
  {
    if k < |heads| - 1 {
      SpanPrefix(vs, heads[k], heads[k + 1]);
    } else {
      SpanExtend(vs, heads[k]);
    }
  }

  lemma HeadsAppend(heads: seq<nat>, n: nat)
    requires 0 < n && HeadsOf(heads, n - 1) && (heads == [] ==> n == 1)
    ensures HeadsOf(heads + [n - 1], n)
  {
  }

  /** The spans stay right when the last box starts a line of its own. */
  lemma SpansAfterNewLine(vs: seq<Box>, m0: Merged)
    requires vs != [] && |m0.lines| == |m0.heads| && HeadsOf(m0.heads, |vs| - 1)
    requires Spans(vs[..|vs| - 1], m0) && (m0.heads == [] ==> |vs| == 1)
    ensures var m := Merged(m0.lines + [vs[|vs| - 1]], m0.heads + [|vs| - 1]);
      HeadsOf(m.heads, |vs|) && Spans(vs, m)
  {
    var n := |vs|;
    var m := Merged(m0.lines + [vs[n - 1]], m0.heads + [n - 1]);
    HeadsAppend(m0.heads, n);
    forall k | 0 <= k < |m.heads|
      ensures m.lines[k] == Span(vs, m.heads[k], GroupEnd(m.heads, k, n))
    {
      if k < |m0.heads| {
        assert m.lines[k] == m0.lines[k];
        assert GroupEnd(m.heads, k, n) == GroupEnd(m0.heads, k, n - 1);
        SpanPrefix(vs, m.heads[k], GroupEnd(m0.heads, k, n - 1));
      } else {
        assert Span(vs, n - 1, n) == vs[n - 1];
      }
    }
  }

  /** A line of reportable boxes is reportable too: its contrast is the
      lowest of its boxes, so not below 1.2, and not above its head's, so
      below the head's threshold, which the line keeps. */
  lemma MergeKeepsReportable(vs: seq<Box>)
    requires forall k :: 0 <= k < |vs| ==> Reportable(vs[k])
    ensures forall k :: 0 <= k < |Merge(vs).lines| ==> Reportable(Merge(vs).lines[k])
  {
    var m := Merge(vs);
    MergeSpans(vs);
    forall k | 0 <= k < |m.lines|
      ensures Reportable(m.lines[k])
    {
      var i := m.heads[k];
      var j := GroupEnd(m.heads, k, |vs|);
      var c := MinContrast(vs, i, j);
      MinContrastIsLowest(vs, i, j);
      var l :| i <= l < j && c == vs[l].contrast;
      assert Reportable(vs[l]) && Reportable(vs[i]);
    }
  }

  /** A line carries the contrast of one of its boxes. */
  lemma MergeContrasts(vs: seq<Box>, cs: seq<real>)
    requires ContrastsAmong(vs, cs)
    ensures ContrastsAmong(Merge(vs).lines, cs)
  {
    var m := Merge(vs);
    MergeSpans(vs);
    forall k | 0 <= k < |m.lines|
      ensures m.lines[k].contrast in cs
    {
      var i := m.heads[k];
      var j := GroupEnd(m.heads, k, |vs|);
      MinContrastIsLowest(vs, i, j);
      var l :| i <= l < j && MinContrast(vs, i, j) == vs[l].contrast;
    }
  }

  /** Merges `v` into the line `line`. */
  method JoinInto(line: BoundingBox, v: Box)
    modifies line
    ensures line.Value() == Joined(old(line.Value()), v)
  {
    line.contrast := MinReal(line.contrast, v.contrast);
    line.x2 := v.x2;
  }

  /** `concatenate_words_horizontally`: the returned list holds the head box
      of every line, updated in place to span its line; the boxes merged
      into a line are left as they were. */
  method ConcatenateWordsHorizontally(boxes: seq<BoundingBox>) returns (words: seq<BoundingBox>)
    requires NoDuplicates(boxes)
    modifies set b | b in boxes
    ensures var m := Merge(old(Values(boxes)));
      |words| == |m.heads|
      && (forall k :: 0 <= k < |words| ==> words[k] == boxes[m.heads[k]])
      && Values(words) == m.lines
    ensures forall b :: b in boxes && b !in words ==> b.Value() == old(b.Value())
  {
    ghost var before := Values(boxes);
    ghost var heads: seq<nat> := [];
    ghost var lines: seq<Box> := [];
    words := [];
    var i := 0;
    while i < |boxes|
      invariant i <= |boxes|
      invariant Merging(boxes, before, i, words, lines, heads)
      invariant forall b :: b in boxes && b !in words ==> b.Value() == old(b.Value())
    {
      NotYetMerged(boxes, before, i, words, lines, heads);
      words, lines, heads := MergeNext(boxes, before, i, words, lines, heads);
      i := i + 1;
    }
    assert before[..i] == before;
  }

  /** The state of the merging loop after the first `i` boxes: `words` holds
      the head boxes of the lines `Merge` builds from them, with the values
      of those lines. */
  ghost predicate Merging(boxes: seq<BoundingBox>, before: seq<Box>, i: nat,
                          words: seq<BoundingBox>, lines: seq<Box>, heads: seq<nat>)
    reads set b | b in words
  {
    i <= |boxes| == |before|
    && Merge(before[..i]) == Merged(lines, heads)
    && |words| == |heads| == |lines| && HeadsOf(heads, i)
    && (forall k :: 0 <= k < |words| ==> words[k] == boxes[heads[k]])
    && NoDuplicates(words) && Values(words) == lines
  }

  /** Box `i` is not among the heads of the lines of the boxes before it. */
  lemma NotYetMerged(boxes: seq<BoundingBox>, before: seq<Box>, i: nat,
                     words: seq<BoundingBox>, lines: seq<Box>, heads: seq<nat>)
    requires NoDuplicates(boxes) && i < |boxes|
    requires Merging(boxes, before, i, words, lines, heads)
    ensures boxes[i] !in words
  {
  }

  /** One turn of the merging loop, on box `i`. */
  method MergeNext(boxes: seq<BoundingBox>, ghost before: seq<Box>, i: nat,
                   words: seq<BoundingBox>, ghost lines: seq<Box>, ghost heads: seq<nat>)
    returns (words': seq<BoundingBox>, ghost lines': seq<Box>, ghost heads': seq<nat>)
    requires i < |boxes| && Merging(boxes, before, i, words, lines, heads)
    requires boxes[i] !in words && boxes[i].Value() == before[i]
    modifies set w | w in words
    ensures Merging(boxes, before, i + 1, words', lines', heads')
    ensures forall w :: w in words ==> w in words'
  {
    var joined;
    words', joined := MergeWord(words, boxes[i], lines, before[i]);
    if joined {
      lines' := lines[..|lines| - 1] + [Joined(lines[|lines| - 1], before[i])];
      heads' := heads;
      MergingAfterJoin(boxes, before, i, words', lines, heads);
    } else {
      heads' := heads + [i];
      lines' := lines + [before[i]];
      MergingAfterNewLine(boxes, before, i, words', lines, heads);
    }
  }

  /** The loop state is kept when box `i` joins the last line. */
  lemma MergingAfterJoin(boxes: seq<BoundingBox>, before: seq<Box>, i: nat,
                         words: seq<BoundingBox>, lines: seq<Box>, heads: seq<nat>)
    requires i < |boxes| == |before| && Merge(before[..i]) == Merged(lines, heads)
    requires |words| == |heads| == |lines| && HeadsOf(heads, i) && NoDuplicates(words)
    requires forall k :: 0 <= k < |words| ==> words[k] == boxes[heads[k]]
    requires lines != [] && Joins(lines[|lines| - 1], before[i])
    requires Values(words) == lines[..|lines| - 1] + [Joined(lines[|lines| - 1], before[i])]
    ensures Merging(boxes, before, i + 1, words, lines[..|lines| - 1] + [Joined(lines[|lines| - 1], before[i])], heads)
  {
    MergeStepFrom(before, i, lines, heads);
  }

  /** The loop state is kept when box `i` starts a line of its own. */
  lemma MergingAfterNewLine(boxes: seq<BoundingBox>, before: seq<Box>, i: nat,
                            words: seq<BoundingBox>, lines: seq<Box>, heads: seq<nat>)
    requires i < |boxes| == |before| && Merge(before[..i]) == Merged(lines, heads)
    requires |words| == |heads| + 1 && |heads| == |lines| && HeadsOf(heads, i) && NoDuplicates(words)
    requires forall k :: 0 <= k < |heads| ==> words[k] == boxes[heads[k]]
    requires words[|heads|] == boxes[i]
    requires !(lines != [] && Joins(lines[|lines| - 1], before[i]))
    requires Values(words) == lines + [before[i]]
    ensures Merging(boxes, before, i + 1, words, lines + [before[i]], heads + [i])
  {
    MergeStepFrom(before, i, lines, heads);
    HeadsAppend(heads, i + 1);
  }

  /** One step of `concatenate_words_horizontally`: `box`, whose value is
      `v`, is merged into the last line of `words`, whose values are
      `lines`, when it `Joins` it, and starts a new line otherwise. */
  method MergeWord(words: seq<BoundingBox>, box: BoundingBox, ghost lines: seq<Box>, ghost v: Box)
      returns (words': seq<BoundingBox>, joined: bool)
    requires NoDuplicates(words) && box !in words
    requires Values(words) == lines && box.Value() == v
    modifies set w | w in words
    ensures joined <==> lines != [] && Joins(lines[|lines| - 1], v)
    ensures joined ==> words' == words && Values(words) == lines[..|lines| - 1] + [Joined(lines[|lines| - 1], v)]
    ensures !joined ==> words' == words + [box] && Values(words') == lines + [v]
    ensures NoDuplicates(words')
  {
    if words == [] {
      return [box], false;
    }
    var previous := words[|words| - 1];
    var lineHeight := previous.y2 - previous.y1;
    if Abs(box.x1 - previous.x2) < lineHeight
      && (Abs(box.y1 - previous.y1) as real) < (lineHeight as real) / 2.0
      && (Abs(box.y2 - previous.y2) as real) < (lineHeight as real) / 2.0
    {
      JoinLast(words, box.Value());
      return words, true;
    }
    return words + [box], false;
  }

  /** Merges `v` into the last line of `words`; the other lines are left
      as they were. */
  method JoinLast(words: seq<BoundingBox>, v: Box)
    requires words != [] && NoDuplicates(words)
    modifies words[|words| - 1]
    ensures Values(words) == old(Values(words))[..|words| - 1] + [Joined(old(words[|words| - 1].Value()), v)]
  {
    JoinInto(words[|words| - 1], v);
    assert forall k :: 0 <= k < |words| - 1 ==> words[k] != words[|words| - 1];
  }

  /** One more box extends the merge of the boxes before it. */
  lemma MergeStepFrom(vs: seq<Box>, i: nat, lines: seq<Box>, heads: seq<nat>)
    requires i < |vs| && Merge(vs[..i]) == Merged(lines, heads)
    ensures Merge(vs[..i + 1]) ==
      if lines != [] && Joins(lines[|lines| - 1], vs[i]) then
        Merged(lines[..|lines| - 1] + [Joined(lines[|lines| - 1], vs[i])], heads)
      else
        Merged(lines + [vs[i]], heads + [i])
  {
    assert vs[..i + 1][..i] == vs[..i];
  }

  // ---------------------------------------------------------------------------
  // Reporting one infraction per element

  /** `get_dom_element`'s probe point: the middle of the box, each coordinate
      computed in floating point and truncated by `int()`. */
  function Centroid(v: Box): (int, int) {
    (Trunc(v.x1 as real + (v.x2 - v.x1) as real / 2.0), Trunc(v.y1 as real + (v.y2 - v.y1) as real / 2.0))
  }

  /** Halving and truncating a non-negative integer is integer division. */
  lemma HalfTrunc(a: int, b: int)
    requires 0 <= a + b
    ensures Trunc(a as real + (b - a) as real / 2.0) == (a + b) / 2
  {
    var q := (a + b) / 2;
    var r := (a + b) % 2;
    assert a as real + (b - a) as real / 2.0 == q as real + r as real / 2.0;
  }

  /** For a box on the page the probe point is the floor of the midpoint of
      each side, so it lies inside the box. */
  lemma CentroidIsMidpoint(v: Box)
    requires 0 <= v.x1 <= v.x2 && 0 <= v.y1 <= v.y2
    ensures Centroid(v) == ((v.x1 + v.x2) / 2, (v.y1 + v.y2) / 2)
    ensures v.x1 <= Centroid(v).0 <= v.x2 && v.y1 <= Centroid(v).1 <= v.y2
  {
    HalfTrunc(v.x1, v.x2);
    HalfTrunc(v.y1, v.y2);
  }

  /** The rendered page: its DOM, and `document.elementFromPoint`, which names
      the element drawn at a point, if any. */
  datatype Page = Page(dom: Tree, hit: ((int, int)) -> Option<nat>)

  ghost predicate ValidPage(page: Page) {
    WellFormed(page.dom) && Rooted(page.dom)
    && forall p :: page.hit(p).Some? ==> page.hit(p).value < |page.dom|
  }

  /** The xpath of the element under the probe point of a box, if any. */
  function Locate(page: Page, v: Box): Option<string>
    requires ValidPage(page)
  {
    match page.hit(Centroid(v))
    case None => None
    case Some(e) => Some(XPath(page.dom, e, ""))
  }

  /** Every box paired with where it points on the page. */
  function Located(page: Page, vs: seq<Box>): (ls: seq<(Option<string>, Box)>)
    requires ValidPage(page)
    ensures |ls| == |vs| && forall k :: 0 <= k < |vs| ==> ls[k] == (Locate(page, vs[k]), vs[k])
  {
    seq(|vs|, k requires 0 <= k < |vs| => (Locate(page, vs[k]), vs[k]))
  }

  /** A Python `dict` from xpath to infraction: the keys in the order they
      were first inserted, and the entries. */
  datatype Table = Table(keys: seq<string>, entries: map<string, ContrastInfraction>)

  ghost predicate TableOK(t: Table) {
    NoDuplicates(t.keys)
  }

  /** `d[x] = inf`: a new key goes to the end, an existing one keeps its place. */
  function Put(t: Table, x: string, inf: ContrastInfraction): Table {
    if x in t.entries then Table(t.keys, t.entries[x := inf])
    else Table(t.keys + [x], t.entries[x := inf])
  }

  /** `list(d.values())`. */
  function ValuesOf(t: Table): (r: seq<ContrastInfraction>)
    requires forall x :: x in t.keys ==> x in t.entries
    ensures |r| == |t.keys| && forall k :: 0 <= k < |r| ==> r[k] == t.entries[t.keys[k]]
  {
    seq(|t.keys|, k requires 0 <= k < |t.keys| => t.entries[t.keys[k]])
  }

  function InfractionOf(x: string, v: Box): ContrastInfraction {
    ContrastInfraction("WCAG_1_4_3", x, v.contrast, v.threshold)
  }

  /** One turn of the reporting loop: a box that points at no element is
      skipped; otherwise it replaces the entry for its xpath, unless that
      entry has a strictly lower contrast. */
  function Record(t: Table, loc: Option<string>, v: Box): Table {
    match loc
    case None => t
    case Some(x) =>
      if x in t.entries && v.contrast > t.entries[x].contrast then t
      else Put(t, x, InfractionOf(x, v))
  }

  /** The dictionary after the reporting loop over located boxes. */
  function Report(ls: seq<(Option<string>, Box)>): (t: Table)
    ensures forall x :: x in t.keys <==> x in t.entries
  {
    if ls == [] then Table([], map[])
    else Record(Report(ls[..|ls| - 1]), ls[|ls| - 1].0, ls[|ls| - 1].1)
  }

  /** The reporting loop never lists a key twice. */
  lemma {:induction false} ReportOK(ls: seq<(Option<string>, Box)>)
    ensures TableOK(Report(ls))
  {
    if ls != [] {
      ReportOK(ls[..|ls| - 1]);
    }
  }

  /** An xpath is reported exactly when some box points at it. */
  lemma {:induction false} ReportKeys(ls: seq<(Option<string>, Box)>)
    ensures forall x :: x in Report(ls).entries <==> exists i :: 0 <= i < |ls| && ls[i].0 == Some(x)
  {
    if ls != [] {
      var init := ls[..|ls| - 1];
      ReportKeys(init);
      forall x | x in Report(ls).entries
        ensures exists i :: 0 <= i < |ls| && ls[i].0 == Some(x)
      {
        if ls[|ls| - 1].0 != Some(x) {
          var i :| 0 <= i < |init| && init[i].0 == Some(x);
          assert ls[i] == init[i];
        }
      }
      forall x, i | 0 <= i < |ls| && ls[i].0 == Some(x)
        ensures x in Report(ls).entries
      {
        if i < |init| {
          assert init[i] == ls[i];
        }
      }
    }
  }

  /** Box `i` points at `x`, no box pointing there has a lower contrast, and
      every later box pointing there has a higher one. */
  predicate LowestLast(ls: seq<(Option<string>, Box)>, x: string, i: int) {
    0 <= i < |ls| && ls[i].0 == Some(x)
    && (forall j :: 0 <= j < |ls| && ls[j].0 == Some(x) ==> ls[i].1.contrast <= ls[j].1.contrast)
    && (forall j :: i < j < |ls| && ls[j].0 == Some(x) ==> ls[i].1.contrast < ls[j].1.contrast)
  }

  /** The entry for an xpath is the infraction of a box pointing at it whose
      contrast is the lowest of all boxes pointing there; among boxes with that
      lowest contrast it is the last one. */
  lemma {:induction false} ReportKeepsLowest(ls: seq<(Option<string>, Box)>, x: string)
    requires x in Report(ls).entries
    ensures exists i :: LowestLast(ls, x, i) && Report(ls).entries[x] == InfractionOf(x, ls[i].1)
  {
    var n := |ls|;
    var init := ls[..n - 1];
    var t := Report(init);
    var last := ls[n - 1];
    assert ls == init + [last];
    if last.0 == Some(x) && !(x in t.entries && last.1.contrast > t.entries[x].contrast) {
      if x in t.entries {
        ReportKeepsLowest(init, x);
        var i :| LowestLast(init, x, i) && t.entries[x] == InfractionOf(x, init[i].1);
        LowestLastReplaced(init, last, x, i);
      } else {
        ReportKeys(init);
        LowestLastFirst(init, last, x);
      }
    } else {
      ReportKeepsLowest(init, x);
      var i :| LowestLast(init, x, i) && t.entries[x] == InfractionOf(x, init[i].1);
      LowestLastKept(init, last, x, i);
    }
  }

  /** A box not lower than the lowest one so far leaves it in place. */
  lemma LowestLastKept(init: seq<(Option<string>, Box)>, last: (Option<string>, Box), x: string, i: int)
    requires LowestLast(init, x, i)
    requires last.0 == Some(x) ==> init[i].1.contrast < last.1.contrast
    ensures LowestLast(init + [last], x, i)
  {
    var ls := init + [last];
    assert forall j :: 0 <= j < |init| ==> ls[j] == init[j];
  }

  /** A box at most as low as the lowest one so far takes its place. */
  lemma LowestLastReplaced(init: seq<(Option<string>, Box)>, last: (Option<string>, Box), x: string, i: int)
    requires LowestLast(init, x, i)
    requires last.0 == Some(x) && last.1.contrast <= init[i].1.contrast
    ensures LowestLast(init + [last], x, |init|)
  {
    var ls := init + [last];
    assert forall j :: 0 <= j < |init| ==> ls[j] == init[j];
  }

  /** The first box pointing at `x` is the lowest one so far. */
  lemma LowestLastFirst(init: seq<(Option<string>, Box)>, last: (Option<string>, Box), x: string)
    requires forall j :: 0 <= j < |init| ==> init[j].0 != Some(x)
    requires last.0 == Some(x)
    ensures LowestLast(init + [last], x, |init|)
  {
    var ls := init + [last];
    assert forall j :: 0 <= j < |init| ==> ls[j] == init[j];
  }

  /** Before any box pointing at a key, some box points at each earlier key. */
  predicate FirstSeenOrder(ls: seq<(Option<string>, Box)>, keys: seq<string>) {
    forall k, l, j :: 0 <= k < l < |keys| && 0 <= j < |ls| && ls[j].0 == Some(keys[l]) ==>
      exists i :: 0 <= i < j && ls[i].0 == Some(keys[k])
  }

  /** The keys are in the order of first appearance: before any box pointing
      at a later key, some box points at each earlier key. */
  lemma {:induction false} ReportOrder(ls: seq<(Option<string>, Box)>)
    ensures FirstSeenOrder(ls, Report(ls).keys)
  {
    if ls != [] {
      var n := |ls|;
      var init := ls[..n - 1];
      var t := Report(init);
      assert ls == init + [ls[n - 1]];
      ReportOrder(init);
      ReportKeys(init);
      if Report(ls).keys == t.keys {
        FirstSeenSame(init, ls[n - 1], t.keys);
      } else {
        FirstSeenNew(init, ls[n - 1], t.keys);
      }
    }
  }

  /** Another box keeps the order when it adds no key. */
  lemma FirstSeenSame(init: seq<(Option<string>, Box)>, last: (Option<string>, Box), keys: seq<string>)
    requires FirstSeenOrder(init, keys)
    requires forall y :: y in keys ==> exists i :: 0 <= i < |init| && init[i].0 == Some(y)
    ensures FirstSeenOrder(init + [last], keys)
  {
    var ls := init + [last];
    forall k, l, j | 0 <= k < l < |keys| && 0 <= j < |ls| && ls[j].0 == Some(keys[l])
      ensures exists i :: 0 <= i < j && ls[i].0 == Some(keys[k])
    {
      if j < |init| {
        assert init[j] == ls[j];
        var i :| 0 <= i < j && init[i].0 == Some(keys[k]);
        assert ls[i] == init[i];
      } else {
        assert keys[k] in keys;
        var i :| 0 <= i < |init| && init[i].0 == Some(keys[k]);
        assert ls[i] == init[i];
      }
    }
  }

  /** Another box keeps the order when it adds a key no earlier box pointed
      at. */
  lemma FirstSeenNew(init: seq<(Option<string>, Box)>, last: (Option<string>, Box), keys: seq<string>)
    requires FirstSeenOrder(init, keys) && last.0.Some?
    requires forall y :: y in keys ==> exists i :: 0 <= i < |init| && init[i].0 == Some(y)
    requires forall i :: 0 <= i < |init| ==> init[i].0 != last.0
    ensures FirstSeenOrder(init + [last], keys + [last.0.value])
  {
    var ls := init + [last];
    var keys' := keys + [last.0.value];
    forall k, l, j | 0 <= k < l < |keys'| && 0 <= j < |ls| && ls[j].0 == Some(keys'[l])
      ensures exists i :: 0 <= i < j && ls[i].0 == Some(keys'[k])
    {
      var i := FirstSeenNewAt(init, last, keys, k, l, j);
    }
  }

  lemma FirstSeenNewAt(init: seq<(Option<string>, Box)>, last: (Option<string>, Box), keys: seq<string>, k: nat, l: nat, j: nat)
    returns (i: nat)
    requires FirstSeenOrder(init, keys) && last.0.Some?
    requires forall y :: y in keys ==> exists i :: 0 <= i < |init| && init[i].0 == Some(y)
    requires forall i :: 0 <= i < |init| ==> init[i].0 != last.0
    requires k < l <= |keys| && j <= |init|
    requires (init + [last])[j].0 == Some((keys + [last.0.value])[l])
    ensures i < j && (init + [last])[i].0 == Some(keys[k])
  {
    var ls := init + [last];
    assert keys[k] in keys;
    if j < |init| {
      assert init[j] == ls[j];
      assert l < |keys| && (keys + [last.0.value])[l] == keys[l];
      i :| 0 <= i < j && init[i].0 == Some(keys[k]);
    } else {
      i :| 0 <= i < |init| && init[i].0 == Some(keys[k]);
    }
    assert ls[i] == init[i];
  }

  /** One more box extends the reporting loop by one turn. */
  lemma ReportStep(ls: seq<(Option<string>, Box)>, i: nat)
    requires i < |ls|
    ensures Report(ls[..i + 1]) == Record(Report(ls[..i]), ls[i].0, ls[i].1)
  {
    assert ls[..i + 1][..i] == ls[..i];
  }

  /** The reporting loop of `detect_wcag_1_4_3_infractions`: it locates every
      line, keeps one infraction per xpath and lists them in the order their
      xpaths were first seen. */
  method ReportByXPath(page: Page, words: seq<BoundingBox>) returns (infractions: seq<ContrastInfraction>)
    requires ValidPage(page)
    ensures infractions == ValuesOf(Report(Located(page, Values(words))))
  {
    ghost var ls := Located(page, Values(words));
    var keys: seq<string> := [];
    var entries: map<string, ContrastInfraction> := map[];
    var i := 0;
    while i < |words|
      invariant i <= |words|
      invariant Table(keys, entries) == Report(ls[..i])
    {
      ReportStep(ls, i);
      var box := words[i];
      var element := page.hit(Centroid(box.Value()));
      if element.Some? {
        var xpath := XPathOf(page.dom, element.value, "");
        if !(xpath in entries && box.contrast > entries[xpath].contrast) {
          if xpath !in entries {
            keys := keys + [xpath];
          }
          entries := entries[xpath := InfractionOf(xpath, box.Value())];
        }
      }
      i := i + 1;
    }
    assert ls[..i] == ls;
    infractions := seq(|keys|, k requires 0 <= k < |keys| && forall x :: x in keys ==> x in entries => entries[keys[k]]);
  }

  /** An infraction as the criterion reports it: contrast at least 1.2 and
      below a threshold of 4.5 or 3. */
  predicate Reported(inf: ContrastInfraction) {
    inf.criterion == "WCAG_1_4_3"
    && MinReportedContrast <= inf.contrast < inf.threshold
    && (inf.threshold == MinContrastRatio || inf.threshold == MinContrastRatioLargeText)
  }

  /** Reporting reportable lines gives one reported infraction per xpath,
      each for its own xpath, each with the contrast of one of the lines,
      and each for an xpath some line points at. */
  lemma ReportedList(ls: seq<(Option<string>, Box)>, cs: seq<real>)
    requires forall i :: 0 <= i < |ls| ==> Reportable(ls[i].1) && ls[i].1.contrast in cs
    ensures var r := ValuesOf(Report(ls));
      (forall k :: 0 <= k < |r| ==> Reported(r[k]) && r[k].contrast in cs)
      && (forall k :: 0 <= k < |r| ==> exists i :: 0 <= i < |ls| && ls[i].0 == Some(r[k].xpath))
      && (forall k, l :: 0 <= k < l < |r| ==> r[k].xpath != r[l].xpath)
  {
    var t := Report(ls);
    var r := ValuesOf(t);
    ReportOK(ls);
    ReportKeys(ls);
    forall k | 0 <= k < |r|
      ensures r[k].xpath == t.keys[k] && Reported(r[k]) && r[k].contrast in cs
    {
      ReportKeepsLowest(ls, t.keys[k]);
    }
  }

  /** What the criterion reports for the detected boxes `vs`, as a function
      of their values: keep the low boxes, snap them into rows, merge the
      rows into lines and report one infraction per element under a line. */
  function Detected(page: Page, score: Box -> real, vs: seq<Box>): seq<ContrastInfraction>
    requires ValidPage(page)
  {
    ValuesOf(Report(Located(page, Merge(SnapSorted(Kept(score, vs))).lines)))
  }

  /** Every infraction the criterion reports is a reported one, carries the
      score of one of the detected boxes, and no xpath is reported twice. */
  lemma DetectedReported(page: Page, score: Box -> real, vs: seq<Box>)
    requires ValidPage(page)
    ensures var r := Detected(page, score, vs);
      (forall k :: 0 <= k < |r| ==> Reported(r[k]) && r[k].contrast in Scores(score, vs))
      && (forall k, l :: 0 <= k < l < |r| ==> r[k].xpath != r[l].xpath)
  {
    var cs := Scores(score, vs);
    var kept := Kept(score, vs);
    KeptContrasts(score, vs);
    var snapped := SnapSorted(kept);
    SnapSortedCandidates(kept, cs);
    MergeKeepsReportable(snapped);
    MergeContrasts(snapped, cs);
    var ls := Located(page, Merge(snapped).lines);
    assert forall i :: 0 <= i < |ls| ==> ls[i].1 == Merge(snapped).lines[i];
    ReportedList(ls, cs);
    assert Detected(page, score, vs) == ValuesOf(Report(ls));
  }

  /** Rearranging candidates, or moving their tops, leaves them candidates. */
  lemma SnapSortedCandidates(vs: seq<Box>, cs: seq<real>)
    requires Candidates(vs, cs)
    ensures Candidates(SnapSorted(vs), cs)
  {
    var sorted := SortBy(vs, BoxKey);
    CandidatesPermuted(vs, sorted, cs);
    var moved := Resnap(sorted);
    assert Candidates(moved, cs);
    CandidatesPermuted(moved, SnapSorted(vs), cs);
  }

  lemma CandidatesPermuted(vs: seq<Box>, ws: seq<Box>, cs: seq<real>)
    requires Candidates(vs, cs) && multiset(vs) == multiset(ws)
    ensures Candidates(ws, cs)
  {
    forall k | 0 <= k < |ws|
      ensures Reportable(ws[k]) && ws[k].contrast in cs
    {
      assert ws[k] in multiset(vs);
    }
  }

  /** `detect_wcag_1_4_3_infractions` over the boxes the text detector found:
      score each box on the enlarged retina screenshot, keep the low ones,
      snap them into rows, merge rows into lines and report one infraction
      per element under a line. Every infraction is a reported one, carries
      the sampled contrast of one of the detected boxes, and no xpath is
      reported twice. */
  method DetectWcag143(page: Page, sampler: Sampler, resize: Resizer, imgSmall: Image, imgLarge: Image,
                       boxes: seq<BoundingBox>) returns (infractions: seq<ContrastInfraction>)
    requires ValidPage(page) && NoDuplicates(boxes)
    modifies set b | b in boxes
    ensures infractions == Detected(page, Scorer(sampler, Enlarged(resize, imgSmall, imgLarge)), old(Values(boxes)))
    ensures forall k :: 0 <= k < |infractions| ==> Reported(infractions[k])
    ensures forall k :: 0 <= k < |infractions| ==>
      infractions[k].contrast in Scores(Scorer(sampler, Enlarged(resize, imgSmall, imgLarge)), old(Values(boxes)))
    ensures forall k, l :: 0 <= k < l < |infractions| ==> infractions[k].xpath != infractions[l].xpath
  {
    var large := Enlarged(resize, imgSmall, imgLarge);
    var score := Scorer(sampler, large);
    ghost var cs := Scores(score, Values(boxes));
    ghost var detected := Values(boxes);
    var low := KeepLowContrast(boxes, score);
    KeptContrasts(score, detected);
    var rows := SnapCandidates(low, cs);
    var words := MergeCandidates(rows, cs);
    infractions := ReportByXPath(page, words);
    DetectedReported(page, score, detected);
  }

  /** Boxes that may still be reported, with one of the contrasts `cs`. */
  predicate Candidates(vs: seq<Box>, cs: seq<real>) {
    forall k :: 0 <= k < |vs| ==> Reportable(vs[k]) && vs[k].contrast in cs
  }

  /** The snapping pass keeps the low boxes candidates: it moves tops only. */
  method SnapCandidates(low: seq<BoundingBox>, ghost cs: seq<real>) returns (rows: seq<BoundingBox>)
    requires NoDuplicates(low) && Candidates(Values(low), cs)
    modifies set b | b in low
    ensures Values(rows) == SnapSorted(old(Values(low)))
    ensures NoDuplicates(rows) && Candidates(Values(rows), cs)
    ensures forall b :: b in rows ==> b in low
  {
    ghost var kept := Values(low);
    rows := SnapRows(low);
    DistinctPermutation(low, rows);
    assert forall b :: b in rows ==> b in multiset(rows);
    forall k | 0 <= k < |rows|
      ensures Reportable(rows[k].Value()) && rows[k].Value().contrast in cs
    {
      assert rows[k] in multiset(low);
      var j :| 0 <= j < |low| && low[j] == rows[k];
      assert rows[k].Value() == kept[j].(y1 := rows[k].y1);
    }
  }

  /** Merging keeps candidates candidates. */
  method MergeCandidates(rows: seq<BoundingBox>, ghost cs: seq<real>) returns (words: seq<BoundingBox>)
    requires NoDuplicates(rows) && Candidates(Values(rows), cs)
    modifies set b | b in rows
    ensures Values(words) == Merge(old(Values(rows))).lines
    ensures Candidates(Values(words), cs)
  {
    ghost var snapped := Values(rows);
    words := ConcatenateWordsHorizontally(rows);
    MergeKeepsReportable(snapped);
    MergeContrasts(snapped, cs);
  }
}
