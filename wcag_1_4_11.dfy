/** WCAG 1.4.11 (non-text contrast): every form control on the retina
    rendering of the page is measured against its surroundings, and one
    infraction is reported per control whose contrast is below 3:1. */
module Wcag1411 {
  import opened Py
  import opened Dom
  import opened Infractions
  import opened Utils14

  const MinContrastRatio: real := 3.0
  /** The crop around a control reaches this many pixels past each side. */
  const Margin: int := 20

  // ---------------------------------------------------------------------------
  // Measuring one control

  /** A control the query found: its DOM element, and its `location` and
      `size` in CSS pixels. */
  datatype Control = Control(node: nat, x: int, y: int, width: nat, height: nat)

  /** The parts of the contrast measurement: the rule that scores a pair of
      colours (the source's is `BySum`) and the border mean, left abstract. */
  datatype Meter = Meter(ratio: PairRatio, border: BorderMean)

  datatype Rect = Rect(x1: int, x2: int, y1: int, y2: int)

  /** The control's rectangle on the retina screenshot: location and size
      doubled. */
  function Area(c: Control): (r: Rect)
    ensures r.x2 - r.x1 == 2 * c.width && r.y2 - r.y1 == 2 * c.height
    ensures r.x1 == 2 * c.x && r.y1 == 2 * c.y
  {
    Rect(2 * c.x, 2 * c.x + 2 * c.width, 2 * c.y, 2 * c.y + 2 * c.height)
  }

  function Max(a: int, b: int): int {
    if a < b then b else a
  }

  function Min(a: int, b: int): int {
    if a < b then a else b
  }

  /** `get_input_element_contrast_ratio` as written: a control of no width or
      no height is not measured; otherwise the screenshot is cropped with
      Python slicing to the rectangle widened by 20 pixels on each side, an
      empty crop is not measured, and the contrast is sampled on the crop at
      offset 20. */
  function ControlContrastAsWritten(m: Meter, img: Image, c: Control): (r: Option<real>)
    requires Rectangular(img)
    ensures c.width == 0 || c.height == 0 ==> r == None
    ensures r.Some? ==> r.value == -1.0 || 0.0 < r.value
  {
    var a := Area(c);
    if a.x1 == a.x2 || a.y1 == a.y2 then None
    else
      var f := WidenedAsWritten(a);
      var crop := CropTo(img, f.0);
      if |crop.rows| == 0 || crop.width == 0 then None
      else Some(SampleAt(m, img, f.0, f.1))
  }

  /** The crop `img[y1 - 20 : y2 + 20, x1 - 20 : x2 + 20]` and the box
      `(20, w + 20, 20, h + 20)` sampled in it. */
  function WidenedAsWritten(a: Rect): (Rect, Rect) {
    var w, h := a.x2 - a.x1, a.y2 - a.y1;
    (Rect(a.x1 - Margin, a.x2 + Margin, a.y1 - Margin, a.y2 + Margin), Rect(Margin, w + Margin, Margin, h + Margin))
  }

  /** `img[r.y1:r.y2, r.x1:r.x2]`. */
  function CropTo(img: Image, r: Rect): (crop: Image)
    requires Rectangular(img)
    ensures Rectangular(crop)
  {
    Crop(img, r.y1, r.y2, r.x1, r.x2)
  }

  /** `get_contrast_ratio` on the crop `outer` of the screenshot, for the box
      `inner` in the crop's coordinates. */
  function SampleAt(m: Meter, img: Image, outer: Rect, inner: Rect): real
    requires Rectangular(img)
  {
    SampledContrast(m.ratio, m.border, CropTo(img, outer), inner.x1, inner.x2, inner.y1, inner.y2)
  }

  /** The part of a rectangle that lies on the image. */
  function Clipped(r: Rect, img: Image): (q: Rect)
    ensures 0 <= q.x1 && q.x2 <= img.width && 0 <= q.y1 && q.y2 <= |img.rows|
  {
    Rect(Max(r.x1, 0), Min(r.x2, img.width), Max(r.y1, 0), Min(r.y2, |img.rows|))
  }

  predicate Empty(r: Rect) {
    r.x2 <= r.x1 || r.y2 <= r.y1
  }

  /** The contrast of a nonempty rectangle on the screenshot, sampled on
      the crop that widens it by up to 20 pixels on each side without
      leaving the screenshot. */
  function Framed(m: Meter, img: Image, q: Rect): real
    requires Rectangular(img)
  {
    var f := Frame(q, img);
    SampleAt(m, img, f.0, f.1)
  }

  /** The crop around `q`, widened by up to 20 pixels on each side without
      leaving the screenshot, and `q` in the crop's coordinates. */
  function Frame(q: Rect, img: Image): (Rect, Rect) {
    var x0, y0 := Max(q.x1 - Margin, 0), Max(q.y1 - Margin, 0);
    var x2, y2 := Min(q.x2 + Margin, img.width), Min(q.y2 + Margin, |img.rows|);
    (Rect(x0, x2, y0, y2), Rect(q.x1 - x0, q.x2 - x0, q.y1 - y0, q.y2 - y0))
  }

  /** A nonempty rectangle on the screenshot is measured as a positive
      ratio, never the -1 of an empty sample, and as at least 1 under a rule
      that never scores a pair below 1. */
  lemma FramedMeasures(m: Meter, img: Image, q: Rect)
    requires Rectangular(img)
    requires 0 <= q.x1 < q.x2 <= img.width && 0 <= q.y1 < q.y2 <= |img.rows|
    ensures 0.0 < Framed(m, img, q)
    ensures AtLeastOne(m.ratio) ==> 1.0 <= Framed(m, img, q)
  {
    var f := Frame(q, img);
    var outer, inner := f.0, f.1;
    CropInside(img, outer.y1, outer.y2, outer.x1, outer.x2);
    SampledInside(m.ratio, m.border, CropTo(img, outer), inner.x1, inner.x2, inner.y1, inner.y2);
    if AtLeastOne(m.ratio) {
      SampledAtLeastOne(m.ratio, m.border, CropTo(img, outer), inner.x1, inner.x2, inner.y1, inner.y2);
    }
  }

  /** The measurement with the crop clamped to the screenshot. A control is
      measured exactly when part of it lies on the screenshot, and then its
      contrast is a true ratio, never the -1 of an empty sample. */
  function ControlContrast(m: Meter, img: Image, c: Control): (r: Option<real>)
    requires Rectangular(img)
    ensures r.Some? <==> !Empty(Clipped(Area(c), img))
    ensures c.width == 0 || c.height == 0 ==> r == None
  {
    var q := Clipped(Area(c), img);
    if Empty(q) then None else Some(Framed(m, img, q))
  }

  /** A measured control has a positive contrast, never the -1 of an empty
      sample; under the WCAG ratio it is at least 1. */
  lemma ControlContrastMeasured(m: Meter, img: Image, c: Control)
    requires Rectangular(img)
    ensures ControlContrast(m, img, c).Some? ==> 0.0 < ControlContrast(m, img, c).value
    ensures ControlContrast(m, img, c).Some? && AtLeastOne(m.ratio) ==> 1.0 <= ControlContrast(m, img, c).value
  {
    if ControlContrast(m, img, c).Some? {
      FramedMeasures(m, img, Clipped(Area(c), img));
    }
  }

  /** Away from the edges of the screenshot the clamp changes nothing: a
      control whose widened rectangle lies on the screenshot is measured as
      written. */
  lemma ControlContrastAgrees(m: Meter, img: Image, c: Control)
    requires Rectangular(img) && AwayFromEdges(img, c)
    ensures ControlContrast(m, img, c) == ControlContrastAsWritten(m, img, c)
  {
    var a := Area(c);
    if c.width != 0 && c.height != 0 {
      assert Clipped(a, img) == a;
      var f := WidenedAsWritten(a);
      FramesAgree(img, a);
      CropInside(img, f.0.y1, f.0.y2, f.0.x1, f.0.x2);
      assert ControlContrast(m, img, c) == Some(Framed(m, img, a));
      assert ControlContrastAsWritten(m, img, c) == Some(SampleAt(m, img, f.0, f.1));
    }
  }

  /** Away from the edges the clamped crop is the crop as written. */
  lemma FramesAgree(img: Image, a: Rect)
    requires Margin <= a.x1 && a.x2 + Margin <= img.width && Margin <= a.y1 && a.y2 + Margin <= |img.rows|
    ensures Frame(a, img) == WidenedAsWritten(a)
  {
  }

  /** As written, a 5 by 5 control 5 CSS pixels from the top of a screenshot
      at least 60 retina pixels high and wide is not measured: the crop's
      start row is -10, Python counts it from the bottom of the screenshot,
      and the crop comes out empty. The clamped measurement does measure
      it. */
  lemma ControlNearTopUnmeasured(m: Meter, img: Image, node: nat)
    requires Rectangular(img) && |img.rows| >= 60 && img.width >= 60
    ensures ControlContrastAsWritten(m, img, Control(node, 20, 5, 5, 5)) == None
    ensures ControlContrast(m, img, Control(node, 20, 5, 5, 5)).Some?
  {
    var c := Control(node, 20, 5, 5, 5);
    var crop := Crop(img, -10, 40, 20, 70);
    assert SliceIndex(|img.rows|, -10) == |img.rows| - 10;
    assert |crop.rows| == 0;
  }

  /** As written, a control just below the bottom of the screenshot is
      measured on the margin rows alone: the sample inside the crop is empty
      and its -1 comes back as the control's contrast, which is below 3. The
      clamped measurement does not measure it. */
  lemma ControlBelowPageSentinel(m: Meter, img: Image, node: nat)
    requires Rectangular(img) && |img.rows| == 100 && img.width == 100
    ensures ControlContrastAsWritten(m, img, Control(node, 20, 50, 5, 5)) == Some(-1.0)
    ensures ControlContrast(m, img, Control(node, 20, 50, 5, 5)) == None
  {
    var crop := Crop(img, 80, 130, 20, 70);
    assert |crop.rows| == 20 && crop.width == 50;
    var inner := Crop(crop, 20, 30, 20, 30);
    assert |inner.rows| == 0;
    PixelCount(inner);
  }

  // ---------------------------------------------------------------------------
  // Reporting

  /** `get_input_element_contrast_ratio` as written, on the retina
      screenshot. */
  function MeasuredAsWritten(m: Meter, img: Image): (measure: Control -> Option<real>)
    requires Rectangular(img)
    ensures forall c :: measure(c) == ControlContrastAsWritten(m, img, c)
  {
    c => ControlContrastAsWritten(m, img, c)
  }

  /** The measurement with the crop clamped to the screenshot. */
  function Measured(m: Meter, img: Image): (measure: Control -> Option<real>)
    requires Rectangular(img)
    ensures forall c :: measure(c) == ControlContrast(m, img, c)
  {
    c => ControlContrast(m, img, c)
  }

  /** What one control contributes: an infraction when it is measured below
      3:1, nothing otherwise. */
  function Emitted(dom: Tree, measure: Control -> Option<real>, c: Control): seq<ContrastInfraction>
    requires WellFormed(dom) && Rooted(dom) && c.node < |dom|
  {
    match measure(c)
    case Some(r) =>
      if r < MinContrastRatio then [ContrastInfraction("WCAG_1_4_11", XPath(dom, c.node, ""), r, MinContrastRatio)]
      else []
    case None => []
  }

  predicate OnPage(dom: Tree, controls: seq<Control>) {
    WellFormed(dom) && Rooted(dom) && forall k :: 0 <= k < |controls| ==> controls[k].node < |dom|
  }

  /** The infractions of `detect_wcag_1_4_11_infractions` for the controls in
      query order: at most one per control, each for WCAG 1.4.11 with
      threshold 3 and a contrast below 3. */
  function Flagged(dom: Tree, measure: Control -> Option<real>, controls: seq<Control>): (fs: seq<ContrastInfraction>)
    requires OnPage(dom, controls)
    ensures |fs| <= |controls|
    ensures forall k :: 0 <= k < |fs| ==>
      fs[k].criterion == "WCAG_1_4_11" && fs[k].threshold == MinContrastRatio && fs[k].contrast < MinContrastRatio
  {
    if controls == [] then []
    else
      var c := controls[|controls| - 1];
      Flagged(dom, measure, controls[..|controls| - 1]) + Emitted(dom, measure, c)
  }

  /** Every reported contrast is one the measurement gave, so a bound on the
      measurement bounds the report: a measurement that is never below `lo`
      is reported with contrasts from `lo` up to but excluding 3. */
  lemma {:induction false} FlaggedAtLeast(dom: Tree, measure: Control -> Option<real>, controls: seq<Control>, lo: real)
    requires OnPage(dom, controls)
    requires forall c :: measure(c).Some? ==> lo <= measure(c).value
    ensures forall k :: 0 <= k < |Flagged(dom, measure, controls)| ==> lo <= Flagged(dom, measure, controls)[k].contrast
  {
    if controls != [] {
      FlaggedAtLeast(dom, measure, controls[..|controls| - 1], lo);
    }
  }

  /** Infractions come in control order with nothing merged or dropped: the
      infractions of two runs of controls are those of each, one after the
      other. */
  lemma {:induction false} FlaggedAppend(dom: Tree, measure: Control -> Option<real>, a: seq<Control>, b: seq<Control>)
    requires OnPage(dom, a) && OnPage(dom, b)
    ensures OnPage(dom, a + b)
    ensures Flagged(dom, measure, a + b) == Flagged(dom, measure, a) + Flagged(dom, measure, b)
    decreases |b|
  {
    if b != [] {
      var n := |b| - 1;
      var b' := b[..n];
      FlaggedAppend(dom, measure, a, b');
      var e := Emitted(dom, measure, b[n]);
      assert Flagged(dom, measure, a + b) == Flagged(dom, measure, a + b') + e by {
        assert (a + b)[..|a + b| - 1] == a + b';
        assert (a + b)[|a + b| - 1] == b[n];
      }
      SeqAssoc(Flagged(dom, measure, a), Flagged(dom, measure, b'), e);
    } else {
      assert a + b == a;
    }
  }

  /** A single control is reported exactly when it is measured below 3:1,
      under its own xpath and with its own contrast. */
  lemma FlaggedOne(dom: Tree, measure: Control -> Option<real>, c: Control)
    requires WellFormed(dom) && Rooted(dom) && c.node < |dom|
    ensures OnPage(dom, [c])
    ensures var r := measure(c);
      Flagged(dom, measure, [c]) ==
        if r.Some? && r.value < MinContrastRatio
        then [ContrastInfraction("WCAG_1_4_11", XPath(dom, c.node, ""), r.value, MinContrastRatio)]
        else []
  {
    assert [c][..0] == [];
  }

  lemma FlaggedStep(dom: Tree, measure: Control -> Option<real>, controls: seq<Control>, i: nat)
    requires OnPage(dom, controls) && i < |controls|
    ensures OnPage(dom, controls[..i]) && OnPage(dom, controls[..i + 1])
    ensures Flagged(dom, measure, controls[..i + 1])
      == Flagged(dom, measure, controls[..i]) + Emitted(dom, measure, controls[i])
  {
    assert controls[..i + 1][..i] == controls[..i];
  }

  /** The control's rectangle widened by 20 pixels on each side lies on the
      screenshot. */
  predicate AwayFromEdges(img: Image, c: Control) {
    var a := Area(c);
    Margin <= a.x1 && a.x2 + Margin <= img.width && Margin <= a.y1 && a.y2 + Margin <= |img.rows|
  }

  /** Two measurements that agree on every control report the same
      infractions. */
  lemma {:induction false} FlaggedAgree(dom: Tree, f: Control -> Option<real>, g: Control -> Option<real>,
                                        controls: seq<Control>)
    requires OnPage(dom, controls)
    requires forall k :: 0 <= k < |controls| ==> f(controls[k]) == g(controls[k])
    ensures Flagged(dom, f, controls) == Flagged(dom, g, controls)
  {
    if controls != [] {
      FlaggedAgree(dom, f, g, controls[..|controls| - 1]);
    }
  }

  /** When every control lies at least 10 CSS pixels inside the screenshot,
      the clamped filter reports exactly what the filter as written reports. */
  lemma DetectorsAgree(dom: Tree, m: Meter, img: Image, controls: seq<Control>)
    requires Rectangular(img) && OnPage(dom, controls)
    requires forall k :: 0 <= k < |controls| ==> AwayFromEdges(img, controls[k])
    ensures Flagged(dom, Measured(m, img), controls) == Flagged(dom, MeasuredAsWritten(m, img), controls)
  {
    forall k | 0 <= k < |controls|
      ensures Measured(m, img)(controls[k]) == MeasuredAsWritten(m, img)(controls[k])
    {
      ControlContrastAgrees(m, img, controls[k]);
    }
    FlaggedAgree(dom, Measured(m, img), MeasuredAsWritten(m, img), controls);
  }

  /** As written, the control of `ControlBelowPageSentinel` is reported with
      the -1 sentinel as its contrast; the clamped filter reports nothing. */
  lemma ControlBelowPageReported(dom: Tree, m: Meter, img: Image, node: nat)
    requires Rectangular(img) && |img.rows| == 100 && img.width == 100
    requires WellFormed(dom) && Rooted(dom) && node < |dom|
    ensures OnPage(dom, [Control(node, 20, 50, 5, 5)])
    ensures Flagged(dom, MeasuredAsWritten(m, img), [Control(node, 20, 50, 5, 5)])
      == [ContrastInfraction("WCAG_1_4_11", XPath(dom, node, ""), -1.0, MinContrastRatio)]
    ensures Flagged(dom, Measured(m, img), [Control(node, 20, 50, 5, 5)]) == []
  {
    var c := Control(node, 20, 50, 5, 5);
    ControlBelowPageSentinel(m, img, node);
    FlaggedOne(dom, MeasuredAsWritten(m, img), c);
    FlaggedOne(dom, Measured(m, img), c);
  }

  /** `detect_wcag_1_4_11_infractions`: every control the query found is
      measured as written, with the source's channel-sum ratio, on the retina
      screenshot, and filtered. */
  method DetectWcag1411(dom: Tree, lum: Luminance, border: BorderMean, img: Image, controls: seq<Control>)
      returns (infractions: seq<ContrastInfraction>)
    requires Rectangular(img) && OnPage(dom, controls)
    ensures infractions == Flagged(dom, MeasuredAsWritten(Meter(BySum(lum), border), img), controls)
  {
    infractions := FilterControls(dom, MeasuredAsWritten(Meter(BySum(lum), border), img), controls);
  }

  /** The detector as evidently intended: the crop clamped to the screenshot
      and the WCAG ratio. Every infraction then has a contrast from 1 up to
      but excluding 3. */
  method DetectWcag1411Corrected(dom: Tree, lum: Luminance, border: BorderMean, img: Image, controls: seq<Control>)
      returns (infractions: seq<ContrastInfraction>)
    requires Rectangular(img) && OnPage(dom, controls)
    ensures infractions == Flagged(dom, Measured(Meter(ByLuminance(lum), border), img), controls)
    ensures forall k :: 0 <= k < |infractions| ==> 1.0 <= infractions[k].contrast < MinContrastRatio
  {
    var m := Meter(ByLuminance(lum), border);
    infractions := FilterControls(dom, Measured(m, img), controls);
    forall c
      ensures Measured(m, img)(c).Some? ==> 1.0 <= Measured(m, img)(c).value
    {
      ControlContrastMeasured(m, img, c);
    }
    FlaggedAtLeast(dom, Measured(m, img), controls, 1.0);
  }

  /** The filter loop: a control measured below 3:1 is appended with its
      xpath, the others are skipped. */
  method FilterControls(dom: Tree, measure: Control -> Option<real>, controls: seq<Control>)
      returns (infractions: seq<ContrastInfraction>)
    requires OnPage(dom, controls)
    ensures infractions == Flagged(dom, measure, controls)
  {
    infractions := [];
    var i := 0;
    while i < |controls|
      invariant i <= |controls|
      invariant infractions == Flagged(dom, measure, controls[..i])
    {
      var c := controls[i];
      FlaggedStep(dom, measure, controls, i);
      var ratio := measure(c);
      if ratio.Some? && ratio.value < MinContrastRatio {
        var xpath := XPathOf(dom, c.node, "");
        infractions := infractions + [ContrastInfraction("WCAG_1_4_11", xpath, ratio.value, MinContrastRatio)];
      }
      i := i + 1;
    }
    assert controls[..i] == controls;
  }
}
