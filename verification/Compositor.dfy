/** Layout of the composed frame: the source is fitted into the panel, projected to the
    signal and then to the encoded canvas, each time rounded to whole pixels. Dimensions of
    the display and the canvas are integers; quotients are exact. */
module Compositor {
  import opened Prelude

  datatype AspectMode = Preserve | Stretch

  datatype JsNumber = Finite(value: real) | NotFinite

  datatype Display = Display(signalWidth: int, signalHeight: int, panelWidth: int, panelHeight: int)

  datatype Size = Size(width: int, height: int)

  datatype Rect = Rect(x: int, y: int, width: int, height: int)

  datatype Layout = Layout(source: Size, target: Size, content: Rect, signalContent: Rect, panelContent: Rect)

  function PositiveDimension(value: JsNumber): int
  {
    if value.Finite? && value.value > 0.0 then value.value.Floor else 1
  }

  /** Scales a length from one space to another, to at least one pixel. */
  function Project(length: int, from: int, to: int): int
    requires from > 0
  {
    Max(1, Round(length * to, from))
  }

  function Centred(space: int, content: int): int { (space - content) / 2 }

  function CentredRect(space: Size, width: int, height: int): Rect
  {
    Rect(Centred(space.width, width), Centred(space.height, height), width, height)
  }

  predicate Narrower(source: Size, display: Display)
  {
    source.width * display.panelHeight < display.panelWidth * source.height
  }

  predicate Positive(s: Size) { s.width > 0 && s.height > 0 }

  predicate PositiveDisplay(d: Display)
  {
    d.signalWidth > 0 && d.signalHeight > 0 && d.panelWidth > 0 && d.panelHeight > 0
  }

  function PanelSize(source: Size, display: Display): Size
    requires Positive(source)
  {
    if Narrower(source, display)
    then Size(Max(1, Round(display.panelHeight * source.width, source.height)), display.panelHeight)
    else Size(display.panelWidth, Max(1, Round(display.panelWidth * source.height, source.width)))
  }

  function SizedLayout(source: Size, target: Size, mode: AspectMode, display: Display): Layout
    requires Positive(source) && PositiveDisplay(display)
  {
    if mode == Stretch then
      Layout(source, target, Rect(0, 0, target.width, target.height),
             Rect(0, 0, display.signalWidth, display.signalHeight), Rect(0, 0, display.panelWidth, display.panelHeight))
    else
      var panel := PanelSize(source, display);
      var signal := Size(Project(panel.width, display.panelWidth, display.signalWidth),
                         Project(panel.height, display.panelHeight, display.signalHeight));
      var content := Size(Project(signal.width, display.signalWidth, target.width),
                          Project(signal.height, display.signalHeight, target.height));
      Layout(source, target,
             CentredRect(target, content.width, content.height),
             CentredRect(Size(display.signalWidth, display.signalHeight), signal.width, signal.height),
             CentredRect(Size(display.panelWidth, display.panelHeight), panel.width, panel.height))
  }

  function CalculateLayout(sourceWidth: JsNumber, sourceHeight: JsNumber, targetWidth: JsNumber, targetHeight: JsNumber,
                           mode: AspectMode, display: Display): Layout
    requires PositiveDisplay(display)
    requires Usable(sourceWidth) && Usable(sourceHeight)
  {
    PositiveDimensionSafe(sourceWidth);
    PositiveDimensionSafe(sourceHeight);
    SizedLayout(Size(PositiveDimension(sourceWidth), PositiveDimension(sourceHeight)),
                Size(PositiveDimension(targetWidth), PositiveDimension(targetHeight)), mode, display)
  }

  predicate CanPassThrough(l: Layout)
  {
    l.source == l.target && l.content == Rect(0, 0, l.target.width, l.target.height)
  }

  /** A number that is not a positive fraction below one pixel. */
  predicate Usable(value: JsNumber) { !(value.Finite? && 0.0 < value.value < 1.0) }

  /** Those are exactly the numbers whose dimension is at least one pixel. */
  lemma PositiveDimensionSafe(value: JsNumber)
    ensures PositiveDimension(value) >= 1 <==> Usable(value)
  {
  }

  // ---- rounding ----

  lemma RoundAtMost(n: int, d: int, m: int)
    requires d > 0 && n <= d * m
    ensures Round(n, d) <= m
  {
    RoundDivides(n, d);
    hide Round;
    Between(d, Round(n, d), m);
  }

  lemma RoundAtLeast(n: int, d: int, m: int)
    requires d > 0 && n >= d * m
    ensures Round(n, d) >= m
  {
    RoundDivides(n, d);
    hide Round;
    Between(d, m, Round(n, d));
  }

  lemma Between(d: int, x: int, y: int)
    requires d > 0 && 2 * d * x <= 2 * d * y + d
    ensures x <= y
  {
    if x > y { Multiples(2 * d, y + 1, x); }
  }

  lemma Multiples(d: int, x: int, y: int)
    requires d > 0 && x <= y
    ensures d * x <= d * y
  {
  }

  /** Projection stays inside the new space, and fills it if the old space was filled. */
  lemma ProjectInside(length: int, from: int, to: int)
    requires 1 <= length <= from && to >= 1
    ensures 1 <= Project(length, from, to) <= to
    ensures length == from ==> Project(length, from, to) == to
  {
    assert length * to <= from * to;
    RoundAtMost(length * to, from, to);
    if length == from { RoundAtLeast(from * to, from, to); }
  }

  // ---- containment ----

  predicate Inside(r: Rect, space: Size)
  {
    r.x >= 0 && r.y >= 0 && r.width >= 1 && r.height >= 1
    && r.x + r.width <= space.width && r.y + r.height <= space.height
  }

  /** The bars on opposite sides differ by at most one pixel. */
  predicate Balanced(r: Rect, space: Size)
  {
    && -1 <= r.x - (space.width - r.x - r.width) <= 1
    && -1 <= r.y - (space.height - r.y - r.height) <= 1
  }

  lemma CentredInside(space: Size, width: int, height: int)
    requires 1 <= width <= space.width && 1 <= height <= space.height
    ensures Inside(CentredRect(space, width, height), space) && Balanced(CentredRect(space, width, height), space)
  {
  }

  lemma PanelFits(source: Size, display: Display)
    requires Positive(source) && PositiveDisplay(display)
    ensures var p := PanelSize(source, display);
            && 1 <= p.width <= display.panelWidth && 1 <= p.height <= display.panelHeight
            && (p.width == display.panelWidth || p.height == display.panelHeight)
  {
    if Narrower(source, display) {
      assert display.panelHeight * source.width <= source.height * display.panelWidth;
      RoundAtMost(display.panelHeight * source.width, source.height, display.panelWidth);
    } else {
      assert display.panelWidth * source.height <= source.width * display.panelHeight;
      RoundAtMost(display.panelWidth * source.height, source.width, display.panelHeight);
    }
  }

  lemma SizedContained(source: Size, target: Size, display: Display)
    requires Positive(source) && Positive(target) && PositiveDisplay(display)
    ensures var l := SizedLayout(source, target, Preserve, display);
            var signal := Size(display.signalWidth, display.signalHeight);
            var panel := Size(display.panelWidth, display.panelHeight);
            && Inside(l.content, target) && Balanced(l.content, target)
            && Inside(l.signalContent, signal) && Balanced(l.signalContent, signal)
            && Inside(l.panelContent, panel) && Balanced(l.panelContent, panel)
            && ((l.content.width == target.width && l.signalContent.width == signal.width
                 && l.panelContent.width == panel.width)
                || (l.content.height == target.height && l.signalContent.height == signal.height
                    && l.panelContent.height == panel.height))
  {
    var panel := PanelSize(source, display);
    PanelFits(source, display);
    ProjectInside(panel.width, display.panelWidth, display.signalWidth);
    ProjectInside(panel.height, display.panelHeight, display.signalHeight);
    var signal := Size(Project(panel.width, display.panelWidth, display.signalWidth),
                       Project(panel.height, display.panelHeight, display.signalHeight));
    ProjectInside(signal.width, display.signalWidth, target.width);
    ProjectInside(signal.height, display.signalHeight, target.height);
    CentredInside(Size(display.panelWidth, display.panelHeight), panel.width, panel.height);
    CentredInside(Size(display.signalWidth, display.signalHeight), signal.width, signal.height);
    CentredInside(target, Project(signal.width, display.signalWidth, target.width),
                  Project(signal.height, display.signalHeight, target.height));
  }

  /** For all usable dimensions and positive geometries, in preserve mode: every content
      rectangle lies inside its space with balanced bars, and one axis is filled exactly in all
      three spaces. */
  lemma LayoutContained(sourceWidth: JsNumber, sourceHeight: JsNumber, targetWidth: JsNumber, targetHeight: JsNumber,
                        display: Display)
    requires Usable(sourceWidth) && Usable(sourceHeight) && Usable(targetWidth) && Usable(targetHeight)
    requires PositiveDisplay(display)
    ensures var l := CalculateLayout(sourceWidth, sourceHeight, targetWidth, targetHeight, Preserve, display);
            var target := Size(PositiveDimension(targetWidth), PositiveDimension(targetHeight));
            var signal := Size(display.signalWidth, display.signalHeight);
            var panel := Size(display.panelWidth, display.panelHeight);
            && l.target == target
            && Inside(l.content, target) && Balanced(l.content, target)
            && Inside(l.signalContent, signal) && Balanced(l.signalContent, signal)
            && Inside(l.panelContent, panel) && Balanced(l.panelContent, panel)
            && ((l.content.width == target.width && l.signalContent.width == signal.width
                 && l.panelContent.width == panel.width)
                || (l.content.height == target.height && l.signalContent.height == signal.height
                    && l.panelContent.height == panel.height))
  {
    PositiveDimensionSafe(sourceWidth);
    PositiveDimensionSafe(sourceHeight);
    PositiveDimensionSafe(targetWidth);
    PositiveDimensionSafe(targetHeight);
    SizedContained(Size(PositiveDimension(sourceWidth), PositiveDimension(sourceHeight)),
                   Size(PositiveDimension(targetWidth), PositiveDimension(targetHeight)), display);
  }

  // ---- the error of three roundings ----

  function Quotient(n: int, d: int): real
    requires d > 0
  {
    n as real / d as real
  }

  /** A length measured in another space: products are named so that proofs stay linear. */
  function Scaled(length: real, scale: real): real { length * scale }

  predicate Within(x: real, bound: real) { -bound <= x <= bound }

  lemma ScaledDifference(x: real, y: real, scale: real)
    ensures Scaled(x - y, scale) == Scaled(x, scale) - Scaled(y, scale)
  {
  }

  lemma ScaledTwice(x: real, a: real, b: real)
    ensures Scaled(Scaled(x, a), b) == Scaled(Scaled(x, b), a) == Scaled(x, Scaled(a, b))
  {
  }

  lemma ScaledPositive(x: real, scale: real)
    requires x > 0.0 && scale > 0.0
    ensures Scaled(x, scale) > 0.0
  {
  }

  lemma ScaledMonotone(x: real, y: real, scale: real)
    requires scale > 0.0
    ensures x <= y <==> Scaled(x, scale) <= Scaled(y, scale)
  {
    ScaledDifference(y, x, scale);
    ScaledDifference(x, y, scale);
    if x < y { ScaledPositive(y - x, scale); }
    if y < x { ScaledPositive(x - y, scale); }
    hide Scaled;
  }

  lemma HalfScaled(scale: real)
    ensures Scaled(0.5, scale) == scale / 2.0 && Scaled(-0.5, scale) == -scale / 2.0
  {
  }

  /** An error is half a pixel before scaling exactly when it is half the scale after it. */
  lemma HalfPixel(x: real, y: real, scale: real)
    requires scale > 0.0
    ensures Within(x - y, 0.5) <==> Within(Scaled(x, scale) - Scaled(y, scale), scale / 2.0)
  {
    ScaledDifference(x, y, scale);
    ScaledMonotone(x - y, 0.5, scale);
    ScaledMonotone(-0.5, x - y, scale);
    HalfScaled(scale);
    hide Scaled;
  }

  lemma QuotientTimes(n: int, d: int)
    requires d > 0
    ensures Scaled(Quotient(n, d), d as real) == n as real
  {
  }

  lemma IntProduct(a: int, b: int)
    ensures (a * b) as real == Scaled(a as real, b as real)
  {
  }

  lemma QuotientPositive(n: int, d: int)
    requires n > 0 && d > 0
    ensures Quotient(n, d) > 0.0
  {
  }

  lemma RoundError(n: int, d: int)
    requires d > 0
    ensures Within(Round(n, d) as real - Quotient(n, d), 0.5)
  {
    var r := Round(n, d);
    RoundDivides(n, d);
    var product := r * d;
    assert 2 * product <= 2 * n + d < 2 * product + 2 * d;
    IntProduct(r, d);
    QuotientTimes(n, d);
    hide Round, Quotient, Scaled;
    HalfPixel(r as real, Quotient(n, d), d as real);
  }

  lemma CancelScale(x: real, y: real, scale: real)
    requires scale > 0.0 && Scaled(x, scale) == Scaled(y, scale)
    ensures x == y
  {
    ScaledMonotone(x, y, scale);
    ScaledMonotone(y, x, scale);
    hide Scaled;
  }

  lemma QuotientScales(s: int, n: int, d: int)
    requires d > 0
    ensures Quotient(s * n, d) == Scaled(s as real, Quotient(n, d))
  {
    QuotientTimes(s * n, d);
    QuotientTimes(n, d);
    IntProduct(s, n);
    ScaledTwice(s as real, Quotient(n, d), d as real);
    hide Quotient, Scaled;
    CancelScale(Quotient(s * n, d), Scaled(s as real, Quotient(n, d)), d as real);
  }

  /** Projecting from the panel to the signal and on to the canvas scales by target / panel. */
  lemma ProjectionsCompose(k: int, panel: int, signal: int, target: int)
    requires panel > 0 && signal > 0
    ensures Scaled(Quotient(k * signal, panel), Quotient(target, signal)) == Scaled(k as real, Quotient(target, panel))
  {
    var a, b := Quotient(target, signal), Quotient(target, panel);
    QuotientScales(k, signal, panel);
    ScalesCompose(panel, signal, target);
    ScaledTwice(k as real, Quotient(signal, panel), a);
    hide Quotient, Scaled;
  }

  lemma ScalesCompose(panel: int, signal: int, target: int)
    requires panel > 0 && signal > 0
    ensures Scaled(Quotient(signal, panel), Quotient(target, signal)) == Quotient(target, panel)
  {
    var a, b, c := Quotient(signal, panel), Quotient(target, signal), Quotient(target, panel);
    QuotientTimes(signal, panel);
    QuotientTimes(target, signal);
    QuotientTimes(target, panel);
    ScaledTwice(a, b, panel as real);
    SwapFactors(b, signal as real);
    hide Quotient, Scaled;
    CancelScale(Scaled(a, b), c, panel as real);
  }

  lemma SwapFactors(x: real, y: real)
    ensures Scaled(x, y) == Scaled(y, x)
  {
  }

  /** Half a pixel on the signal, as the encoded canvas shows it. */
  lemma SignalError(k: int, panel: int, signal: int, target: int)
    requires panel > 0 && signal > 0 && target > 0
    ensures Within(Quotient(Round(k * signal, panel) * target, signal) - Scaled(k as real, Quotient(target, panel)),
                   Quotient(target, signal) / 2.0)
  {
    var s := Round(k * signal, panel);
    RoundError(k * signal, panel);
    QuotientPositive(target, signal);
    ProjectionsCompose(k, panel, signal, target);
    QuotientScales(s, target, signal);
    hide Quotient, Round, Scaled;
    HalfPixel(s as real, Quotient(k * signal, panel), Quotient(target, signal));
  }

  /** Half a pixel on the panel, as the encoded canvas shows it. */
  lemma PanelError(n: int, d: int, panel: int, target: int)
    requires d > 0 && panel > 0 && target > 0
    ensures var scale := Quotient(target, panel);
            Within(Scaled(Round(n, d) as real, scale) - Scaled(Quotient(n, d), scale), scale / 2.0)
  {
    RoundError(n, d);
    QuotientPositive(target, panel);
    hide Quotient, Round, Scaled;
    HalfPixel(Round(n, d) as real, Quotient(n, d), Quotient(target, panel));
  }

  lemma ErrorsAdd(c: real, onSignal: real, onPanel: real, exact: real, a: real, b: real)
    requires Within(c - onSignal, 0.5) && Within(onSignal - onPanel, a / 2.0) && Within(onPanel - exact, b / 2.0)
    ensures Within(c - exact, (1.0 + a + b) / 2.0)
  {
  }

  lemma ProjectUnclamped(length: int, from: int, to: int)
    requires from > 0 && Round(length * to, from) >= 1
    ensures Project(length, from, to) == Round(length * to, from)
  {
  }

  /** The roundings on one axis, from n / d on the panel to the signal and the canvas, all give
      at least one pixel. */
  predicate Unclamped(n: int, d: int, panel: int, signal: int, target: int)
    requires d > 0 && panel > 0 && signal > 0
  {
    var k := Round(n, d);
    var s := Round(k * signal, panel);
    k >= 1 && s >= 1 && Round(s * target, signal) >= 1
  }

  /** One axis: content on the panel, rounded from n / d, then projected twice without the
      one-pixel minimum taking effect. */
  lemma AxisError(n: int, d: int, panel: int, signal: int, target: int)
    requires d > 0 && panel > 0 && signal > 0 && target > 0
    ensures var content := Project(Project(Max(1, Round(n, d)), panel, signal), signal, target);
            Unclamped(n, d, panel, signal, target) ==>
              Within(content as real - Scaled(Quotient(n, d), Quotient(target, panel)),
                     (1.0 + Quotient(target, signal) + Quotient(target, panel)) / 2.0)
  {
    var k := Round(n, d);
    var s := Round(k * signal, panel);
    var c := Round(s * target, signal);
    hide Quotient, Round, Scaled, Within, Project;
    if Unclamped(n, d, panel, signal, target) {
      ProjectUnclamped(k, panel, signal);
      ProjectUnclamped(s, signal, target);
      RoundError(s * target, signal);
      SignalError(k, panel, signal, target);
      PanelError(n, d, panel, target);
      ErrorsAdd(c as real, Quotient(s * target, signal), Scaled(k as real, Quotient(target, panel)),
                Scaled(Quotient(n, d), Quotient(target, panel)), Quotient(target, signal), Quotient(target, panel));
    }
  }

  /** The axis that limits the content is filled in all three spaces. */
  lemma FilledAxis(source: Size, target: Size, display: Display)
    requires Positive(source) && Positive(target) && PositiveDisplay(display)
    ensures var l := SizedLayout(source, target, Preserve, display);
            if Narrower(source, display) then l.content.height == target.height else l.content.width == target.width
  {
    PanelFits(source, display);
    ProjectInside(display.panelWidth, display.panelWidth, display.signalWidth);
    ProjectInside(display.panelHeight, display.panelHeight, display.signalHeight);
    ProjectInside(display.signalWidth, display.signalWidth, target.width);
    ProjectInside(display.signalHeight, display.signalHeight, target.height);
    hide Project, Round;
  }

  /** Where a source narrower than the panel ends up: its encoded width is within
      (1 + T/G + T/P) / 2 of the exact projection; a source that is not narrower has the target
      width. */
  lemma WidthError(source: Size, target: Size, display: Display)
    requires Positive(source) && Positive(target) && PositiveDisplay(display)
    ensures var l := SizedLayout(source, target, Preserve, display);
            var n, d := display.panelHeight * source.width, source.height;
            var exact := Scaled(Quotient(n, d), Quotient(target.width, display.panelWidth));
            Narrower(source, display) && Unclamped(n, d, display.panelWidth, display.signalWidth, target.width) ==>
              Within(l.content.width as real - exact,
                     (1.0 + Quotient(target.width, display.signalWidth)
                      + Quotient(target.width, display.panelWidth)) / 2.0)
    ensures !Narrower(source, display) ==> SizedLayout(source, target, Preserve, display).content.width == target.width
  {
    FilledAxis(source, target, display);
    hide Quotient, Round, Scaled, Within, Project, Unclamped;
    AxisError(display.panelHeight * source.width, source.height, display.panelWidth, display.signalWidth, target.width);
  }

  /** And the height of a source that is not narrower; a narrower one has the target height. */
  lemma HeightError(source: Size, target: Size, display: Display)
    requires Positive(source) && Positive(target) && PositiveDisplay(display)
    ensures var l := SizedLayout(source, target, Preserve, display);
            var n, d := display.panelWidth * source.height, source.width;
            var exact := Scaled(Quotient(n, d), Quotient(target.height, display.panelHeight));
            !Narrower(source, display) && Unclamped(n, d, display.panelHeight, display.signalHeight, target.height) ==>
              Within(l.content.height as real - exact,
                     (1.0 + Quotient(target.height, display.signalHeight)
                      + Quotient(target.height, display.panelHeight)) / 2.0)
    ensures Narrower(source, display) ==> SizedLayout(source, target, Preserve, display).content.height == target.height
  {
    FilledAxis(source, target, display);
    hide Quotient, Round, Scaled, Within, Project, Unclamped;
    AxisError(display.panelWidth * source.height, source.width, display.panelHeight, display.signalHeight,
              target.height);
  }

  /** A frame passes through untouched exactly when it has the canvas size and, in preserve
      mode, the layout fills both axes of the canvas. */
  lemma PassThroughMeaning(sourceWidth: JsNumber, sourceHeight: JsNumber, targetWidth: JsNumber, targetHeight: JsNumber,
                           mode: AspectMode, display: Display)
    requires Usable(sourceWidth) && Usable(sourceHeight) && PositiveDisplay(display)
    ensures var l := CalculateLayout(sourceWidth, sourceHeight, targetWidth, targetHeight, mode, display);
            CanPassThrough(l) <==>
              && PositiveDimension(sourceWidth) == PositiveDimension(targetWidth)
              && PositiveDimension(sourceHeight) == PositiveDimension(targetHeight)
              && (mode == Preserve ==> l.content.width == l.target.width && l.content.height == l.target.height)
  {
    PositiveDimensionSafe(sourceWidth);
    PositiveDimensionSafe(sourceHeight);
  }

  lemma SameShapeFills(source: Size, target: Size, display: Display)
    requires Positive(source) && Positive(target) && PositiveDisplay(display)
    requires source.width * display.panelHeight == display.panelWidth * source.height
    ensures var l := SizedLayout(source, target, Preserve, display);
            && l.content == Rect(0, 0, target.width, target.height)
            && l.signalContent == Rect(0, 0, display.signalWidth, display.signalHeight)
            && l.panelContent == Rect(0, 0, display.panelWidth, display.panelHeight)
  {
    PanelFits(source, display);
    RoundAtLeast(display.panelWidth * source.height, source.width, display.panelHeight);
    hide Round;
    ProjectInside(display.panelWidth, display.panelWidth, display.signalWidth);
    ProjectInside(display.panelHeight, display.panelHeight, display.signalHeight);
    ProjectInside(display.signalWidth, display.signalWidth, target.width);
    ProjectInside(display.signalHeight, display.signalHeight, target.height);
    hide Project;
  }

  /** A source shaped exactly like the panel fills every space, so it passes through as soon
      as it has the size of the canvas. */
  lemma SameShapePassesThrough(sourceWidth: JsNumber, sourceHeight: JsNumber, targetWidth: JsNumber,
                               targetHeight: JsNumber, display: Display)
    requires Usable(sourceWidth) && Usable(sourceHeight) && Usable(targetWidth) && Usable(targetHeight)
    requires PositiveDisplay(display)
    requires PositiveDimension(sourceWidth) * display.panelHeight
             == display.panelWidth * PositiveDimension(sourceHeight)
    ensures var l := CalculateLayout(sourceWidth, sourceHeight, targetWidth, targetHeight, Preserve, display);
            && l.content == Rect(0, 0, l.target.width, l.target.height)
            && l.signalContent == Rect(0, 0, display.signalWidth, display.signalHeight)
            && l.panelContent == Rect(0, 0, display.panelWidth, display.panelHeight)
            && (CanPassThrough(l) <==> l.source == l.target)
  {
    PositiveDimensionSafe(sourceWidth);
    PositiveDimensionSafe(sourceHeight);
    PositiveDimensionSafe(targetWidth);
    PositiveDimensionSafe(targetHeight);
    SameShapeFills(Size(PositiveDimension(sourceWidth), PositiveDimension(sourceHeight)),
                   Size(PositiveDimension(targetWidth), PositiveDimension(targetHeight)), display);
    hide Round, PanelSize, Project, PositiveDimension;
  }

  // ---- the layout in numbers ----

  /** A sanitised dimension is the whole part of a positive number, and otherwise one. */
  lemma DimensionExactly(value: JsNumber)
    ensures var d := PositiveDimension(value);
            if value.Finite? && value.value > 0.0 then d as real <= value.value < d as real + 1.0 else d == 1
  {
  }

  /** The nearest whole number of pixels, but at least one. */
  predicate Pixels(r: int, n: int, d: int) { if Nearest(0, n, d) then r == 1 else Nearest(r, n, d) }

  /** The bars around a rectangle of that size: the right and the lower one may be a pixel wider. */
  predicate Placed(r: Rect, space: Size)
  {
    && 0 <= (space.width - r.x - r.width) - r.x <= 1
    && 0 <= (space.height - r.y - r.height) - r.y <= 1
  }

  lemma PixelsOf(n: int, d: int)
    requires n >= 0 && d > 0
    ensures Pixels(Max(1, Round(n, d)), n, d)
  {
    RoundIsNearest(n, d, 0);
    RoundIsNearest(n, d, Round(n, d));
    RoundAtLeast(n, d, 0);
    hide Round;
  }

  lemma ProjectPixels(length: int, from: int, to: int)
    requires length >= 0 && from > 0 && to > 0
    ensures Pixels(Project(length, from, to), length * to, from)
  {
    assert length * to >= 0;
    PixelsOf(length * to, from);
    hide Pixels, Round;
  }

  lemma PanelExactly(source: Size, display: Display)
    requires Positive(source) && PositiveDisplay(display)
    ensures var p := PanelSize(source, display);
            if source.width * display.panelHeight < display.panelWidth * source.height
            then p.height == display.panelHeight && Pixels(p.width, display.panelHeight * source.width, source.height)
            else p.width == display.panelWidth && Pixels(p.height, display.panelWidth * source.height, source.width)
  {
    assert display.panelHeight * source.width >= 0 && display.panelWidth * source.height >= 0;
    PixelsOf(display.panelHeight * source.width, source.height);
    PixelsOf(display.panelWidth * source.height, source.width);
    hide Pixels, Round;
  }

  /** In preserve mode each space shows the source at the size of the one before it, scaled and
      rounded to whole pixels, in its middle; in stretch mode each is filled whole. */
  lemma LayoutExactly(source: Size, target: Size, mode: AspectMode, display: Display)
    requires Positive(source) && Positive(target) && PositiveDisplay(display)
    ensures var l := SizedLayout(source, target, mode, display);
            var p, s, c := l.panelContent, l.signalContent, l.content;
            && l.source == source && l.target == target
            && (mode == Stretch ==>
                  && c == Rect(0, 0, target.width, target.height)
                  && s == Rect(0, 0, display.signalWidth, display.signalHeight)
                  && p == Rect(0, 0, display.panelWidth, display.panelHeight))
            && (mode == Preserve ==>
                  && Size(p.width, p.height) == PanelSize(source, display)
                  && Pixels(s.width, p.width * display.signalWidth, display.panelWidth)
                  && Pixels(s.height, p.height * display.signalHeight, display.panelHeight)
                  && Pixels(c.width, s.width * target.width, display.signalWidth)
                  && Pixels(c.height, s.height * target.height, display.signalHeight)
                  && Placed(p, Size(display.panelWidth, display.panelHeight))
                  && Placed(s, Size(display.signalWidth, display.signalHeight)) && Placed(c, target))
  {
    hide Pixels, PanelSize, Project;
    if mode == Preserve {
      PanelFits(source, display);
      var p := PanelSize(source, display);
      var w, h := Project(p.width, display.panelWidth, display.signalWidth),
                  Project(p.height, display.panelHeight, display.signalHeight);
      ProjectInside(p.width, display.panelWidth, display.signalWidth);
      ProjectInside(p.height, display.panelHeight, display.signalHeight);
      ProjectPixels(p.width, display.panelWidth, display.signalWidth);
      ProjectPixels(p.height, display.panelHeight, display.signalHeight);
      ProjectPixels(w, display.signalWidth, target.width);
      ProjectPixels(h, display.signalHeight, target.height);
    }
  }
}
