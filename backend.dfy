/** The pure computations of the Python node: the final prompt of `process`,
    the marker sizes, the layout of a marker number's digits, the
    seven-segment table and geometry, and the cache key of `IS_CHANGED`. */
module Backend {
  import opened Maybe
  import opened Text

  // -------------------------------------------------------- final prompt

  /** A value `json.loads` can return, reduced to what `process` looks at:
      Python truthiness and `len`. */
  datatype Json =
    | JArray(length: nat)
    | JObject(size: nat)
    | JString(s: string)
    | JNumber(isZero: bool)
    | JBool(b: bool)
    | JNull

  /** The outcome of `json.loads(points_data)`. */
  datatype Parsed = DecodeError | Decoded(value: Json)

  /** The text `process` appends when markers were drawn. */
  const SUFFIX: string := " (remove marker points)"
  const SUFFIX_ALONE: string := "(remove marker points)"

  predicate Truthy(j: Json) {
    match j
    case JArray(n) => n > 0
    case JObject(n) => n > 0
    case JString(s) => s != []
    case JNumber(z) => !z
    case JBool(b) => b
    case JNull => false
  }

  /** `points`, with the fallback to `[]` on a decode error. */
  function PointsValue(p: Parsed): Json {
    if p.DecodeError? then JArray(0) else p.value
  }

  /** `points and len(points) > 0`; `None` when `len` raises a `TypeError`
      (a non-zero number or `True`). */
  function HasPoints(j: Json): (r: Option<bool>)
    ensures r.None? <==> Truthy(j) && (j.JNumber? || j.JBool?)
    ensures r == Some(true) <==> Truthy(j) && (j.JArray? || j.JObject? || j.JString?)
  {
    if !Truthy(j) then Some(false)
    else match j
      case JNumber(_) => None
      case JBool(_) => None
      case _ => Some(true)
  }

  /** Steps 5 of `process`: the prompt, marked for marker removal when
      markers were drawn. */
  function FinalPrompt(promptText: string, markersDrawn: bool): string {
    if !markersDrawn then promptText
    else if promptText != "" then Trim(PySpace, promptText) + SUFFIX
    else SUFFIX_ALONE
  }

  /** The prompt `process` returns for the given `points_data` outcome, or
      `None` when it raises before returning. */
  function ProcessPrompt(promptText: string, points: Parsed): Option<string> {
    match HasPoints(PointsValue(points))
    case None => None
    case Some(drawn) => Some(FinalPrompt(promptText, drawn))
  }

  /** Without points the prompt passes through unchanged, whether
      `points_data` is an empty list or does not parse. */
  lemma NoPointsPromptUnchanged(promptText: string, points: Parsed)
    requires points.DecodeError? || points == Decoded(JArray(0))
    ensures ProcessPrompt(promptText, points) == Some(promptText)
  {
  }

  /** With points the prompt always ends in the removal note, and the
      stripped instruction can be read back from what precedes it. */
  lemma MarkedPromptShape(promptText: string)
    ensures var r := FinalPrompt(promptText, true);
      && |r| >= |SUFFIX_ALONE| && r[|r| - |SUFFIX_ALONE|..] == SUFFIX_ALONE
      && (promptText != "" ==> r[..|r| - |SUFFIX|] == Trim(PySpace, promptText))
      && (promptText == "" ==> r == SUFFIX_ALONE)
  {
    var r := FinalPrompt(promptText, true);
    if promptText != "" {
      var t := Trim(PySpace, promptText);
      assert r == t + SUFFIX;
      assert r[|r| - |SUFFIX_ALONE|..] == SUFFIX[1..];
      assert r[..|r| - |SUFFIX|] == t;
    }
  }

  /** A prompt made only of whitespace still gets the leading space of the
      note: `strip()` empties it after the emptiness test. */
  lemma BlankPromptKeepsSpace(promptText: string)
    requires promptText != "" && AllSpace(PySpace, promptText)
    ensures FinalPrompt(promptText, true) == SUFFIX
  {
  }

  /** The frontend's trim and Python's strip disagree: a prompt the editor
      produced can still lose a character here. */
  lemma StripRemovesMoreThanTrim()
    ensures var t := "\U{001F}a";
      Trim(JsSpace, t) == t && FinalPrompt(t, true) == "a" + SUFFIX
  {
    var t := "\U{001F}a";
    TrimUntouched(JsSpace, t);
    assert LeadLen(PySpace, t) == 1 by {
      assert t[1..] == "a";
    }
    assert TrailLen(PySpace, t) == 0;
    assert Trim(PySpace, t) == t[1..2] == "a";
  }

  /** A prompt with no whitespace at either end reaches the model with only
      the note appended. */
  lemma TrimmedPromptKept(promptText: string)
    requires promptText != [] && !IsSpace(PySpace, promptText[0]) && !IsSpace(PySpace, promptText[|promptText| - 1])
    ensures FinalPrompt(promptText, true) == promptText + SUFFIX
  {
    TrimUntouched(PySpace, promptText);
  }

  // -------------------------------------------------------- marker sizes

  function Min(a: int, b: int): int {
    if a <= b then a else b
  }

  function Max(a: int, b: int): int {
    if a >= b then a else b
  }

  /** `max(14, min(w, h) // 40)`. */
  function MarkerRadius(width: nat, height: nat): (r: nat)
    ensures r >= 14 && r >= Min(width, height) / 40
    ensures r == 14 || r == Min(width, height) / 40
  {
    Max(14, Min(width, height) / 40)
  }

  /** `max(2, marker_radius // 10)`. */
  function OutlineWidth(radius: nat): (w: nat)
    ensures w >= 2 && w >= radius / 10
    ensures w == 2 || w == radius / 10
  {
    Max(2, radius / 10)
  }

  /** `max(2, radius // 5)` in `_draw_number_geometric`. */
  function LineWidth(radius: nat): (w: nat)
    ensures w >= 2 && w >= radius / 5
    ensures w == 2 || w == radius / 5
  {
    Max(2, radius / 5)
  }

  /** Images whose shorter side is under 600 pixels get the minimum radius;
      from there on the radius grows with the shorter side. */
  lemma RadiusThreshold(width: nat, height: nat)
    ensures MarkerRadius(width, height) == 14 <==> Min(width, height) < 600
    ensures Min(width, height) >= 600 ==> MarkerRadius(width, height) == Min(width, height) / 40
  {
  }

  lemma RadiusMonotone(w1: nat, h1: nat, w2: nat, h2: nat)
    requires Min(w1, h1) <= Min(w2, h2)
    ensures MarkerRadius(w1, h1) <= MarkerRadius(w2, h2)
  {
    DivMonotone(Min(w1, h1), Min(w2, h2), 40);
  }

  lemma DivMonotone(a: nat, b: nat, d: nat)
    requires a <= b && d > 0
    ensures a / d <= b / d
  {
    if a / d > b / d {
      MulMonotone(b / d + 1, a / d, d);
      assert false;
    }
  }

  /** The outline is thicker than two pixels only for images whose shorter
      side is at least 1200 pixels. */
  lemma OutlineThreshold(width: nat, height: nat)
    ensures OutlineWidth(MarkerRadius(width, height)) == 2 <==> Min(width, height) < 1200
  {
    var m := Min(width, height);
    var r := MarkerRadius(width, height);
    if m >= 1200 {
      assert m / 40 >= 30;
      assert r / 10 >= 3;
    } else {
      assert m / 40 < 30;
    }
  }

  // ------------------------------------------------------- digit layout

  /** `len(num_str) * digit_width + (len(num_str) - 1) * spacing`. */
  function TotalWidth(count: nat, digitWidth: nat, spacing: nat): (t: int)
    requires count >= 1
    ensures t >= digitWidth
  {
    count * digitWidth + (count - 1) * spacing
  }

  /** `cx - total_width // 2`. */
  function StartX(cx: int, totalWidth: int): int {
    cx - totalWidth / 2
  }

  /** The centre of the `i`-th digit. */
  function DigitCentre(cx: int, count: nat, digitWidth: nat, spacing: nat, i: nat): int
    requires count >= 1
  {
    StartX(cx, TotalWidth(count, digitWidth, spacing)) + i * (digitWidth + spacing) + digitWidth / 2
  }

  /** Neighbouring digits are a digit width plus the spacing apart. */
  lemma EvenSpacing(cx: int, count: nat, digitWidth: nat, spacing: nat, i: nat)
    requires count >= 1
    ensures DigitCentre(cx, count, digitWidth, spacing, i + 1) - DigitCentre(cx, count, digitWidth, spacing, i)
      == digitWidth + spacing
  {
  }

  /** Digits are laid out left to right. */
  lemma {:induction false} CentresIncrease(cx: int, count: nat, digitWidth: nat, spacing: nat, i: nat, j: nat)
    requires count >= 1 && digitWidth + spacing > 0 && i < j
    ensures DigitCentre(cx, count, digitWidth, spacing, i) < DigitCentre(cx, count, digitWidth, spacing, j)
    decreases j - i
  {
    EvenSpacing(cx, count, digitWidth, spacing, i);
    if i + 1 < j {
      CentresIncrease(cx, count, digitWidth, spacing, i + 1, j);
    }
  }

  /** The run of digits is centred on `cx` up to one pixel of rounding:
      the first and last centres are mirror images about `cx`. */
  lemma LayoutCentred(cx: int, count: nat, digitWidth: nat, spacing: nat)
    requires count >= 1
    ensures var first := DigitCentre(cx, count, digitWidth, spacing, 0);
      var last := DigitCentre(cx, count, digitWidth, spacing, count - 1);
      -1 <= first + last - 2 * cx <= 1
  {
    var t := TotalWidth(count, digitWidth, spacing);
    var step := digitWidth + spacing;
    assert t == (count - 1) * step + digitWidth;
    assert t == 2 * (t / 2) + t % 2;
    assert digitWidth == 2 * (digitWidth / 2) + digitWidth % 2;
  }

  /** Every digit's box `[centre - width // 2, centre - width // 2 + width]`
      lies inside `[start_x, start_x + total_width]`. */
  lemma DigitsInsideRun(cx: int, count: nat, digitWidth: nat, spacing: nat, i: nat)
    requires count >= 1 && i < count
    ensures var c := DigitCentre(cx, count, digitWidth, spacing, i);
      var s := StartX(cx, TotalWidth(count, digitWidth, spacing));
      s <= c - digitWidth / 2 && c - digitWidth / 2 + digitWidth <= s + TotalWidth(count, digitWidth, spacing)
  {
    var step := digitWidth + spacing;
    assert TotalWidth(count, digitWidth, spacing) == (count - 1) * step + digitWidth;
    assert i * step <= (count - 1) * step by {
      MulMonotone(i, count - 1, step);
    }
  }

  lemma MulMonotone(a: nat, b: nat, c: nat)
    requires a <= b
    ensures a * c <= b * c
  {
  }

  /** The digits of `str(number)` for a marker number, left to right. */
  function NumberDigits(number: nat): (ds: seq<nat>)
    ensures |ds| >= 1 && forall i :: 0 <= i < |ds| ==> ds[i] < 10
    ensures |ds| == |NatToString(number)|
  {
    var s := NatToString(number);
    seq(|s|, i requires 0 <= i < |s| => DigitValue(s[i]))
  }

  /** Reading the drawn digits as a decimal numeral gives the number back. */
  lemma NumberDigitsSpellNumber(number: nat)
    ensures var ds := NumberDigits(number);
      && |ds| == |NatToString(number)|
      && forall i :: 0 <= i < |ds| ==> DigitChar(ds[i]) == NatToString(number)[i]
    ensures DigitsValue(NatToString(number)) == number
  {
    ValueOfNatToString(number);
  }

  // ------------------------------------------------------ seven segments

  /** a: top, b: upper right, c: lower right, d: bottom, e: lower left,
      f: upper left, g: middle. */
  datatype Segment = A | B | C | D | E | F | G

  /** `digit_segments.get(digit, [])`. */
  function DigitSegments(digit: int): seq<Segment> {
    match digit
    case 0 => [A, B, C, D, E, F]
    case 1 => [B, C]
    case 2 => [A, B, G, E, D]
    case 3 => [A, B, G, C, D]
    case 4 => [F, G, B, C]
    case 5 => [A, F, G, C, D]
    case 6 => [A, F, E, D, C, G]
    case 7 => [A, B, C]
    case 8 => [A, B, C, D, E, F, G]
    case 9 => [A, B, C, D, F, G]
    case _ => []
  }

  /** Which of the segments a, ..., g a digit lights. */
  datatype Lit = Lit(a: bool, b: bool, c: bool, d: bool, e: bool, f: bool, g: bool)

  function Pattern(digit: int): Lit {
    var ss := DigitSegments(digit);
    Lit(A in ss, B in ss, C in ss, D in ss, E in ss, F in ss, G in ss)
  }

  /** Reads a digit off a lit pattern by looking at one segment at a time. */
  function ReadDigit(p: Lit): nat {
    if !p.a then (if p.f then 4 else 1)
    else if !p.g then (if p.d then 0 else 7)
    else if !p.b then (if p.e then 6 else 5)
    else if !p.c then 2
    else if !p.f then 3
    else if p.e then 8 else 9
  }

  /** Each digit lights a pattern that reads back as that digit; digits
      outside the table light nothing. */
  lemma SegmentsReadBack(digit: int)
    ensures 0 <= digit <= 9 ==> ReadDigit(Pattern(digit)) == digit
    ensures !(0 <= digit <= 9) ==> DigitSegments(digit) == [] && Pattern(digit) == Lit(false, false, false, false, false, false, false)
  {
    var ss := DigitSegments(digit);
    match digit
    case 0 => assert ss == [A, B, C, D, E, F];
    case 1 => assert ss == [B, C];
    case 2 => assert ss == [A, B, G, E, D];
    case 3 => assert ss == [A, B, G, C, D];
    case 4 => assert ss == [F, G, B, C];
    case 5 => assert ss == [A, F, G, C, D];
    case 6 => assert ss == [A, F, E, D, C, G];
    case 7 => assert ss == [A, B, C];
    case 8 => assert ss == [A, B, C, D, E, F, G];
    case 9 => assert ss == [A, B, C, D, F, G];
    case _ => assert ss == [];
  }

  /** No two digits look alike. */
  lemma DistinctDigitsLookDistinct(d1: int, d2: int)
    requires 0 <= d1 <= 9 && 0 <= d2 <= 9 && d1 != d2
    ensures Pattern(d1) != Pattern(d2)
  {
    SegmentsReadBack(d1);
    SegmentsReadBack(d2);
  }

  /** 8 lights all seven segments and 1 exactly b and c. */
  lemma SegmentTableFacts()
    ensures Pattern(8) == Lit(true, true, true, true, true, true, true)
    ensures Pattern(1) == Lit(false, true, true, false, false, false, false)
  {
  }

  /** No two entries of `ss` are the same segment. */
  predicate Distinct(ss: seq<Segment>) {
    forall i, j :: 0 <= i < j < |ss| ==> ss[i] != ss[j]
  }

  /** No digit lists a segment twice. */
  lemma NoSegmentTwice(digit: int)
    ensures Distinct(DigitSegments(digit))
  {
    var ss := DigitSegments(digit);
    match digit
    case 0 => assert ss == [A, B, C, D, E, F];
    case 1 => assert ss == [B, C];
    case 2 => assert ss == [A, B, G, E, D];
    case 3 => assert ss == [A, B, G, C, D];
    case 4 => assert ss == [F, G, B, C];
    case 5 => assert ss == [A, F, G, C, D];
    case 6 => assert ss == [A, F, E, D, C, G];
    case 7 => assert ss == [A, B, C];
    case 8 => assert ss == [A, B, C, D, E, F, G];
    case 9 => assert ss == [A, B, C, D, F, G];
    case _ => assert ss == [];
  }

  datatype IPoint = IPoint(x: int, y: int)
  datatype Line = Line(start: IPoint, end: IPoint)

  /** The `segments` dictionary of `_draw_single_digit`. */
  function SegmentLine(seg: Segment, cx: int, cy: int, width: nat, height: nat, lineWidth: nat): Line {
    var hw, hh, gap := width / 2, height / 2, lineWidth / 2;
    match seg
    case A => Line(IPoint(cx - hw + gap, cy - hh), IPoint(cx + hw - gap, cy - hh))
    case B => Line(IPoint(cx + hw, cy - hh + gap), IPoint(cx + hw, cy - gap))
    case C => Line(IPoint(cx + hw, cy + gap), IPoint(cx + hw, cy + hh - gap))
    case D => Line(IPoint(cx - hw + gap, cy + hh), IPoint(cx + hw - gap, cy + hh))
    case E => Line(IPoint(cx - hw, cy + gap), IPoint(cx - hw, cy + hh - gap))
    case F => Line(IPoint(cx - hw, cy - hh + gap), IPoint(cx - hw, cy - gap))
    case G => Line(IPoint(cx - hw + gap, cy), IPoint(cx + hw - gap, cy))
  }

  function MirrorX(p: IPoint, cx: int): IPoint {
    IPoint(2 * cx - p.x, p.y)
  }

  function MirrorY(p: IPoint, cy: int): IPoint {
    IPoint(p.x, 2 * cy - p.y)
  }

  predicate Horizontal(l: Line) {
    l.start.y == l.end.y
  }

  predicate Vertical(l: Line) {
    l.start.x == l.end.x
  }

  /** a, g and d are horizontal strokes over the same columns, at the top,
      the centre line and the bottom; b, c sit on the right edge and e, f
      on the left; the left strokes mirror the right ones about `cx` and d
      mirrors a about `cy`. */
  lemma SegmentGeometry(cx: int, cy: int, width: nat, height: nat, lineWidth: nat)
    ensures var L := (s: Segment) => SegmentLine(s, cx, cy, width, height, lineWidth);
      && Horizontal(L(A)) && Horizontal(L(G)) && Horizontal(L(D))
      && L(A).start.x == L(G).start.x == L(D).start.x && L(A).end.x == L(G).end.x == L(D).end.x
      && L(A).start.y == cy - height / 2 && L(G).start.y == cy && L(D).start.y == cy + height / 2
      && Vertical(L(B)) && Vertical(L(C)) && Vertical(L(E)) && Vertical(L(F))
      && L(B).start.x == L(C).start.x == cx + width / 2
      && L(E).start.x == L(F).start.x == cx - width / 2
      && L(F) == Line(MirrorX(L(B).start, cx), MirrorX(L(B).end, cx))
      && L(E) == Line(MirrorX(L(C).start, cx), MirrorX(L(C).end, cx))
      && L(D) == Line(MirrorY(L(A).start, cy), MirrorY(L(A).end, cy))
      && MirrorX(L(A).start, cx) == L(A).end
  {
  }

  // ----------------------------------------------------------- cache key

  /** `IS_CHANGED`: the three inputs joined with `_`, with the defaults
      `"[]"` and `""` for keyword arguments that were not passed. */
  function CacheKey(image: string, pointsData: Option<string>, promptText: Option<string>): string {
    image + "_" + pointsData.GetOr("[]") + "_" + promptText.GetOr("")
  }

  /** A missing argument keys like its default. */
  lemma CacheKeyDefaults(image: string)
    ensures CacheKey(image, None, None) == CacheKey(image, Some("[]"), Some(""))
  {
  }

  /** Position of the first `c` in `s`, or `|s|`. */
  function IndexOf(s: string, c: char): (k: nat)
    ensures k <= |s|
    ensures k < |s| ==> s[k] == c
    ensures forall i :: 0 <= i < k ==> s[i] != c
  {
    if s == [] then 0 else if s[0] == c then 0 else 1 + IndexOf(s[1..], c)
  }

  lemma {:induction false} IndexOfSeparator(a: string, x: string)
    requires '_' !in a
    ensures IndexOf(a + "_" + x, '_') == |a|
    decreases |a|
  {
    if a != [] {
      assert (a + "_" + x)[1..] == a[1..] + "_" + x;
      IndexOfSeparator(a[1..], x);
    }
  }

  lemma SplitAtSeparator(a: string, x: string, b: string, y: string)
    requires '_' !in a && '_' !in b && a + "_" + x == b + "_" + y
    ensures a == b && x == y
  {
    var s := a + "_" + x;
    IndexOfSeparator(a, x);
    IndexOfSeparator(b, y);
    assert a == s[..|a|] == b;
    assert x == s[|a| + 1..] == y;
  }

  /** Without that restriction the key is ambiguous: moving a `_` from the
      image name into the prompt gives the same key. */
  lemma CacheKeyCollides()
    ensures CacheKey("x_[]", Some("[]"), Some("")) == CacheKey("x", Some("[]"), Some("[]_"))
  {
  }

  /** When neither the image name nor the points data contains `_` (the
      points JSON never does), the key tells the inputs apart: a change of
      any of them changes the key. */
  lemma CacheKeyInjective(i1: string, p1: string, t1: string, i2: string, p2: string, t2: string)
    requires '_' !in i1 && '_' !in i2 && '_' !in p1 && '_' !in p2
    requires CacheKey(i1, Some(p1), Some(t1)) == CacheKey(i2, Some(p2), Some(t2))
    ensures i1 == i2 && p1 == p2 && t1 == t2
  {
    assert CacheKey(i1, Some(p1), Some(t1)) == i1 + "_" + (p1 + "_" + t1);
    assert CacheKey(i2, Some(p2), Some(t2)) == i2 + "_" + (p2 + "_" + t2);
    SplitAtSeparator(i1, p1 + "_" + t1, i2, p2 + "_" + t2);
    SplitAtSeparator(p1, t1, p2, t2);
  }
}
