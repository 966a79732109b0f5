/** The résumé timeline of `resume/component/time-line.tsx`: month
    differences between dates, the fade-in of an item as the timeline body
    grows, the clamped scroll progress, and the colour band nearest to a
    scroll position. A `Date` is reduced to the year and month its getters
    return; the current time is a parameter. */
module Timeline {

  /** `ANIMATION_THRESHOLD`: the distance over which an item fades in. */
  const AnimationThreshold: real := 80.0

  /** A date argument: the string `'current'` (now), or a date with its
      `getFullYear()` and `getMonth()` (0 to 11). */
  datatype When = Current | At(year: int, month: int)

  /** The date a `When` stands for, given the current one. */
  function Resolve(w: When, now: When): (r: When)
    requires now.At?
    ensures r.At?
    ensures w.At? ==> r == w
  {
    if w.Current? then now else w
  }

  /** Months since the start of year 0. */
  function MonthIndex(d: When): int
    requires d.At?
  {
    d.year * 12 + d.month
  }

  /** `calculateMonthDifference(start, end)`: whole months from `start` to
      `end`, days ignored. */
  function MonthDifference(start: When, end: When, now: When): (n: int)
    requires now.At?
    ensures n == MonthIndex(Resolve(end, now)) - MonthIndex(Resolve(start, now))
  {
    var e := Resolve(end, now);
    var s := Resolve(start, now);
    (e.year - s.year) * 12 + (e.month - s.month)
  }

  /** The difference is a signed distance between months: zero from a date
      to itself, negated when the dates swap, and additive along a chain. */
  lemma MonthDifferenceDistance(a: When, b: When, c: When, now: When)
    requires now.At?
    ensures MonthDifference(a, a, now) == 0
    ensures MonthDifference(a, b, now) == -MonthDifference(b, a, now)
    ensures MonthDifference(a, b, now) + MonthDifference(b, c, now) == MonthDifference(a, c, now)
  {
  }

  /** `calculateVisibility(topPosition)` for the current body height: hidden
      above the top or more than the threshold below the body's end, fully
      shown inside the body, and fading linearly in between. */
  function Visibility(top: real, bodyHeight: real): (v: real)
    ensures 0.0 <= v <= 1.0
    ensures top < 0.0 ==> v == 0.0
    ensures top >= 0.0 && top - bodyHeight > AnimationThreshold ==> v == 0.0
    ensures top >= 0.0 && top - bodyHeight < 0.0 ==> v == 1.0
    ensures top >= 0.0 && 0.0 <= top - bodyHeight <= AnimationThreshold ==>
      v == 1.0 - (top - bodyHeight) / AnimationThreshold
  {
    var distance := top - bodyHeight;
    if top < 0.0 then 0.0
    else if distance > AnimationThreshold then 0.0
    else if distance < 0.0 then 1.0
    else 1.0 - distance / AnimationThreshold
  }

  /** As the body grows, an item only ever becomes more visible. */
  lemma VisibilityGrows(top: real, h1: real, h2: real)
    requires h1 <= h2
    ensures Visibility(top, h1) <= Visibility(top, h2)
  {
  }

  /** The progress `handleScroll` stores: how far the window has scrolled
      past a tenth of the container's offset, as a share of the scrollable
      height, clamped to `[0, 1]`. */
  function ScrollProgress(scrollY: real, offsetTop: real, maxHeight: real, minHeight: real): (p: real)
    requires maxHeight != minHeight
    ensures 0.0 <= p <= 1.0
    ensures var q := (scrollY - offsetTop * 0.1) / (maxHeight - minHeight);
      (0.0 <= q <= 1.0 ==> p == q) && (q < 0.0 ==> p == 0.0) && (q > 1.0 ==> p == 1.0)
  {
    var scrollDistance := maxHeight - minHeight;
    var initialOffsetTop := offsetTop * 0.1;
    var scrolled := scrollY - initialOffsetTop;
    var progress := scrolled / scrollDistance;
    var atLeastZero := if 0.0 > progress then 0.0 else progress;
    if 1.0 < atLeastZero then 1.0 else atLeastZero
  }

  /** Scrolling further down never moves the progress back. */
  lemma ScrollProgressMonotone(y1: real, y2: real, offsetTop: real, maxHeight: real, minHeight: real)
    requires y1 <= y2 && maxHeight > minHeight
    ensures ScrollProgress(y1, offsetTop, maxHeight, minHeight) <= ScrollProgress(y2, offsetTop, maxHeight, minHeight)
  {
    var d := maxHeight - minHeight;
    var q1 := (y1 - offsetTop * 0.1) / d;
    var q2 := (y2 - offsetTop * 0.1) / d;
    assert q1 * d == y1 - offsetTop * 0.1;
    assert q2 * d == y2 - offsetTop * 0.1;
    assert (q2 - q1) * d == y2 - y1;
  }

  // ----- getColorForScroll -----

  /** One colour band: its height and its CSS colour. */
  datatype YearColor = YearColor(height: int, color: string)

  /** `{height, color, top}`. */
  datatype ScrollColor = ScrollColor(height: int, color: string, top: int)

  /** The colour returned when there are no bands. */
  const DefaultColor: ScrollColor := ScrollColor(0, "rgb(255, 99, 132)", 0)

  /** `Object.keys(colorCodes)`, parsed: each key of the map once, in the
      order the object enumerates them. */
  ghost predicate KeysOf(codes: map<int, YearColor>, keys: seq<int>)
  {
    (forall i, j | 0 <= i < j < |keys| :: keys[i] != keys[j])
    && (forall k :: k in codes <==> k in keys)
  }

  function Dist(p: real, k: int): real
  {
    if p - k as real < 0.0 then k as real - p else p - k as real
  }

  /** The position of the key nearest to `p`; among equally near keys, the
      first. */
  function NearestIndex(p: real, keys: seq<int>): (i: nat)
    requires |keys| > 0
    ensures i < |keys|
    ensures forall j | 0 <= j < |keys| :: Dist(p, keys[i]) <= Dist(p, keys[j])
    ensures forall j | 0 <= j < i :: Dist(p, keys[i]) < Dist(p, keys[j])
  {
    if |keys| == 1 then 0
    else
      var i := NearestIndex(p, keys[..|keys| - 1]);
      assert forall j | 0 <= j < |keys| - 1 :: keys[..|keys| - 1][j] == keys[j];
      if Dist(p, keys[|keys| - 1]) < Dist(p, keys[i]) then |keys| - 1 else i
  }

  /** The nearest key is unique: any position that is no farther than every
      key and strictly nearer than every earlier one is `NearestIndex`. */
  lemma NearestIndexUnique(p: real, keys: seq<int>, i: nat)
    requires i < |keys|
    requires forall j | 0 <= j < |keys| :: Dist(p, keys[i]) <= Dist(p, keys[j])
    requires forall j | 0 <= j < i :: Dist(p, keys[i]) < Dist(p, keys[j])
    ensures NearestIndex(p, keys) == i
  {
    var n := NearestIndex(p, keys);
    assert Dist(p, keys[n]) <= Dist(p, keys[i]);
  }

  /** `getColorForScroll(scrollProgress, colorCodes)`, with `keys` the
      enumeration order of the object: the default band when there is none,
      otherwise the band whose key is nearest to the position, ties going to
      the key enumerated first. */
  method GetColorForScroll(scrollProgress: real, codes: map<int, YearColor>, keys: seq<int>)
    returns (r: ScrollColor)
    requires KeysOf(codes, keys)
    ensures |keys| == 0 ==> r == DefaultColor
    ensures |keys| > 0 ==>
      r.top == keys[NearestIndex(scrollProgress, keys)] && r.top in codes
      && r.height == codes[r.top].height && r.color == codes[r.top].color
  {
    if |keys| == 0 {
      return DefaultColor;
    }
    var closestKey := keys[0];
    var minDifference := Dist(scrollProgress, closestKey);
    ghost var closest := 0;
    for n := 0 to |keys|
      invariant closest < |keys| && closest <= n
      invariant closestKey == keys[closest] && minDifference == Dist(scrollProgress, closestKey)
      invariant forall j | 0 <= j < n :: minDifference <= Dist(scrollProgress, keys[j])
      invariant forall j | 0 <= j < closest :: minDifference < Dist(scrollProgress, keys[j])
    {
      var temp := keys[n];
      var difference := Dist(scrollProgress, temp);
      if difference < minDifference {
        minDifference := difference;
        closestKey := temp;
        closest := n;
      }
    }
    NearestIndexUnique(scrollProgress, keys, closest);
    assert closestKey in keys;
    return ScrollColor(codes[closestKey].height, codes[closestKey].color, closestKey);
  }
}
