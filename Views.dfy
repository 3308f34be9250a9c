/** The view contract shared by every widget: a sizing policy per axis, and
    the geometry that `measure` and `layout` compute (position, measured size,
    dirty flag). The screen handle and the event handler a view also carries
    are not part of this model. */
module Views {
  import opened Util

  /** Sizing policy along one axis. */
  datatype Dimension = MatchParent | WrapContent | Absolute(n: u16)

  /** A policy the default `measure` can apply (it panics on `WrapContent`). */
  predicate HasDefaultPolicy(d: Dimension) { !d.WrapContent? }

  /** `min(n, spec)` when the parent gives a constraint, `n` when it does not:
      the largest size within both the fixed size and the constraint. */
  function Bound(n: u16, spec: Option<u16>): (r: u16)
    ensures r <= n && (spec.Some? ==> r <= spec.value)
    ensures r == n || (spec.Some? && r == spec.value)
  {
    match spec
    case Some(s) => Min(n, s)
    case None => n
  }

  /** The default `measure` along one axis: `MatchParent` takes the parent's
      constraint as it is (possibly none), `Absolute(n)` takes `n` clamped by
      the constraint. A measured size never exceeds the constraint. */
  function MeasureDim(d: Dimension, spec: Option<u16>): (r: Option<u16>)
    requires HasDefaultPolicy(d)
    ensures d.MatchParent? ==> r == spec
    ensures d.Absolute? ==> r == Some(Bound(d.n, spec))
    ensures r.Some? && spec.Some? ==> r.value <= spec.value
  {
    match d
    case MatchParent => spec
    case Absolute(n) => Some(Bound(n, spec))
  }

  /** The bound a container places on its own content: like `MeasureDim`, but
      `WrapContent` is treated as `MatchParent`. */
  function MaxSize(d: Dimension, spec: Option<u16>): (r: Option<u16>)
    ensures r.Some? && spec.Some? ==> r.value <= spec.value
    ensures d.Absolute? ==> r.Some? && r.value <= d.n
  {
    match d
    case Absolute(n) => Some(Bound(n, spec))
    case _ => spec
  }

  /** The geometry every view stores: its policy, its position, its measured
      size (absent until `measure` has run) and whether it needs redrawing. */
  datatype View = View(width: Dimension, height: Dimension, x: u16, y: u16,
                       w: Option<u16>, h: Option<u16>, dirty: bool)
  {
    predicate Measurable() { HasDefaultPolicy(width) && HasDefaultPolicy(height) }

    /** The default `measure`: applies the policy of each axis to the constraint
        of that axis and changes nothing else. */
    function Measure(widthSpec: Option<u16>, heightSpec: Option<u16>): (v: View)
      requires Measurable()
      ensures v.w == MeasureDim(width, widthSpec) && v.h == MeasureDim(height, heightSpec)
      ensures v.(w := w, h := h) == this
    {
      this.(w := MeasureDim(width, widthSpec), h := MeasureDim(height, heightSpec))
    }

    /** The default `layout`: takes the position and is no longer dirty. */
    function Layout(top: u16, left: u16): (v: View)
      ensures v.x == left && v.y == top && !v.dirty
      ensures v.(x := x, y := y, dirty := dirty) == this
    {
      this.(x := left, y := top, dirty := false)
    }
  }
}
