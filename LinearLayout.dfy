/** LinearLayout: children placed one after another along a primary axis
    (left to right for `Horizontal`, top to bottom for `Vertical`). Children
    are leaves that use the default `measure` and `layout`. The source writes
    the two orientations as mirror-image branches over width and height; here
    they are one algorithm over the primary axis (`o`) and the cross axis
    (`o.Cross()`). */
module Linear {
  import opened Util
  import opened Views

  datatype Orientation = Vertical | Horizontal {
    function Cross(): (r: Orientation) { if Horizontal? then Vertical else Horizontal }
  }

  /** The policy of `v` along the axis `o` runs on. */
  function Dim(v: View, o: Orientation): (r: Dimension) { if o.Horizontal? then v.width else v.height }

  /** The measured size of `v` along the axis `o` runs on. */
  function Size(v: View, o: Orientation): (r: Option<u16>) { if o.Horizontal? then v.w else v.h }

  /** The constraint along the axis `o` runs on. */
  function SpecAlong(o: Orientation, widthSpec: Option<u16>, heightSpec: Option<u16>): (r: Option<u16>) {
    if o.Horizontal? then widthSpec else heightSpec
  }

  /** `v` with measured size `main` along `o` and `cross` across it. */
  function WithSizes(v: View, o: Orientation, main: Option<u16>, cross: Option<u16>): (r: View)
    ensures Size(r, o) == main && Size(r, o.Cross()) == cross
    ensures r.(w := v.w, h := v.h) == v
  {
    if o.Horizontal? then v.(w := main, h := cross) else v.(w := cross, h := main)
  }

  /** What a leaf reports along an axis when measured without a constraint:
      its fixed size, or nothing (counted as 0). */
  function Natural(d: Dimension): (r: nat) { if d.Absolute? then d.n else 0 }

  /** The natural-size pass along the primary axis: the sum of the children's
      natural sizes. */
  function NaturalSum(cs: seq<View>, o: Orientation): (r: nat) {
    if cs == [] then 0 else NaturalSum(cs[..|cs| - 1], o) + Natural(Dim(cs[|cs| - 1], o))
  }

  /** The natural-size pass across: the largest natural size. */
  function NaturalMax(cs: seq<View>, o: Orientation): (r: nat) {
    if cs == [] then 0 else Max(NaturalMax(cs[..|cs| - 1], o), Natural(Dim(cs[|cs| - 1], o)))
  }

  /** The elastic children: those that reported no size along `o` in the
      natural-size pass. */
  function ElasticCount(cs: seq<View>, o: Orientation): (r: nat) {
    if cs == [] then 0
    else ElasticCount(cs[..|cs| - 1], o) + (if Dim(cs[|cs| - 1], o).Absolute? then 0 else 1)
  }

  /** The part of the remaining space every elastic child gets: the remaining
      space divided evenly, the remainder dropped. Without a bound nothing
      remains. */
  function Share(cs: seq<View>, o: Orientation, bound: Option<u16>): (r: nat)
    ensures bound.None? || ElasticCount(cs, o) == 0 ==> r == 0
    ensures bound.Some? ==> r <= bound.value
  {
    var remaining := if bound.Some? then bound.value - NaturalSum(cs, o) else 0;
    if ElasticCount(cs, o) == 0 || remaining < 0 then 0
    else
      EvenSplit(remaining, ElasticCount(cs, o));
      remaining / ElasticCount(cs, o)
  }

  /** The size a child gets along `o` in the distribution pass. */
  function FinalSize(c: View, o: Orientation, share: nat): (r: nat) {
    if Dim(c, o).Absolute? then Dim(c, o).n else share
  }

  /** The space the children take along `o` once each elastic child gets `share`. */
  function Demand(cs: seq<View>, o: Orientation, share: nat): (r: nat) {
    if cs == [] then 0 else Demand(cs[..|cs| - 1], o, share) + FinalSize(cs[|cs| - 1], o, share)
  }

  /** Sum of the measured sizes along `o` (an absent size counts 0). */
  function SumSizes(cs: seq<View>, o: Orientation): (r: nat) {
    if cs == [] then 0 else SumSizes(cs[..|cs| - 1], o) + Size(cs[|cs| - 1], o).GetOr(0)
  }

  /** Largest measured size along `o` (an absent size counts 0). */
  function MaxSizes(cs: seq<View>, o: Orientation): (r: nat) {
    if cs == [] then 0 else Max(MaxSizes(cs[..|cs| - 1], o), Size(cs[|cs| - 1], o).GetOr(0))
  }

  /** The largest measured size is one of the children's, and bounds them all. */
  lemma {:induction false} MaxSizesIsMaximum(cs: seq<View>, o: Orientation)
    ensures forall i :: 0 <= i < |cs| ==> Size(cs[i], o).GetOr(0) <= MaxSizes(cs, o)
    ensures MaxSizes(cs, o) == 0 || exists i :: 0 <= i < |cs| && Size(cs[i], o).GetOr(0) == MaxSizes(cs, o)
  {
    if cs != [] {
      var init := cs[..|cs| - 1];
      MaxSizesIsMaximum(init, o);
      assert forall i :: 0 <= i < |init| ==> cs[i] == init[i];
    }
  }

  /** The space taken is the natural sizes plus one share per elastic child. */
  lemma {:induction false} DemandSplit(cs: seq<View>, o: Orientation, share: nat)
    ensures Demand(cs, o, share) == NaturalSum(cs, o) + share * ElasticCount(cs, o)
  {
    if cs != [] {
      var init := cs[..|cs| - 1];
      DemandSplit(init, o, share);
      if !Dim(cs[|cs| - 1], o).Absolute? {
        MulSucc(share, ElasticCount(init, o));
      }
    }
  }

  lemma MulSucc(a: nat, k: nat)
    ensures a * (k + 1) == a * k + a
  {
  }

  /** A prefix of the children never takes more space than all of them. */
  lemma {:induction false} DemandPrefix(cs: seq<View>, o: Orientation, share: nat, i: nat)
    requires i <= |cs|
    ensures Demand(cs[..i], o, share) <= Demand(cs, o, share)
    decreases |cs|
  {
    if i < |cs| {
      assert cs[..i] == cs[..|cs| - 1][..i];
      DemandPrefix(cs[..|cs| - 1], o, share, i);
    } else {
      assert cs[..i] == cs;
    }
  }

  lemma {:induction false} NaturalSumPrefix(cs: seq<View>, o: Orientation, i: nat)
    requires i <= |cs|
    ensures NaturalSum(cs[..i], o) <= NaturalSum(cs, o)
    decreases |cs|
  {
    if i < |cs| {
      assert cs[..i] == cs[..|cs| - 1][..i];
      NaturalSumPrefix(cs[..|cs| - 1], o, i);
    } else {
      assert cs[..i] == cs;
    }
  }

  /** The distribution pass fits the bound: when the natural sizes fit in
      `bound`, giving every elastic child the same share keeps the total
      within `bound`, and the space left over (the dropped remainder) is less
      than one column per elastic child. */
  lemma SharedSpaceFits(cs: seq<View>, o: Orientation, bound: u16)
    requires NaturalSum(cs, o) <= bound
    ensures Demand(cs, o, Share(cs, o, Some(bound))) <= bound
    ensures ElasticCount(cs, o) > 0 ==> bound - Demand(cs, o, Share(cs, o, Some(bound))) < ElasticCount(cs, o)
  {
    var share := Share(cs, o, Some(bound));
    var k := ElasticCount(cs, o);
    DemandSplit(cs, o, share);
    if k > 0 {
      EvenSplit(bound - NaturalSum(cs, o), k);
    }
  }

  /** Dividing `r` columns evenly among `k` leaves fewer than `k` unused. */
  lemma EvenSplit(r: nat, k: nat)
    requires k > 0
    ensures (r / k) * k <= r < (r / k) * k + k
    ensures r / k <= r
  {
    var q := r / k;
    assert r == q * k + r % k;
    MulGrows(q, k);
  }

  /** `remaining` split evenly among `count` children, the remainder
      dropped; nothing to split among none. */
  function EvenShare(remaining: u16, count: nat): (r: u16)
    ensures count == 0 ==> r == 0
    ensures r * count <= remaining
    ensures count > 0 ==> remaining < r * count + count
  {
    if count == 0 then 0
    else
      EvenSplit(remaining, count);
      remaining / count
  }

  /** A positive factor never makes a product smaller. */
  lemma MulGrows(q: nat, k: nat)
    requires k > 0
    ensures q <= q * k
  {
    assert q * k == q + q * (k - 1);
  }

  /** Without a bound the share is 0 and the children take their natural sizes. */
  lemma UnboundedDemand(cs: seq<View>, o: Orientation)
    ensures Demand(cs, o, Share(cs, o, None)) == NaturalSum(cs, o)
  {
    DemandSplit(cs, o, Share(cs, o, None));
  }

  /** `Some(bound)` admits `n`, or there is no bound. */
  predicate Fits(bound: Option<u16>, n: nat) { bound.Some? ==> n <= bound.value }

  class LinearLayout {
    var view: View
    const orientation: Orientation
    var children: seq<View>

    ghost predicate Valid()
      reads this
    {
      forall i :: 0 <= i < |children| ==> children[i].Measurable()
    }

    /** `LinearLayout::new`: at (0, 0), not measured, no children. */
    constructor (orientation: Orientation, width: Dimension, height: Dimension)
      ensures Valid()
      ensures this.orientation == orientation
      ensures view == View(width, height, 0, 0, None, None, true) && children == []
    {
      this.orientation := orientation;
      view := View(width, height, 0, 0, None, None, true);
      children := [];
    }

    /** `push`: appends a child. */
    method Push(widget: View)
      requires Valid() && widget.Measurable()
      modifies this
      ensures Valid()
      ensures children == old(children) + [widget] && view == old(view)
    {
      children := children + [widget];
    }

    /** The container's own bound along `o`: its policy applied to the
        constraint, `WrapContent` taking the constraint as it is. */
    function Bound(o: Orientation, widthSpec: Option<u16>, heightSpec: Option<u16>): (r: Option<u16>)
      reads this
      ensures !Dim(view, o).Absolute? ==> r == SpecAlong(o, widthSpec, heightSpec)
      ensures Dim(view, o).Absolute? ==> r.Some? && r.value <= Dim(view, o).n
      ensures r.Some? && SpecAlong(o, widthSpec, heightSpec).Some? ==> r.value <= SpecAlong(o, widthSpec, heightSpec).value
    {
      MaxSize(Dim(view, o), SpecAlong(o, widthSpec, heightSpec))
    }

    /** `measure`: a natural-size pass, then a distribution pass, as
        `MeasureChildren` states. The source subtracts the natural size from
        the bound without a guard, on both axes, in `u16`: the natural sizes
        must fit the bounds, and the natural sum along the primary axis must
        fit in `u16`. The container measures the sum of its children along
        the primary axis, which never exceeds its bound, and their maximum
        across. */
    method Measure(widthSpec: Option<u16>, heightSpec: Option<u16>)
      requires Valid()
      requires NaturalSum(children, orientation) < U16_LIMIT
      requires ElasticCount(children, orientation) < U16_LIMIT
      requires Fits(Bound(orientation, widthSpec, heightSpec), NaturalSum(children, orientation))
      requires Fits(Bound(orientation.Cross(), widthSpec, heightSpec), NaturalMax(children, orientation.Cross()))
      modifies this
      ensures Valid()
      ensures MeasuredAs(old(children), children, orientation,
                         old(Bound(orientation, widthSpec, heightSpec)),
                         old(Bound(orientation.Cross(), widthSpec, heightSpec)))
      ensures view == old(view).(w := view.w, h := view.h)
      ensures Size(view, orientation).Some? && Size(view, orientation).value == SumSizes(children, orientation)
      ensures Size(view, orientation.Cross()).Some?
      ensures Size(view, orientation.Cross()).value == MaxSizes(children, orientation.Cross())
    {
      var boundMain := Bound(orientation, widthSpec, heightSpec);
      var boundCross := Bound(orientation.Cross(), widthSpec, heightSpec);
      var sumMain, maxCross;
      children, sumMain, maxCross := MeasureChildren(children, orientation, boundMain, boundCross);
      view := WithSizes(view, orientation, Some(sumMain), Some(maxCross));
    }

    /** `layout`: takes its position, then places the children one after
        another along the primary axis, each advancing the next one by its
        measured size. Every child must have been measured along the primary
        axis (the source unwraps the size), and the position after the last
        child must fit in `u16`. */
    method Layout(top: u16, left: u16)
      requires forall i :: 0 <= i < |children| ==> Size(children[i], orientation).Some?
      requires (if orientation.Horizontal? then left else top) + SumSizes(children, orientation) < U16_LIMIT
      modifies this
      ensures view == old(view).Layout(top, left)
      ensures |children| == |old(children)|
      ensures forall i :: 0 <= i < |children| ==>
        Placed(old(children)[i], children[i], orientation, top, left, SumSizes(old(children)[..i], orientation))
      ensures Valid() <==> old(Valid())
    {
      view := view.Layout(top, left);
      children := PlaceChildren(children, orientation, top, left);
    }

    /** `is_dirty`: the OR of the children's dirty flags. */
    method IsDirty() returns (dirty: bool)
      ensures dirty <==> exists i :: 0 <= i < |children| && children[i].dirty
    {
      dirty := false;
      for i := 0 to |children|
        invariant dirty <==> exists j :: 0 <= j < i && children[j].dirty
      {
        dirty := dirty || children[i].dirty;
      }
    }
  }

  /** `fs` is `cs` measured by a linear layout along `o` under the bounds
      `boundMain` and `boundCross`: every child keeps its policy and
      position; along `o` a fixed child has its fixed size and an elastic one
      the even share of the space the fixed ones leave; across `o` every child
      has its fixed size or the cross bound; and the sizes along `o` fit the
      bound. */
  ghost predicate MeasuredAs(cs: seq<View>, fs: seq<View>, o: Orientation,
                             boundMain: Option<u16>, boundCross: Option<u16>)
  {
    && |fs| == |cs|
    && (forall i :: 0 <= i < |fs| ==> fs[i] == cs[i].(w := fs[i].w, h := fs[i].h))
    && (forall i :: 0 <= i < |fs| && Dim(fs[i], o).Absolute? ==> Size(fs[i], o) == Some(Dim(fs[i], o).n))
    && (forall i :: 0 <= i < |fs| && !Dim(fs[i], o).Absolute? ==> Size(fs[i], o) == Some(Share(cs, o, boundMain)))
    && (forall i :: 0 <= i < |fs| ==>
          Size(fs[i], o.Cross()) == if Dim(fs[i], o.Cross()).Absolute? then Some(Dim(fs[i], o.Cross()).n) else boundCross)
    && Fits(boundMain, SumSizes(fs, o))
  }

  /** The two passes of `measure` on the children: the natural-size pass, the
      count of elastic children and their share, then the distribution pass;
      returns the measured children with the sum of their sizes along `o`
      and the largest across. */
  method MeasureChildren(cs: seq<View>, o: Orientation, boundMain: Option<u16>, boundCross: Option<u16>)
    returns (fs: seq<View>, sumMain: u16, maxCross: u16)
    requires forall j :: 0 <= j < |cs| ==> cs[j].Measurable()
    requires NaturalSum(cs, o) < U16_LIMIT
    requires ElasticCount(cs, o) < U16_LIMIT
    requires Fits(boundMain, NaturalSum(cs, o)) && Fits(boundCross, NaturalMax(cs, o.Cross()))
    ensures MeasuredAs(cs, fs, o, boundMain, boundCross)
    ensures forall j :: 0 <= j < |fs| ==> fs[j].Measurable()
    ensures sumMain == SumSizes(fs, o) && maxCross == MaxSizes(fs, o.Cross())
  {
    var measured, minMain, minCross := NaturalPass(cs, o);

    // The unguarded `u16` subtractions of the source, on both axes.
    var remainingMain: u16 := if boundMain.Some? then boundMain.value - minMain else 0;
    var remainingCross: u16 := if boundCross.Some? then boundCross.value - minCross else 0;

    var elastic := CountUnsized(cs, measured, o);
    var share := EvenShare(remainingMain, elastic);
    assert share == Share(cs, o, boundMain);
    if boundMain.Some? {
      SharedSpaceFits(cs, o, boundMain.value);
    } else {
      UnboundedDemand(cs, o);
    }
    fs, sumMain, maxCross := DistributionPass(cs, measured, o, share, boundMain, boundCross);
    DistributedMeasured(cs, fs, o, share, boundMain, boundCross);
  }

  /** The children the distribution pass returns are measured as `measure`
      promises. */
  lemma DistributedMeasured(cs: seq<View>, fs: seq<View>, o: Orientation, share: u16,
                            boundMain: Option<u16>, boundCross: Option<u16>)
    requires |fs| == |cs| && forall j :: 0 <= j < |cs| ==> fs[j] == Distributed(cs[j], o, share, boundCross)
    requires forall j :: 0 <= j < |cs| ==> cs[j].Measurable()
    requires share == Share(cs, o, boundMain) && Fits(boundMain, SumSizes(fs, o))
    ensures MeasuredAs(cs, fs, o, boundMain, boundCross)
    ensures forall j :: 0 <= j < |fs| ==> fs[j].Measurable()
  {
  }

  lemma {:induction false} SumSizesPrefix(cs: seq<View>, o: Orientation, i: nat)
    requires i <= |cs|
    ensures SumSizes(cs[..i], o) <= SumSizes(cs, o)
    decreases |cs|
  {
    if i < |cs| {
      assert cs[..i] == cs[..|cs| - 1][..i];
      SumSizesPrefix(cs[..|cs| - 1], o, i);
    } else {
      assert cs[..i] == cs;
    }
  }

  /** The natural-size pass: every child measured without a constraint; the
      sum of the sizes they report along `o` and the largest across. */
  method NaturalPass(cs: seq<View>, o: Orientation) returns (ms: seq<View>, minMain: u16, minCross: u16)
    requires forall j :: 0 <= j < |cs| ==> cs[j].Measurable()
    requires NaturalSum(cs, o) < U16_LIMIT
    ensures |ms| == |cs| && forall j :: 0 <= j < |cs| ==> ms[j] == cs[j].Measure(None, None)
    ensures minMain == NaturalSum(cs, o) && minCross == NaturalMax(cs, o.Cross())
  {
    ms := cs;
    minMain, minCross := 0, 0;
    var i := 0;
    while i < |ms|
      invariant 0 <= i <= |ms| == |cs|
      invariant forall j :: 0 <= j < i ==> ms[j] == cs[j].Measure(None, None)
      invariant forall j :: i <= j < |ms| ==> ms[j] == cs[j]
      invariant minMain == NaturalSum(cs[..i], o)
      invariant minCross == NaturalMax(cs[..i], o.Cross())
    {
      NaturalStep(cs, o, i);
      ms := ms[i := ms[i].Measure(None, None)];
      minMain := minMain + Size(ms[i], o).GetOr(0);
      minCross := Max(minCross, Size(ms[i], o.Cross()).GetOr(0));
      i := i + 1;
    }
    assert cs[..i] == cs;
  }

  /** One more child in the natural-size pass: measured without a constraint
      it reports its natural size on both axes, which the running sum and
      maximum take in, and the sum stays within the total. */
  lemma NaturalStep(cs: seq<View>, o: Orientation, i: nat)
    requires i < |cs| && cs[i].Measurable()
    ensures Size(cs[i].Measure(None, None), o).GetOr(0) == Natural(Dim(cs[i], o))
    ensures Size(cs[i].Measure(None, None), o.Cross()).GetOr(0) == Natural(Dim(cs[i], o.Cross()))
    ensures NaturalSum(cs[..i + 1], o) == NaturalSum(cs[..i], o) + Natural(Dim(cs[i], o)) <= NaturalSum(cs, o)
    ensures NaturalMax(cs[..i + 1], o.Cross()) == Max(NaturalMax(cs[..i], o.Cross()), Natural(Dim(cs[i], o.Cross())))
  {
    assert cs[..i + 1][..i] == cs[..i];
    NaturalSumPrefix(cs, o, i + 1);
  }

  /** The number of children that reported no size along `o` in the
      natural-size pass: the elastic ones. */
  method CountUnsized(ghost cs: seq<View>, ms: seq<View>, o: Orientation) returns (count: nat)
    requires |ms| == |cs|
    requires forall j :: 0 <= j < |cs| ==> cs[j].Measurable() && ms[j] == cs[j].Measure(None, None)
    ensures count == ElasticCount(cs, o)
  {
    count := 0;
    var i := 0;
    while i < |ms|
      invariant 0 <= i <= |ms|
      invariant count == ElasticCount(cs[..i], o)
    {
      assert cs[..i + 1][..i] == cs[..i];
      if Size(ms[i], o).None? {
        count := count + 1;
      }
      i := i + 1;
    }
    assert cs[..i] == cs;
  }

  /** A child after the distribution pass: its natural size or `share` along
      `o`, its natural size or `boundCross` across. */
  function Distributed(c: View, o: Orientation, share: u16, boundCross: Option<u16>): (r: View) {
    WithSizes(c, o, Some(FinalSize(c, o, share)),
              if Dim(c, o.Cross()).Absolute? then Some(Dim(c, o.Cross()).n) else boundCross)
  }

  /** One step of the distribution pass on a child measured in the natural-size
      pass, with the constraint along `o` already clamped. */
  method MeasureAgain(ghost c: View, child: View, o: Orientation, share: u16, boundCross: Option<u16>,
                      mainSpec: u16)
    returns (r: View)
    requires c.Measurable() && child == c.Measure(None, None)
    requires mainSpec == FinalSize(c, o, share)
    ensures r == Distributed(c, o, share, boundCross)
  {
    var crossSpec := if Size(child, o.Cross()).Some? then Size(child, o.Cross()) else boundCross;
    r := if o.Horizontal? then child.Measure(Some(mainSpec), crossSpec)
         else child.Measure(crossSpec, Some(mainSpec));
  }

  /** The distribution pass: every child measured again, along `o` with its
      natural size or `share`, clamped so the running total stays within
      `boundMain`, and across with its natural size or `boundCross`. When the
      children's demand fits the bound the clamp never cuts a child short. */
  method DistributionPass(ghost cs: seq<View>, ms: seq<View>, o: Orientation, share: u16,
                          boundMain: Option<u16>, boundCross: Option<u16>)
    returns (fs: seq<View>, sumMain: u16, maxCross: u16)
    requires |ms| == |cs|
    requires forall j :: 0 <= j < |cs| ==> cs[j].Measurable() && ms[j] == cs[j].Measure(None, None)
    requires Demand(cs, o, share) < U16_LIMIT && Fits(boundMain, Demand(cs, o, share))
    ensures |fs| == |cs|
    ensures forall j :: 0 <= j < |cs| ==> fs[j] == Distributed(cs[j], o, share, boundCross)
    ensures sumMain == SumSizes(fs, o) == Demand(cs, o, share)
    ensures maxCross == MaxSizes(fs, o.Cross())
  {
    fs := [];
    sumMain, maxCross := 0, 0;
    assert cs[..0] == [];
    while |fs| < |ms|
      invariant DistributedPrefix(cs, o, share, boundCross, fs, sumMain, maxCross)
      decreases |ms| - |fs|
    {
      fs, sumMain, maxCross := DistributeNext(cs, ms, o, share, boundMain, boundCross, fs, sumMain, maxCross);
    }
    assert cs[..|fs|] == cs;
  }

  /** The first `|fs|` children have been through the distribution pass:
      `sumMain` and `maxCross` are the running sum and maximum of their sizes. */
  ghost predicate DistributedPrefix(cs: seq<View>, o: Orientation, share: u16, boundCross: Option<u16>,
                                    fs: seq<View>, sumMain: nat, maxCross: nat)
  {
    && |fs| <= |cs|
    && (forall j :: 0 <= j < |fs| ==> fs[j] == Distributed(cs[j], o, share, boundCross))
    && sumMain == Demand(cs[..|fs|], o, share) == SumSizes(fs, o)
    && maxCross == MaxSizes(fs, o.Cross())
  }

  /** One iteration of the distribution pass: the next child is measured again
      with its size along `o` clamped to what is left of the bound. */
  method DistributeNext(ghost cs: seq<View>, ms: seq<View>, o: Orientation, share: u16,
                        boundMain: Option<u16>, boundCross: Option<u16>,
                        fs: seq<View>, sumMain: u16, maxCross: u16)
    returns (fs': seq<View>, sumMain': u16, maxCross': u16)
    requires |ms| == |cs| && |fs| < |cs|
    requires forall j :: 0 <= j < |cs| ==> cs[j].Measurable() && ms[j] == cs[j].Measure(None, None)
    requires Demand(cs, o, share) < U16_LIMIT && Fits(boundMain, Demand(cs, o, share))
    requires DistributedPrefix(cs, o, share, boundCross, fs, sumMain, maxCross)
    ensures |fs'| == |fs| + 1
    ensures DistributedPrefix(cs, o, share, boundCross, fs', sumMain', maxCross')
  {
    var i := |fs|;
    StepFits(cs, o, share, boundMain, i);
    var mainSpec: u16 := if Size(ms[i], o).Some? then Size(ms[i], o).value else share;
    if boundMain.Some? {
      mainSpec := Min(mainSpec, boundMain.value - sumMain);
    }
    var measured := MeasureAgain(cs[i], ms[i], o, share, boundCross, mainSpec);
    PrefixExtend(cs, o, share, boundCross, fs, sumMain, maxCross, measured);
    fs' := fs + [measured];
    sumMain' := sumMain + Size(measured, o).GetOr(0);
    maxCross' := Max(maxCross, Size(measured, o.Cross()).GetOr(0));
  }

  /** The next child through the distribution pass extends the prefix, its
      size along `o` added to the sum and its size across to the maximum. */
  lemma PrefixExtend(cs: seq<View>, o: Orientation, share: u16, boundCross: Option<u16>,
                     fs: seq<View>, sumMain: nat, maxCross: nat, m: View)
    requires |fs| < |cs| && DistributedPrefix(cs, o, share, boundCross, fs, sumMain, maxCross)
    requires m == Distributed(cs[|fs|], o, share, boundCross)
    ensures Size(m, o).GetOr(0) == FinalSize(cs[|fs|], o, share)
    ensures DistributedPrefix(cs, o, share, boundCross, fs + [m], sumMain + Size(m, o).GetOr(0),
                              Max(maxCross, Size(m, o.Cross()).GetOr(0)))
  {
    DemandStep(cs, o, share, |fs|);
    SizesAppend(fs, m, o);
    var fs' := fs + [m];
    assert forall j :: 0 <= j < |fs| ==> fs'[j] == fs[j];
  }

  /** One more child adds its final size to the demand of a prefix, which
      stays within the demand of all the children. */
  lemma DemandStep(cs: seq<View>, o: Orientation, share: nat, i: nat)
    requires i < |cs|
    ensures Demand(cs[..i + 1], o, share) == Demand(cs[..i], o, share) + FinalSize(cs[i], o, share)
    ensures Demand(cs[..i + 1], o, share) <= Demand(cs, o, share)
  {
    assert cs[..i + 1][..i] == cs[..i];
    DemandPrefix(cs, o, share, i + 1);
  }

  /** What one step of the distribution pass relies on: the child's natural
      size is its final size when it has one, and the final size fits in what
      is left of the bound and in `u16`. */
  lemma StepFits(cs: seq<View>, o: Orientation, share: nat, boundMain: Option<u16>, i: nat)
    requires i < |cs| && cs[i].Measurable()
    requires Demand(cs, o, share) < U16_LIMIT && Fits(boundMain, Demand(cs, o, share))
    ensures Size(cs[i].Measure(None, None), o) == if Dim(cs[i], o).Absolute? then Some(Dim(cs[i], o).n) else None
    ensures Demand(cs[..i + 1], o, share) == Demand(cs[..i], o, share) + FinalSize(cs[i], o, share)
    ensures Demand(cs[..i + 1], o, share) < U16_LIMIT
    ensures Fits(boundMain, Demand(cs[..i + 1], o, share))
  {
    DemandStep(cs, o, share, i);
    NaturalSize(cs[i], o);
  }

  /** Measured without a constraint, a leaf reports its fixed size, or none. */
  lemma NaturalSize(c: View, o: Orientation)
    requires c.Measurable()
    ensures Size(c.Measure(None, None), o) == if Dim(c, o).Absolute? then Some(Dim(c, o).n) else None
  {
  }

  /** Appending a child adds its size to the sum and takes it into the maximum. */
  lemma SizesAppend(fs: seq<View>, c: View, o: Orientation)
    ensures SumSizes(fs + [c], o) == SumSizes(fs, o) + Size(c, o).GetOr(0)
    ensures MaxSizes(fs + [c], o.Cross()) == Max(MaxSizes(fs, o.Cross()), Size(c, o.Cross()).GetOr(0))
  {
    assert (fs + [c])[..|fs|] == fs;
  }

  /** One more child placed: the running position advances by its size and
      stays within the total. */
  lemma SumSizesStep(cs: seq<View>, o: Orientation, i: nat)
    requires i < |cs|
    ensures SumSizes(cs[..i + 1], o) == SumSizes(cs[..i], o) + Size(cs[i], o).GetOr(0) <= SumSizes(cs, o)
  {
    assert cs[..i + 1][..i] == cs[..i];
    SumSizesPrefix(cs, o, i + 1);
  }

  /** `p` is `c` laid out by a linear layout at (`left`, `top`) after children
      taking `before` columns or rows along `o`: only its position and dirty
      flag change, and it sits `before` further along the axis. */
  predicate Placed(c: View, p: View, o: Orientation, top: u16, left: u16, before: nat) {
    && p == c.(x := p.x, y := p.y, dirty := false)
    && p.x == (if o.Horizontal? then left + before else left)
    && p.y == (if o.Vertical? then top + before else top)
  }

  /** The loop of `layout`: each child laid out at the running position, which
      then advances by the child's measured size along `o`. */
  method PlaceChildren(cs: seq<View>, o: Orientation, top: u16, left: u16) returns (ps: seq<View>)
    requires forall j :: 0 <= j < |cs| ==> Size(cs[j], o).Some?
    requires (if o.Horizontal? then left else top) + SumSizes(cs, o) < U16_LIMIT
    ensures |ps| == |cs|
    ensures forall j :: 0 <= j < |cs| ==> Placed(cs[j], ps[j], o, top, left, SumSizes(cs[..j], o))
  {
    ps := [];
    var x, y := left, top;
    while |ps| < |cs|
      invariant PlacedPrefix(cs, ps, o, top, left, x, y)
      decreases |cs| - |ps|
    {
      ps, x, y := PlaceNext(cs, ps, o, top, left, x, y);
    }
  }

  /** The first `|ps|` children have been placed, and (`x`, `y`) is where the
      next one goes. */
  predicate PlacedPrefix(cs: seq<View>, ps: seq<View>, o: Orientation, top: u16, left: u16, x: u16, y: u16) {
    && |ps| <= |cs|
    && (forall j :: 0 <= j < |ps| ==> Placed(cs[j], ps[j], o, top, left, SumSizes(cs[..j], o)))
    && x == (if o.Horizontal? then left + SumSizes(cs[..|ps|], o) else left)
    && y == (if o.Vertical? then top + SumSizes(cs[..|ps|], o) else top)
  }

  /** One iteration of the loop of `layout`: the next child is laid out at
      (`x`, `y`), which then advances by its size along `o`. */
  method PlaceNext(cs: seq<View>, ps: seq<View>, o: Orientation, top: u16, left: u16, x: u16, y: u16)
    returns (ps': seq<View>, x': u16, y': u16)
    requires forall j :: 0 <= j < |cs| ==> Size(cs[j], o).Some?
    requires (if o.Horizontal? then left else top) + SumSizes(cs, o) < U16_LIMIT
    requires |ps| < |cs| && PlacedPrefix(cs, ps, o, top, left, x, y)
    ensures |ps'| == |ps| + 1 && PlacedPrefix(cs, ps', o, top, left, x', y')
  {
    var i := |ps|;
    SumSizesStep(cs, o, i);
    PlacedExtend(cs, ps, o, top, left, x, y);
    ps' := ps + [cs[i].Layout(y, x)];
    x', y' := x, y;
    if o.Vertical? {
      y' := y + Size(cs[i], o).value;
    } else {
      x' := x + Size(cs[i], o).value;
    }
  }

  /** Laying out the next child at (`x`, `y`) places it after the others. */
  lemma PlacedExtend(cs: seq<View>, ps: seq<View>, o: Orientation, top: u16, left: u16, x: u16, y: u16)
    requires |ps| < |cs| && PlacedPrefix(cs, ps, o, top, left, x, y)
    ensures forall j :: 0 <= j < |ps| + 1 ==>
              Placed(cs[j], (ps + [cs[|ps|].Layout(y, x)])[j], o, top, left, SumSizes(cs[..j], o))
  {
    var ps' := ps + [cs[|ps|].Layout(y, x)];
    assert forall j :: 0 <= j < |ps| ==> ps'[j] == ps[j];
  }
}
