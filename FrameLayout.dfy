/** FrameLayout: a keyed set of children that all occupy the container's
    rectangle; only the current one is drawn. Children are leaves that use the
    default `measure` and `layout`. The key-to-child map is unordered, as the
    hash map it models. */
module Frames {
  import opened Util
  import opened Views

  class FrameLayout<K(==)> {
    var view: View
    var children: map<K, View>
    var current: Option<K>

    ghost predicate Valid()
      reads this
    {
      forall k :: k in children ==> children[k].Measurable()
    }

    /** `FrameLayout::new`: fills its parent, at (1, 1), not yet measured. */
    constructor ()
      ensures Valid()
      ensures view == View(MatchParent, MatchParent, 1, 1, None, None, true)
      ensures children == map[] && current == None
    {
      view := View(MatchParent, MatchParent, 1, 1, None, None, true);
      children := map[];
      current := None;
    }

    /** `current`: selects the child to draw, then redraws the frame. That
        redraw is not modelled: it looks the key up and panics inside this
        call when no child is stored under it. */
    method Current(key: K)
      modifies this
      ensures current == Some(key)
      ensures view == old(view) && children == old(children)
    {
      current := Some(key);
    }

    /** `insert`: the new child is measured with the container's own measured
        size and laid out at the container's position before it is stored
        (replacing any child with the same key). */
    method Insert(key: K, widget: View)
      requires Valid() && widget.Measurable()
      modifies this
      ensures Valid()
      ensures children.Keys == old(children.Keys) + {key}
      ensures forall k :: k in children && k != key ==> children[k] == old(children[k])
      ensures children[key] == widget.Measure(view.w, view.h).Layout(view.y, view.x)
      ensures view == old(view) && current == old(current)
    {
      var placed := widget.Measure(view.w, view.h).Layout(view.y, view.x);
      children := children[key := placed];
    }

    /** `measure`: takes the constraint as its size and forwards the same
        constraint to every child. */
    method Measure(widthSpec: Option<u16>, heightSpec: Option<u16>)
      requires Valid()
      modifies this
      ensures Valid()
      ensures view == old(view).(w := widthSpec, h := heightSpec)
      ensures children.Keys == old(children.Keys)
      ensures forall k :: k in children ==> children[k] == old(children[k]).Measure(widthSpec, heightSpec)
      ensures current == old(current)
    {
      view := view.(w := widthSpec, h := heightSpec);
      children := map k | k in children :: children[k].Measure(widthSpec, heightSpec);
    }

    /** `layout`: every child is laid out at the container's own position. */
    method Layout(top: u16, left: u16)
      modifies this
      ensures view == old(view).Layout(top, left)
      ensures children.Keys == old(children.Keys)
      ensures forall k :: k in children ==> children[k] == old(children[k]).Layout(top, left)
      ensures current == old(current)
      ensures Valid() <==> old(Valid())
    {
      view := view.Layout(top, left);
      children := map k | k in children :: children[k].Layout(top, left);
    }

    /** `is_dirty`: the OR of the children's dirty flags, gathered key by key
        in no particular order. */
    method IsDirty() returns (dirty: bool)
      ensures dirty <==> exists k :: k in children && children[k].dirty
    {
      dirty := false;
      var pending := children.Keys;
      while pending != {}
        invariant pending <= children.Keys
        invariant dirty <==> exists k :: k in children.Keys - pending && children[k].dirty
        decreases pending
      {
        var k :| k in pending;
        dirty := dirty || children[k].dirty;
        pending := pending - {k};
      }
    }
  }
}
