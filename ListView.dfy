/** ListView: items gathered in groups, drawn group title first and items
    indented below it; the group `None` has no title and no indent. The
    groups are a hash map and the items of a group a hash set, so no order is
    modelled. How a group and an item are displayed is a parameter. */
module Lists {
  import opened Util
  import opened Views
  import opened TextMetrics

  /** A width counted in `usize` and cast `as u16`: kept modulo 2^16. */
  function Col(s: string): (n: nat)
    ensures n < U16_LIMIT
    ensures VisibleLen(s) < U16_LIMIT ==> n == VisibleLen(s)
  {
    VisibleLen(s) % U16_LIMIT
  }

  /** Items of a titled group are drawn two columns in. */
  function Indent<G>(group: Option<G>): (r: string) {
    if group.Some? then "  " else ""
  }

  /** The title of `g`, if any, and each of its items with its indent, is at
      most `w` columns wide. */
  ghost predicate GroupFits<G, V>(items: map<Option<G>, set<V>>, showGroup: G -> string,
                                  showItem: V -> string, g: Option<G>, w: int)
    requires g in items
  {
    && (g.Some? ==> Col(showGroup(g.value)) <= w)
    && (forall v :: v in items[g] ==> Col(Indent(g) + showItem(v)) <= w)
  }

  /** `w` is the width of the title of `g` or of one of its indented items. */
  ghost predicate GroupAttains<G, V>(items: map<Option<G>, set<V>>, showGroup: G -> string,
                                     showItem: V -> string, g: Option<G>, w: int)
    requires g in items
  {
    || (g.Some? && Col(showGroup(g.value)) == w)
    || (exists v :: v in items[g] && Col(Indent(g) + showItem(v)) == w)
  }

  /** Every group in `done` fits in `w` columns. */
  ghost predicate Covers<G, V>(items: map<Option<G>, set<V>>, showGroup: G -> string,
                               showItem: V -> string, done: set<Option<G>>, w: int)
  {
    forall g :: g in done && g in items ==> GroupFits(items, showGroup, showItem, g, w)
  }

  /** `w` is 0 or the width of a title or an indented item in `done`. */
  ghost predicate Attained<G, V>(items: map<Option<G>, set<V>>, showGroup: G -> string,
                                 showItem: V -> string, done: set<Option<G>>, w: int)
  {
    w == 0 || exists g :: g in done && g in items && GroupAttains(items, showGroup, showItem, g, w)
  }

  /** The width a list wraps to is determined by its content. */
  lemma WidestUnique<G, V>(items: map<Option<G>, set<V>>, showGroup: G -> string,
                           showItem: V -> string, w1: int, w2: int)
    requires w1 >= 0 && w2 >= 0
    requires Covers(items, showGroup, showItem, items.Keys, w1) && Attained(items, showGroup, showItem, items.Keys, w1)
    requires Covers(items, showGroup, showItem, items.Keys, w2) && Attained(items, showGroup, showItem, items.Keys, w2)
    ensures w1 == w2
  {
  }

  /** The `WrapContent` width loop of `measure`: the widest title or indented
      item, each measured with `term_string_visible_len` and cast to `u16`. */
  method ContentWidth<G(==), V(==)>(items: map<Option<G>, set<V>>, showGroup: G -> string,
                                    showItem: V -> string) returns (width: u16)
    ensures Covers(items, showGroup, showItem, items.Keys, width)
    ensures Attained(items, showGroup, showItem, items.Keys, width)
  {
    width := 0;
    var pending := items.Keys;
    while pending != {}
      invariant pending <= items.Keys
      invariant Covers(items, showGroup, showItem, items.Keys - pending, width)
      invariant Attained(items, showGroup, showItem, items.Keys - pending, width)
      decreases pending
    {
      var group :| group in pending;
      ghost var before := width;
      width := WidenToGroup(items, showGroup, showItem, group, width);
      forall g | g in items.Keys - pending && g in items
        ensures GroupFits(items, showGroup, showItem, g, width)
      {
        assert GroupFits(items, showGroup, showItem, g, before);
      }
      pending := pending - {group};
    }
  }

  /** One turn of the width loop: `width` widened to the title of `group` and
      to each of its indented items. */
  method WidenToGroup<G(==), V(==)>(items: map<Option<G>, set<V>>, showGroup: G -> string,
                                    showItem: V -> string, group: Option<G>, width: u16)
    returns (w: u16)
    requires group in items
    ensures width <= w
    ensures GroupFits(items, showGroup, showItem, group, w)
    ensures w == width || GroupAttains(items, showGroup, showItem, group, w)
  {
    w := width;
    if group.Some? {
      var n := TermStringVisibleLen(showGroup(group.value));
      if n % U16_LIMIT > w {
        w := n % U16_LIMIT;
      }
    }
    var indent := Indent(group);
    var rest := items[group];
    while rest != {}
      invariant rest <= items[group]
      invariant width <= w
      invariant group.Some? ==> Col(showGroup(group.value)) <= w
      invariant forall v :: v in items[group] - rest ==> Col(indent + showItem(v)) <= w
      invariant w == width || GroupAttains(items, showGroup, showItem, group, w)
      decreases rest
    {
      var item :| item in rest;
      var n := TermStringVisibleLen(indent + showItem(item));
      if n % U16_LIMIT > w {
        w := n % U16_LIMIT;
      }
      rest := rest - {item};
    }
  }

  /** The rows a group takes: its title, if any, and one row per item, the
      item count cast to `u16`. */
  function GroupRows<G, V>(group: Option<G>, members: set<V>): (n: nat)
    ensures n < U16_LIMIT + 1
    ensures |members| + 1 < U16_LIMIT ==> n == |members| + (if group.Some? then 1 else 0)
  {
    (if group.Some? then 1 else 0) + |members| % U16_LIMIT
  }

  /** The rows of the groups in `keys`, summed in an arbitrary order. */
  ghost function Rows<G, V>(items: map<Option<G>, set<V>>, keys: set<Option<G>>): (r: nat)
    requires keys <= items.Keys
    decreases keys
  {
    if keys == {} then 0
    else
      var k :| k in keys;
      GroupRows(k, items[k]) + Rows(items, keys - {k})
  }

  /** The sum does not depend on the group picked first. */
  lemma {:induction false} RowsRemove<G, V>(items: map<Option<G>, set<V>>, keys: set<Option<G>>, k: Option<G>)
    requires keys <= items.Keys && k in keys
    ensures Rows(items, keys) == GroupRows(k, items[k]) + Rows(items, keys - {k})
    decreases keys
  {
    var j :| j in keys && Rows(items, keys) == GroupRows(j, items[j]) + Rows(items, keys - {j});
    if j != k {
      RowsRemove(items, keys - {j}, k);
      RowsRemove(items, keys - {k}, j);
      assert keys - {j} - {k} == keys - {k} - {j};
    }
  }

  /** Groups that agree contribute the same rows. */
  lemma {:induction false} RowsAgree<G, V>(a: map<Option<G>, set<V>>, b: map<Option<G>, set<V>>, keys: set<Option<G>>)
    requires keys <= a.Keys && keys <= b.Keys
    requires forall k :: k in keys ==> a[k] == b[k]
    ensures Rows(a, keys) == Rows(b, keys)
    decreases keys
  {
    if keys != {} {
      var k :| k in keys && Rows(a, keys) == GroupRows(k, a[k]) + Rows(a, keys - {k});
      RowsRemove(b, keys, k);
      RowsAgree(a, b, keys - {k});
    }
  }

  /** Adding an empty group adds one row for its title and nothing for the
      untitled group. */
  lemma RowsAddGroup<G, V>(items: map<Option<G>, set<V>>, group: Option<G>)
    requires group !in items
    ensures Rows(items[group := {}], items.Keys + {group})
            == Rows(items, items.Keys) + (if group.Some? then 1 else 0)
  {
    var after := items[group := {}];
    RowsRemove(after, items.Keys + {group}, group);
    assert items.Keys + {group} - {group} == items.Keys;
    RowsAgree(after, items, items.Keys);
  }

  /** Adding an item that is new to its group adds one row (below the `u16`
      wrap of the item count). */
  lemma RowsInsert<G, V>(items: map<Option<G>, set<V>>, group: Option<G>, item: V)
    requires group in items && item !in items[group] && |items[group]| + 2 < U16_LIMIT
    ensures Rows(items[group := items[group] + {item}], items.Keys) == Rows(items, items.Keys) + 1
  {
    var after := items[group := items[group] + {item}];
    assert after.Keys == items.Keys;
    assert |after[group]| == |items[group]| + 1;
    assert GroupRows(group, after[group]) == GroupRows(group, items[group]) + 1;
    RowsRemove(after, items.Keys, group);
    RowsRemove(items, items.Keys, group);
    RowsAgree(after, items, items.Keys - {group});
  }

  /** The `WrapContent` height loop of `measure`: one row per titled group
      and one per item, added up in `u16`, which panics on overflow in debug builds and wraps
      in release builds. */
  method ContentHeight<G(==), V(==)>(items: map<Option<G>, set<V>>) returns (height: u16)
    requires Rows(items, items.Keys) < U16_LIMIT
    ensures height == Rows(items, items.Keys)
  {
    height := 0;
    var pending := items.Keys;
    while pending != {}
      invariant pending <= items.Keys
      invariant height == Rows(items, items.Keys - pending)
      decreases pending
    {
      var group :| group in pending;
      var done := items.Keys - pending;
      RowsRemove(items, done + {group}, group);
      assert done + {group} - {group} == done;
      RowsRemove(items, items.Keys, group);
      RowsMonotone(items, done + {group}, items.Keys);
      if group.Some? {
        height := height + 1;
      }
      height := height + |items[group]| % U16_LIMIT;
      pending := pending - {group};
      assert items.Keys - pending == done + {group};
    }
    assert items.Keys - pending == items.Keys;
  }

  /** A sum over fewer groups is no larger. */
  lemma {:induction false} RowsMonotone<G, V>(items: map<Option<G>, set<V>>, small: set<Option<G>>, large: set<Option<G>>)
    requires small <= large <= items.Keys
    ensures Rows(items, small) <= Rows(items, large)
    decreases large
  {
    if small != large {
      var k :| k in large && k !in small;
      RowsRemove(items, large, k);
      RowsMonotone(items, small, large - {k});
    }
  }

  class ListView<G(==), V(==)> {
    const showGroup: G -> string
    const showItem: V -> string
    var view: View
    var items: map<Option<G>, set<V>>

    /** `View<ListView>::new`: as wide as its content, as high as its
        parent, no groups. */
    constructor (showGroup: G -> string, showItem: V -> string)
      ensures this.showGroup == showGroup && this.showItem == showItem
      ensures view == View(WrapContent, MatchParent, 0, 0, None, None, true)
      ensures items == map[]
    {
      this.showGroup := showGroup;
      this.showItem := showItem;
      view := View(WrapContent, MatchParent, 0, 0, None, None, true);
      items := map[];
    }

    /** `with_none_group`: makes sure the untitled group exists, keeping its
        items if it does. */
    method WithNoneGroup()
      modifies this
      ensures None in items && items.Keys == old(items.Keys) + {None}
      ensures None in old(items) ==> items == old(items)
      ensures None !in old(items) ==> items == old(items)[None := {}]
      ensures view == old(view)
    {
      if None !in items {
        items := items[None := {}];
      }
    }

    /** `add_group`: makes sure a titled group exists, keeping its items if
        it does. */
    method AddGroup(group: G)
      modifies this
      ensures Some(group) in items && items.Keys == old(items.Keys) + {Some(group)}
      ensures Some(group) in old(items) ==> items == old(items)
      ensures Some(group) !in old(items) ==> items == old(items)[Some(group) := {}]
      ensures view == old(view)
    {
      if Some(group) !in items {
        items := items[Some(group) := {}];
      }
    }

    /** `insert`: adds the item to its group, creating the group if needed,
        and marks the view dirty. */
    method Insert(item: V, group: Option<G>)
      modifies this
      ensures items.Keys == old(items.Keys) + {group}
      ensures items[group] == (if group in old(items) then old(items)[group] else {}) + {item}
      ensures forall g :: g in old(items) && g != group ==> items[g] == old(items)[g]
      ensures view == old(view).(dirty := true)
    {
      if group !in items {
        items := items[group := {item}];
      } else {
        items := items[group := items[group] + {item}];
      }
      view := view.(dirty := true);
    }

    /** `measure`: `MatchParent` takes the constraint, `Absolute` the fixed
        size clamped by it, `WrapContent` the content's size clamped by it. */
    method Measure(widthSpec: Option<u16>, heightSpec: Option<u16>)
      requires view.height.WrapContent? ==> Rows(items, items.Keys) < U16_LIMIT
      modifies this
      ensures items == old(items)
      ensures view.(w := old(view).w, h := old(view).h) == old(view)
      ensures view.width.MatchParent? ==> view.w == widthSpec
      ensures view.width.Absolute? ==> view.w == Some(Bound(view.width.n, widthSpec))
      ensures view.width.WrapContent? ==>
                exists cw: u16 :: && Covers(items, showGroup, showItem, items.Keys, cw)
                                  && Attained(items, showGroup, showItem, items.Keys, cw)
                                  && view.w == Some(Bound(cw, widthSpec))
      ensures view.height.MatchParent? ==> view.h == heightSpec
      ensures view.height.Absolute? ==> view.h == Some(Bound(view.height.n, heightSpec))
      ensures view.height.WrapContent? ==>
                view.h == Some(Bound(Rows(items, items.Keys), heightSpec))
    {
      var w: Option<u16>;
      match view.width {
        case MatchParent =>
          w := widthSpec;
        case WrapContent =>
          var cw := ContentWidth(items, showGroup, showItem);
          w := Some(Bound(cw, widthSpec));
        case Absolute(n) =>
          w := Some(Bound(n, widthSpec));
      }
      var h: Option<u16>;
      match view.height {
        case MatchParent =>
          h := heightSpec;
        case WrapContent =>
          var ch := ContentHeight(items);
          h := Some(Bound(ch, heightSpec));
        case Absolute(n) =>
          h := Some(Bound(n, heightSpec));
      }
      view := view.(w := w, h := h);
    }
  }
}
