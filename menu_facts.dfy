/**
  What the menu loader guarantees: which XML nodes become rows, how many
  rows there are, where each binding's row is, that bindings come in
  pre-order with distinct rows, and that looking up a row finds the
  attributes of the item that produced it.
 */
module MenuFacts {
  import opened TextUtil
  import opened Menu

  // ---------------------------------------------------------------
  // Sibling lists split in two

  lemma {:induction false} RowsAppend(a: seq<Xml>, b: seq<Xml>)
    ensures Rows(a + b) == Rows(a) + Rows(b)
    decreases |b|
  {
    if b == [] {
      assert a + b == a;
    } else {
      assert (a + b)[..|a + b| - 1] == a + b[..|b| - 1];
      RowsAppend(a, b[..|b| - 1]);
    }
  }

  lemma {:induction false} BindingsAppend(a: seq<Xml>, b: seq<Xml>, parent: Path, base: nat)
    ensures Bindings(a + b, parent, base) == Bindings(a, parent, base) + Bindings(b, parent, base + |Rows(a)|)
    decreases |b|
  {
    if b == [] {
      assert a + b == a;
    } else {
      var init := b[..|b| - 1];
      assert (a + b)[..|a + b| - 1] == a + init;
      BindingsAppend(a, init, parent, base);
      RowsAppend(a, init);
    }
  }

  /** A node that is not a labelled <Item> contributes nothing, wherever it
      stands: no row, no binding, and nothing from its subtree. */
  lemma SkippedNode(a: seq<Xml>, x: Xml, b: seq<Xml>, parent: Path, base: nat)
    requires !IsLabelledItem(x)
    ensures Rows(a + [x] + b) == Rows(a + b)
    ensures Bindings(a + [x] + b, parent, base) == Bindings(a + b, parent, base)
  {
    RowsAppend(a + [x], b);
    RowsAppend(a, b);
    BindingsAppend(a + [x], b, parent, base);
    BindingsAppend(a, b, parent, base);
    RowsSnoc(a, x);
    BindingsSnoc(a, x, parent, base);
  }

  /** The rows below one parent are the labelled items, in document order. */
  lemma {:induction false} RowsFollowLabelled(nodes: seq<Xml>)
    ensures |Rows(nodes)| == |Labelled(nodes)|
    ensures forall k :: 0 <= k < |Rows(nodes)| ==>
      Rows(nodes)[k] == MenuNode(Labelled(nodes)[k].attrs["label"], Rows(Labelled(nodes)[k].children))
  {
    if nodes != [] {
      RowsFollowLabelled(nodes[..|nodes| - 1]);
    }
  }

  // ---------------------------------------------------------------
  // Node count

  /** Labelled items reachable from the root through labelled items only,
      counted front to back. */
  function CountItems(nodes: seq<Xml>): nat
  {
    if nodes == [] then 0
    else (if IsLabelledItem(nodes[0]) then 1 + CountItems(nodes[0].children) else 0) + CountItems(nodes[1..])
  }

  lemma {:induction false} SizeAppend(a: seq<MenuNode>, b: seq<MenuNode>)
    ensures Size(a + b) == Size(a) + Size(b)
    decreases |b|
  {
    if b == [] {
      assert a + b == a;
    } else {
      assert (a + b)[..|a + b| - 1] == a + b[..|b| - 1];
      SizeAppend(a, b[..|b| - 1]);
    }
  }

  /** The tree store ends up with one row per labelled item whose ancestors
      below the root are all labelled items. */
  lemma {:induction false} RowCount(nodes: seq<Xml>)
    ensures Size(Rows(nodes)) == CountItems(nodes)
  {
    if nodes != [] {
      var x := nodes[0];
      assert nodes == [x] + nodes[1..];
      RowsAppend([x], nodes[1..]);
      SizeAppend(Rows([x]), Rows(nodes[1..]));
      RowCount(nodes[1..]);
      RowsSnoc([], x);
      assert [] + [x] == [x];
      if IsLabelledItem(x) {
        RowCount(x.children);
        var row := [MenuNode(x.attrs["label"], Rows(x.children))];
        assert Rows([x]) == row;
        assert row[..0] == [];
      } else {
        assert Rows([x]) == [];
      }
    }
  }

  // ---------------------------------------------------------------
  // Where the bindings' rows are, and their order

  /** `p` lies strictly below `parent`, in a child whose index is in [lo, hi). */
  predicate Under(p: Path, parent: Path, lo: nat, hi: nat)
  {
    |p| > |parent| && p[..|parent|] == parent && lo <= p[|parent|] < hi
  }

  lemma {:induction false} BindingsLocated(nodes: seq<Xml>, parent: Path, base: nat)
    ensures forall j :: 0 <= j < |Bindings(nodes, parent, base)| ==>
      Under(Bindings(nodes, parent, base)[j].iter, parent, base, base + |Rows(nodes)|)
    decreases nodes
  {
    if nodes != [] {
      var init := nodes[..|nodes| - 1];
      var x := nodes[|nodes| - 1];
      BindingsLocated(init, parent, base);
      if IsLabelledItem(x) {
        var pc := parent + [base + |Rows(init)|];
        BindingsLocated(x.children, pc, 0);
        var b2 := Bindings(x.children, pc, 0);
        forall j | 0 <= j < |b2|
          ensures Under(b2[j].iter, parent, base + |Rows(init)|, base + |Rows(init)| + 1)
        {
          var q := b2[j].iter;
          assert q[..|pc|] == pc;
          assert q[..|parent|] == pc[..|parent|];
        }
      }
    }
  }

  /** `a` comes before `b` in a depth-first walk that visits a row before
      its children and children in index order. */
  predicate Before(a: Path, b: Path)
    decreases |a|
  {
    b != [] && (a == [] || a[0] < b[0] || (a[0] == b[0] && Before(a[1..], b[1..])))
  }

  lemma {:induction false} BeforeIrreflexive(a: Path)
    ensures !Before(a, a)
    decreases |a|
  {
    if a != [] {
      BeforeIrreflexive(a[1..]);
    }
  }

  lemma {:induction false} BeforeDescendant(a: Path, b: Path)
    requires |a| < |b| && b[..|a|] == a
    ensures Before(a, b)
    decreases |a|
  {
    if a != [] {
      assert b[1..][..|a| - 1] == a[1..];
      BeforeDescendant(a[1..], b[1..]);
    }
  }

  lemma {:induction false} BeforeSibling(a: Path, b: Path, n: nat)
    requires n < |a| && n < |b| && a[..n] == b[..n] && a[n] < b[n]
    ensures Before(a, b)
    decreases n
  {
    if n > 0 {
      assert a[0] == a[..n][0] && b[0] == b[..n][0];
      assert a[1..][..n - 1] == a[..n][1..] && b[1..][..n - 1] == b[..n][1..];
      BeforeSibling(a[1..], b[1..], n - 1);
    }
  }

  predicate Sorted(items: seq<ActionItem>)
  {
    forall i, j :: 0 <= i < j < |items| ==> Before(items[i].iter, items[j].iter)
  }

  lemma SortedAppend(a: seq<ActionItem>, b: seq<ActionItem>)
    requires Sorted(a) && Sorted(b)
    requires forall i, j :: 0 <= i < |a| && 0 <= j < |b| ==> Before(a[i].iter, b[j].iter)
    ensures Sorted(a + b)
  {
    forall i, j | 0 <= i < j < |a + b|
      ensures Before((a + b)[i].iter, (a + b)[j].iter)
    {
      if j < |a| {
      } else if i >= |a| {
        assert (a + b)[i] == b[i - |a|] && (a + b)[j] == b[j - |a|];
      } else {
        assert (a + b)[j] == b[j - |a|];
      }
    }
  }

  /** Bindings are pushed in pre-order: an item before its children,
      earlier siblings (and their subtrees) before later ones. */
  lemma {:induction false} BindingsPreOrder(nodes: seq<Xml>, parent: Path, base: nat)
    ensures Sorted(Bindings(nodes, parent, base))
    decreases nodes
  {
    if nodes != [] {
      var init := nodes[..|nodes| - 1];
      var x := nodes[|nodes| - 1];
      var b1 := Bindings(init, parent, base);
      BindingsPreOrder(init, parent, base);
      if IsLabelledItem(x) {
        var c := base + |Rows(init)|;
        var pc := parent + [c];
        var own := Own(x, pc);
        var b2 := Bindings(x.children, pc, 0);
        BindingsPreOrder(x.children, pc, 0);
        BindingsLocated(x.children, pc, 0);
        BindingsLocated(init, parent, base);
        forall i, j | 0 <= i < |own| && 0 <= j < |b2|
          ensures Before(own[i].iter, b2[j].iter)
        {
          BeforeDescendant(pc, b2[j].iter);
        }
        SortedAppend(own, b2);
        var g := own + b2;
        forall i, j | 0 <= i < |b1| && 0 <= j < |g|
          ensures Before(b1[i].iter, g[j].iter)
        {
          var a := b1[i].iter;
          var b := g[j].iter;
          if j < |own| {
            assert b == pc;
          } else {
            assert b == b2[j - |own|].iter;
            assert b[..|pc|] == pc;
          }
          assert b[..|parent|] == parent && b[|parent|] == c by {
            assert pc[..|parent|] == parent;
          }
          BeforeSibling(a, b, |parent|);
        }
        SortedAppend(b1, g);
      }
    }
  }

  /** No two bindings share a row, so every row has at most one binding. */
  lemma DistinctRows(nodes: seq<Xml>, parent: Path, base: nat)
    ensures forall i, j :: 0 <= i < j < |Bindings(nodes, parent, base)| ==>
      Bindings(nodes, parent, base)[i].iter != Bindings(nodes, parent, base)[j].iter
  {
    var b := Bindings(nodes, parent, base);
    BindingsPreOrder(nodes, parent, base);
    forall i, j | 0 <= i < j < |b|
      ensures b[i].iter != b[j].iter
    {
      BeforeIrreflexive(b[i].iter);
    }
  }

  // ---------------------------------------------------------------
  // Looking a row up

  /** The item that produced the row at `q` below the list `nodes`, if any. */
  function SourceAt(nodes: seq<Xml>, q: Path): (r: Option<Xml>)
    ensures r.Some? ==> IsLabelledItem(r.value)
    decreases |q|
  {
    if q == [] || q[0] >= |Labelled(nodes)| then None
    else if |q| == 1 then Some(Labelled(nodes)[q[0]])
    else SourceAt(Labelled(nodes)[q[0]].children, q[1..])
  }

  /** Rows and source items correspond one to one: a path names a row
      exactly when it names a labelled item, and the row carries that
      item's label. */
  lemma {:induction false} SourceIsRow(nodes: seq<Xml>, q: Path)
    ensures SourceAt(nodes, q).Some? <==> q != [] && Reaches(Rows(nodes), q)
    ensures SourceAt(nodes, q).Some? ==>
      IsLabelledItem(SourceAt(nodes, q).value) &&
      NodeAt(Rows(nodes), q) == MenuNode(SourceAt(nodes, q).value.attrs["label"], Rows(SourceAt(nodes, q).value.children))
    decreases |q|
  {
    RowsFollowLabelled(nodes);
    if q != [] && q[0] < |Labelled(nodes)| && |q| > 1 {
      SourceIsRow(Labelled(nodes)[q[0]].children, q[1..]);
    }
  }

  /** The binding a row with source `src` is expected to have. */
  function Expected(src: Option<Xml>, p: Path): Option<ActionItem>
  {
    match src
    case None => None
    case Some(x) =>
      if IsLabelledItem(x) && "action" in x.attrs
      then Some(ActionItem(x.attrs["label"], x.attrs["action"], OptionsAttr(x), p))
      else None
  }

  /** The source item of the absolute path `p` for a list whose rows go
      below `parent` from child index `base`. */
  function Resolve(nodes: seq<Xml>, parent: Path, base: nat, p: Path): Option<Xml>
  {
    if |p| > |parent| && p[..|parent|] == parent && p[|parent|] >= base
    then SourceAt(nodes, [p[|parent|] - base] + p[|parent| + 1..])
    else None
  }

  predicate Lacks(items: seq<ActionItem>, p: Path)
  {
    forall j :: 0 <= j < |items| ==> items[j].iter != p
  }

  lemma BindingForLacks(items: seq<ActionItem>, p: Path)
    ensures BindingFor(items, p).None? <==> Lacks(items, p)
  {
  }

  lemma {:induction false} FirstMatchAppend(a: seq<ActionItem>, b: seq<ActionItem>, p: Path, from: nat)
    requires from <= |a|
    ensures FirstMatch(a + b, p, from) ==
      match FirstMatch(a, p, from)
      case Some(j) => Some(j)
      case None => match FirstMatch(b, p, 0) case Some(j) => Some(|a| + j) case None => None
    decreases |a| - from
  {
    if from < |a| {
      assert (a + b)[from] == a[from];
      FirstMatchAppend(a, b, p, from + 1);
    } else {
      FirstMatchShift(a, b, p, 0);
    }
  }

  lemma {:induction false} FirstMatchShift(a: seq<ActionItem>, b: seq<ActionItem>, p: Path, k: nat)
    requires k <= |b|
    ensures FirstMatch(a + b, p, |a| + k) ==
      match FirstMatch(b, p, k) case Some(j) => Some(|a| + j) case None => None
    decreases |b| - k
  {
    if k < |b| {
      assert (a + b)[|a| + k] == b[k];
      FirstMatchShift(a, b, p, k + 1);
    }
  }

  /** A lookup in a concatenation finds the first part's binding when it
      has one, and the second part's otherwise. */
  lemma BindingForAppend(a: seq<ActionItem>, b: seq<ActionItem>, p: Path)
    ensures BindingFor(a + b, p) == if BindingFor(a, p).Some? then BindingFor(a, p) else BindingFor(b, p)
  {
    FirstMatchAppend(a, b, p, 0);
    match FirstMatch(b, p, 0)
    case Some(j) => assert (a + b)[|a| + j] == b[j];
    case None =>
  }

  lemma LacksUnder(items: seq<ActionItem>, parent: Path, lo: nat, hi: nat, p: Path)
    requires forall j :: 0 <= j < |items| ==> Under(items[j].iter, parent, lo, hi)
    requires !Under(p, parent, lo, hi)
    ensures Lacks(items, p)
  {
  }

  /** The rows of earlier siblings keep their source items when one more
      node is appended to the list. */
  lemma SourceAtSnoc(init: seq<Xml>, x: Xml, q: Path)
    requires q != [] && q[0] < |Labelled(init)|
    ensures SourceAt(init + [x], q) == SourceAt(init, q)
  {
    assert (init + [x])[..|init|] == init;
    assert Labelled(init + [x])[q[0]] == Labelled(init)[q[0]];
  }

  /** Lookup correctness for one sibling list: the binding found for any
      path is the one the path's source item calls for: the item's own
      label, action and options when it has an "action" attribute, and
      none when the path is not a row or its item has no action. */
  lemma {:induction false} BindingResolves(nodes: seq<Xml>, parent: Path, base: nat, p: Path)
    ensures BindingFor(Bindings(nodes, parent, base), p) == Expected(Resolve(nodes, parent, base, p), p)
    decreases nodes
  {
    if nodes == [] {
      assert Lacks(Bindings(nodes, parent, base), p);
      BindingForLacks(Bindings(nodes, parent, base), p);
    } else {
      var init := nodes[..|nodes| - 1];
      var x := nodes[|nodes| - 1];
      assert init + [x] == nodes;
      BindingResolves(init, parent, base, p);
      if !IsLabelledItem(x) {
        ResolveSkipped(init, x, parent, base, p);
      } else {
        ResolveLabelled(init, x, parent, base, p);
      }
    }
  }

  /** A last node that is not a labelled item changes neither the bindings
      nor the source of any path. */
  lemma ResolveSkipped(init: seq<Xml>, x: Xml, parent: Path, base: nat, p: Path)
    requires !IsLabelledItem(x)
    ensures Bindings(init + [x], parent, base) == Bindings(init, parent, base)
    ensures Resolve(init + [x], parent, base, p) == Resolve(init, parent, base, p)
  {
    assert (init + [x])[..|init|] == init;
    assert Labelled(init + [x]) == Labelled(init);
  }

  /** The inductive step of BindingResolves for a labelled last item `x`. */
  lemma {:induction false} ResolveLabelled(init: seq<Xml>, x: Xml, parent: Path, base: nat, p: Path)
    requires IsLabelledItem(x)
    requires BindingFor(Bindings(init, parent, base), p) == Expected(Resolve(init, parent, base, p), p)
    ensures BindingFor(Bindings(init + [x], parent, base), p) == Expected(Resolve(init + [x], parent, base, p), p)
    decreases init + [x], 2
  {
    var nodes := init + [x];
    var c := base + |Rows(init)|;
    var pc := parent + [c];
    var b1 := Bindings(init, parent, base);
    var own := Own(x, pc);
    var b2 := Bindings(x.children, pc, 0);
    BindingsSnoc(init, x, parent, base);
    assert Bindings(nodes, parent, base) == b1 + (own + b2);
    BindingForAppend(b1, own + b2, p);
    RowsFollowLabelled(init);
    assert (init + [x])[..|init|] == init;
    assert Labelled(nodes) == Labelled(init) + [x];
    BindingsLocated(init, parent, base);
    BindingsLocated(x.children, pc, 0);
    if Under(p, parent, base, c) {
      ResolveEarlier(init, x, parent, base, c, pc, p);
    } else {
      LacksUnder(b1, parent, base, c, p);
      BindingForLacks(b1, p);
      ResolveLast(init, x, parent, base, c, pc, p);
    }
  }

  /** `p` is a row of an earlier sibling's subtree: the new item's
      bindings do not match it and its source item is unchanged. */
  lemma ResolveEarlier(init: seq<Xml>, x: Xml, parent: Path, base: nat, c: nat, pc: Path, p: Path)
    requires IsLabelledItem(x)
    requires c == base + |Rows(init)| && pc == parent + [c]
    requires Under(p, parent, base, c)
    requires |Rows(init)| == |Labelled(init)|
    requires forall j :: 0 <= j < |Bindings(x.children, pc, 0)| ==>
      Under(Bindings(x.children, pc, 0)[j].iter, pc, 0, |Rows(x.children)|)
    ensures Lacks(Own(x, pc) + Bindings(x.children, pc, 0), p)
    ensures Resolve(init + [x], parent, base, p) == Resolve(init, parent, base, p)
  {
    var g := Own(x, pc) + Bindings(x.children, pc, 0);
    forall j | 0 <= j < |g|
      ensures g[j].iter != p
    {
      var q := g[j].iter;
      if j >= |Own(x, pc)| {
        assert q[..|pc|] == pc;
        assert q[..|parent| + 1][|parent|] == pc[|parent|];
      }
    }
    SourceAtSnoc(init, x, [p[|parent|] - base] + p[|parent| + 1..]);
  }

  /** `p` is not below an earlier sibling: only the new item's own binding
      and its subtree's bindings can match it. */
  lemma {:induction false} ResolveLast(init: seq<Xml>, x: Xml, parent: Path, base: nat, c: nat, pc: Path, p: Path)
    requires IsLabelledItem(x)
    requires c == base + |Rows(init)| && pc == parent + [c]
    requires !Under(p, parent, base, c)
    requires |Rows(init)| == |Labelled(init)|
    requires Labelled(init + [x]) == Labelled(init) + [x]
    requires forall j :: 0 <= j < |Bindings(x.children, pc, 0)| ==>
      Under(Bindings(x.children, pc, 0)[j].iter, pc, 0, |Rows(x.children)|)
    ensures BindingFor(Own(x, pc) + Bindings(x.children, pc, 0), p)
         == Expected(Resolve(init + [x], parent, base, p), p)
    decreases init + [x], 1
  {
    BindingForAppend(Own(x, pc), Bindings(x.children, pc, 0), p);
    if p == pc {
      ResolveOwnRow(init, x, parent, base, c, pc);
    } else if Under(p, parent, c, c + 1) {
      ResolveBelow(init, x, parent, base, c, pc, p);
    } else {
      ResolveElsewhere(init, x, parent, base, c, pc, p);
    }
  }

  /** `p` is the new item's own row. */
  lemma ResolveOwnRow(init: seq<Xml>, x: Xml, parent: Path, base: nat, c: nat, pc: Path)
    requires IsLabelledItem(x)
    requires c == base + |Rows(init)| == base + |Labelled(init)| && pc == parent + [c]
    requires Labelled(init + [x]) == Labelled(init) + [x]
    requires forall j :: 0 <= j < |Bindings(x.children, pc, 0)| ==>
      Under(Bindings(x.children, pc, 0)[j].iter, pc, 0, |Rows(x.children)|)
    ensures (if BindingFor(Own(x, pc), pc).Some? then BindingFor(Own(x, pc), pc) else BindingFor(Bindings(x.children, pc, 0), pc))
         == Expected(Resolve(init + [x], parent, base, pc), pc)
  {
    var b2 := Bindings(x.children, pc, 0);
    assert pc[..|parent|] == parent && pc[|parent|] == c;
    assert [pc[|parent|] - base] + pc[|parent| + 1..] == [|Labelled(init)|];
    assert Resolve(init + [x], parent, base, pc) == Some(x);
    assert Lacks(b2, pc);
    BindingForLacks(b2, pc);
  }

  /** `p` lies in the new item's subtree, below its own row. */
  lemma {:induction false} ResolveBelow(init: seq<Xml>, x: Xml, parent: Path, base: nat, c: nat, pc: Path, p: Path)
    requires IsLabelledItem(x)
    requires c == base + |Rows(init)| == base + |Labelled(init)| && pc == parent + [c]
    requires Labelled(init + [x]) == Labelled(init) + [x]
    requires p != pc && Under(p, parent, c, c + 1)
    ensures (if BindingFor(Own(x, pc), p).Some? then BindingFor(Own(x, pc), p) else BindingFor(Bindings(x.children, pc, 0), p))
         == Expected(Resolve(init + [x], parent, base, p), p)
    decreases init + [x], 0
  {
    var rest := p[|pc|..];
    assert p[..|pc|] == pc by {
      assert p[..|parent|] == parent;
      assert p[..|pc|] == p[..|parent|] + [p[|parent|]];
    }
    assert p == p[..|pc|] + rest;
    assert [p[|parent|] - base] + p[|parent| + 1..] == [|Labelled(init)|] + rest;
    assert Resolve(init + [x], parent, base, p) == SourceAt(x.children, rest);
    assert [p[|pc|] - 0] + p[|pc| + 1..] == rest;
    assert Resolve(x.children, pc, 0, p) == SourceAt(x.children, rest);
    BindingResolves(x.children, pc, 0, p);
    assert Lacks(Own(x, pc), p);
    BindingForLacks(Own(x, pc), p);
  }

  /** `p` is neither below an earlier sibling nor in the new item's subtree. */
  lemma ResolveElsewhere(init: seq<Xml>, x: Xml, parent: Path, base: nat, c: nat, pc: Path, p: Path)
    requires IsLabelledItem(x)
    requires c == base + |Rows(init)| == base + |Labelled(init)| && pc == parent + [c]
    requires Labelled(init + [x]) == Labelled(init) + [x]
    requires !Under(p, parent, base, c) && !Under(p, parent, c, c + 1)
    requires forall j :: 0 <= j < |Bindings(x.children, pc, 0)| ==>
      Under(Bindings(x.children, pc, 0)[j].iter, pc, 0, |Rows(x.children)|)
    ensures (if BindingFor(Own(x, pc), p).Some? then BindingFor(Own(x, pc), p) else BindingFor(Bindings(x.children, pc, 0), p))
         == Expected(Resolve(init + [x], parent, base, p), p)
  {
    var b2 := Bindings(x.children, pc, 0);
    forall j | 0 <= j < |b2|
      ensures b2[j].iter != p
    {
      var q := b2[j].iter;
      assert q[..|pc|] == pc;
      assert q[..|parent|] == parent && q[|parent|] == c by {
        assert q[..|parent|] == q[..|pc|][..|parent|];
      }
    }
    BindingForLacks(b2, p);
    assert Lacks(Own(x, pc), p) by {
      assert pc[..|parent|] == parent;
    }
    BindingForLacks(Own(x, pc), p);
    if |p| > |parent| && p[..|parent|] == parent && p[|parent|] >= base {
      assert p[|parent|] - base > |Labelled(init)|;
    }
  }

  /** Lookup correctness for the whole menu (top level, no parent): the
      action and options found for a row are its item's "action"
      attribute and its "options" attribute ("" when absent); both are ""
      for a path that is not a row or whose item has no "action". */
  lemma Lookup(nodes: seq<Xml>, p: Path)
    ensures SourceAt(nodes, p).Some? && "action" in SourceAt(nodes, p).value.attrs ==>
      ActionFor(Bindings(nodes, [], 0), p) == SourceAt(nodes, p).value.attrs["action"] &&
      OptionsFor(Bindings(nodes, [], 0), p) == OptionsAttr(SourceAt(nodes, p).value)
    ensures !(SourceAt(nodes, p).Some? && "action" in SourceAt(nodes, p).value.attrs) ==>
      BindingFor(Bindings(nodes, [], 0), p) == None &&
      ActionFor(Bindings(nodes, [], 0), p) == "" && OptionsFor(Bindings(nodes, [], 0), p) == ""
  {
    BindingResolves(nodes, [], 0, p);
    SourceIsRow(nodes, p);
    if p != [] {
      assert [p[0] - 0] + p[1..] == p;
    }
    assert Resolve(nodes, [], 0, p) == SourceAt(nodes, p);
  }
}
