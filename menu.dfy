/**
  The menu loader of config_parser.cpp. An already-parsed XML sibling
  list is walked into a tree store (one row per labelled <Item>) and a
  list of action bindings; a row's binding is then looked up by its
  tree path.
 */
module Menu {
  import opened TextUtil

  /** An XML node as libxml2 delivers it: an element with its name,
      attributes and children, or a node of any other kind (text,
      comment, processing instruction). */
  datatype Xml = Element(name: string, attrs: map<string, string>, children: seq<Xml>) | Other

  /** One row of the tree store: its caption (column 0) and its child rows. */
  datatype MenuNode = MenuNode(caption: string, children: seq<MenuNode>)

  /** A row's position as gtk_tree_model_get_path reports it: the child
      index at each level, from the top level down. Two rows are the
      same row exactly when their paths are equal. */
  type Path = seq<nat>

  /** ActionItem of config_parser.hpp, with the row's path as its iter. */
  datatype ActionItem = ActionItem(caption: string, action: string, options: string, iter: Path)

  /** The nodes the loader turns into rows: element nodes named exactly
      "Item" that carry a "label" attribute. */
  predicate IsLabelledItem(x: Xml)
  {
    x.Element? && x.name == "Item" && "label" in x.attrs
  }

  /** The options recorded for an item: its "options" attribute, or "" when absent. */
  function OptionsAttr(x: Xml): string
    requires x.Element?
  {
    if "options" in x.attrs then x.attrs["options"] else ""
  }

  // ---------------------------------------------------------------
  // The tree store as a forest of rows

  /** `p` is the top level (the empty path, a NULL parent) or an existing row. */
  predicate Reaches(f: seq<MenuNode>, p: Path)
    decreases p
  {
    p == [] || (p[0] < |f| && Reaches(f[p[0]].children, p[1..]))
  }

  /** The row at a non-empty path. */
  function NodeAt(f: seq<MenuNode>, p: Path): MenuNode
    requires p != [] && Reaches(f, p)
    decreases p
  {
    if |p| == 1 then f[p[0]] else NodeAt(f[p[0]].children, p[1..])
  }

  /** Number of children below `p` (top-level rows when `p` is empty). */
  function ChildCount(f: seq<MenuNode>, p: Path): nat
    requires Reaches(f, p)
    decreases p
  {
    if p == [] then |f| else ChildCount(f[p[0]].children, p[1..])
  }

  /** The forest with `kids` appended, in order, after the last child of `p`. */
  function Graft(f: seq<MenuNode>, p: Path, kids: seq<MenuNode>): seq<MenuNode>
    requires Reaches(f, p)
    decreases p
  {
    if p == [] then f + kids
    else f[p[0] := MenuNode(f[p[0]].caption, Graft(f[p[0]].children, p[1..], kids))]
  }

  /** Total number of rows in a forest. */
  function Size(f: seq<MenuNode>): nat
  {
    if f == [] then 0 else Size(f[..|f| - 1]) + 1 + Size(f[|f| - 1].children)
  }

  lemma {:induction false} GraftEmpty(f: seq<MenuNode>, p: Path)
    requires Reaches(f, p)
    ensures Graft(f, p, []) == f
    decreases p
  {
    if p != [] {
      GraftEmpty(f[p[0]].children, p[1..]);
    }
  }

  lemma {:induction false} GraftGraft(f: seq<MenuNode>, p: Path, a: seq<MenuNode>, b: seq<MenuNode>)
    requires Reaches(f, p)
    ensures Reaches(Graft(f, p, a), p)
    ensures ChildCount(Graft(f, p, a), p) == ChildCount(f, p) + |a|
    ensures Graft(Graft(f, p, a), p, b) == Graft(f, p, a + b)
    decreases p
  {
    if p != [] {
      GraftGraft(f[p[0]].children, p[1..], a, b);
    }
  }

  /** Grafting a leaf and then grafting below that leaf is grafting the full row. */
  lemma {:induction false} GraftLeaf(f: seq<MenuNode>, p: Path, m: seq<MenuNode>, caption: string, kids: seq<MenuNode>)
    requires Reaches(f, p)
    ensures Reaches(Graft(f, p, m + [MenuNode(caption, [])]), p + [ChildCount(f, p) + |m|])
    ensures ChildCount(Graft(f, p, m + [MenuNode(caption, [])]), p + [ChildCount(f, p) + |m|]) == 0
    ensures Graft(Graft(f, p, m + [MenuNode(caption, [])]), p + [ChildCount(f, p) + |m|], kids)
         == Graft(f, p, m + [MenuNode(caption, kids)])
    decreases p
  {
    var q := p + [ChildCount(f, p) + |m|];
    if p == [] {
      var f1 := f + m + [MenuNode(caption, [])];
      assert q == [|f| + |m|] && f1[|f| + |m|] == MenuNode(caption, []);
      assert Graft(f1, q, kids) == f1[|f| + |m| := MenuNode(caption, [] + kids)];
      assert [] + kids == kids;
      assert (f + m + [MenuNode(caption, [])])[|f| + |m| := MenuNode(caption, kids)] == f + m + [MenuNode(caption, kids)];
    } else {
      GraftLeaf(f[p[0]].children, p[1..], m, caption, kids);
      assert q[0] == p[0] && q[1..] == p[1..] + [ChildCount(f, p) + |m|];
    }
  }

  /** Appending keeps every existing row where it was, with its caption. */
  lemma {:induction false} GraftKeepsRows(f: seq<MenuNode>, p: Path, kids: seq<MenuNode>, q: Path)
    requires Reaches(f, p) && q != [] && Reaches(f, q)
    ensures Reaches(Graft(f, p, kids), q)
    ensures NodeAt(Graft(f, p, kids), q).caption == NodeAt(f, q).caption
    decreases q
  {
    if p != [] && p[0] == q[0] && |q| > 1 {
      GraftKeepsRows(f[p[0]].children, p[1..], kids, q[1..]);
    }
  }

  /** The `k`-th appended row sits `k` places after the previous last child. */
  lemma {:induction false} GraftAddsRows(f: seq<MenuNode>, p: Path, kids: seq<MenuNode>, k: nat)
    requires Reaches(f, p) && k < |kids|
    ensures Reaches(Graft(f, p, kids), p + [ChildCount(f, p) + k])
    ensures NodeAt(Graft(f, p, kids), p + [ChildCount(f, p) + k]) == kids[k]
    decreases p
  {
    var q := p + [ChildCount(f, p) + k];
    if p != [] {
      GraftAddsRows(f[p[0]].children, p[1..], kids, k);
      assert q[1..] == p[1..] + [ChildCount(f, p) + k];
    }
  }

  /** GtkTreeStore: a forest of rows that grows only by appending. */
  class TreeStore {
    var forest: seq<MenuNode>

    constructor()
      ensures forest == []
    {
      forest := [];
    }

    /** gtk_tree_store_append followed by gtk_tree_store_set of column 0:
        a new leaf labelled `caption` after the last child of `parent`;
        `iter` is the new row's path. */
    method Append(parent: Path, caption: string) returns (iter: Path)
      requires Reaches(forest, parent)
      modifies this
      ensures forest == Graft(old(forest), parent, [MenuNode(caption, [])])
      ensures iter == parent + [ChildCount(old(forest), parent)]
      ensures Reaches(forest, iter) && NodeAt(forest, iter) == MenuNode(caption, [])
    {
      iter := parent + [ChildCount(forest, parent)];
      GraftAddsRows(forest, parent, [MenuNode(caption, [])], 0);
      forest := Graft(forest, parent, [MenuNode(caption, [])]);
    }
  }

  // ---------------------------------------------------------------
  // What the loader produces, as functions of the XML

  /** The labelled items of a sibling list, in document order. */
  function Labelled(nodes: seq<Xml>): (r: seq<Xml>)
    ensures forall k :: 0 <= k < |r| ==> IsLabelledItem(r[k])
    ensures |r| <= |nodes|
  {
    if nodes == [] then []
    else
      var x := nodes[|nodes| - 1];
      Labelled(nodes[..|nodes| - 1]) + (if IsLabelledItem(x) then [x] else [])
  }

  /** The rows the loader appends below one parent for a sibling list. */
  function Rows(nodes: seq<Xml>): seq<MenuNode>
    decreases nodes
  {
    if nodes == [] then []
    else
      var x := nodes[|nodes| - 1];
      Rows(nodes[..|nodes| - 1])
        + (if IsLabelledItem(x) then [MenuNode(x.attrs["label"], Rows(x.children))] else [])
  }

  /** The binding recorded for one labelled item whose row is `iter`. */
  function Own(x: Xml, iter: Path): seq<ActionItem>
    requires IsLabelledItem(x)
  {
    if "action" in x.attrs then [ActionItem(x.attrs["label"], x.attrs["action"], OptionsAttr(x), iter)] else []
  }

  /** The bindings pushed for a sibling list whose rows go below `parent`
      starting at child index `base`: each item's own binding, then the
      bindings of its children. */
  function Bindings(nodes: seq<Xml>, parent: Path, base: nat): seq<ActionItem>
    decreases nodes
  {
    if nodes == [] then []
    else
      var init := nodes[..|nodes| - 1];
      var x := nodes[|nodes| - 1];
      var iter := parent + [base + |Rows(init)|];
      Bindings(init, parent, base)
        + (if IsLabelledItem(x) then Own(x, iter) + Bindings(x.children, iter, 0) else [])
  }

  lemma RowsSnoc(done: seq<Xml>, x: Xml)
    ensures Rows(done + [x])
         == Rows(done) + (if IsLabelledItem(x) then [MenuNode(x.attrs["label"], Rows(x.children))] else [])
  {
    assert (done + [x])[..|done|] == done;
  }

  lemma BindingsSnoc(done: seq<Xml>, x: Xml, parent: Path, base: nat)
    ensures Bindings(done + [x], parent, base)
         == Bindings(done, parent, base)
          + (if IsLabelledItem(x)
             then Own(x, parent + [base + |Rows(done)|]) + Bindings(x.children, parent + [base + |Rows(done)|], 0)
             else [])
  {
    assert (done + [x])[..|done|] == done;
  }

  /** One labelled item: its leaf goes after the last child of `parent`,
      and grafting its children below the leaf gives its full row. */
  lemma ItemShape(f: seq<MenuNode>, parent: Path, cur: Xml)
    requires Reaches(f, parent)
    ensures IsLabelledItem(cur) ==>
      var iter := parent + [ChildCount(f, parent)];
      var f1 := Graft(f, parent, [MenuNode(cur.attrs["label"], [])]);
      && Reaches(f1, iter) && ChildCount(f1, iter) == 0
      && Graft(f1, iter, Rows(cur.children)) == Graft(f, parent, Rows([cur]))
      && Bindings([cur], parent, ChildCount(f, parent)) == Own(cur, iter) + Bindings(cur.children, iter, 0)
    ensures !IsLabelledItem(cur) ==>
      Rows([cur]) == [] && Bindings([cur], parent, ChildCount(f, parent)) == []
  {
    assert [cur][..0] == [];
    if IsLabelledItem(cur) {
      GraftLeaf(f, parent, [], cur.attrs["label"], Rows(cur.children));
      assert [] + [MenuNode(cur.attrs["label"], [])] == [MenuNode(cur.attrs["label"], [])];
      assert [] + [MenuNode(cur.attrs["label"], Rows(cur.children))] == Rows([cur]);
    }
  }

  /** One round of the loader's loop: the rows of a prefix plus one more node. */
  lemma SiblingRows(f: seq<MenuNode>, parent: Path, done: seq<Xml>, cur: Xml)
    requires Reaches(f, parent)
    ensures Reaches(Graft(f, parent, Rows(done)), parent)
    ensures ChildCount(Graft(f, parent, Rows(done)), parent) == ChildCount(f, parent) + |Rows(done)|
    ensures Graft(Graft(f, parent, Rows(done)), parent, Rows([cur])) == Graft(f, parent, Rows(done + [cur]))
  {
    GraftGraft(f, parent, Rows(done), Rows([cur]));
    RowsSnoc(done, cur);
    RowsSnoc([], cur);
    assert [] + [cur] == [cur];
  }

  /** One round of the loader's loop: the bindings of a prefix plus one more node. */
  lemma SiblingBindings(done: seq<Xml>, cur: Xml, parent: Path, base: nat)
    ensures Bindings(done + [cur], parent, base)
         == Bindings(done, parent, base) + Bindings([cur], parent, base + |Rows(done)|)
  {
    BindingsSnoc(done, cur, parent, base);
    BindingsSnoc([], cur, parent, base + |Rows(done)|);
    assert [] + [cur] == [cur];
  }

  /** The first binding at or after `from` whose row is `p`: the loop of
      get_action_for_iter and get_options_for_iter, which compare the query
      path with each item's path in push order. */
  function FirstMatch(items: seq<ActionItem>, p: Path, from: nat): (r: Option<nat>)
    ensures r.Some? ==> from <= r.value < |items| && items[r.value].iter == p
    ensures r.Some? ==> forall j :: from <= j < r.value ==> items[j].iter != p
    ensures r.None? ==> forall j :: from <= j < |items| ==> items[j].iter != p
    decreases |items| - from
  {
    if from >= |items| then None
    else if items[from].iter == p then Some(from)
    else FirstMatch(items, p, from + 1)
  }

  /** The binding a lookup settles on, if any. */
  function BindingFor(items: seq<ActionItem>, p: Path): Option<ActionItem>
  {
    match FirstMatch(items, p, 0)
    case Some(j) => Some(items[j])
    case None => None
  }

  /** What get_action_for_iter returns: the first matching binding's action, or "". */
  function ActionFor(items: seq<ActionItem>, p: Path): string
  {
    if BindingFor(items, p).Some? then BindingFor(items, p).value.action else ""
  }

  /** What get_options_for_iter returns: the same binding's options, or "". */
  function OptionsFor(items: seq<ActionItem>, p: Path): string
  {
    if BindingFor(items, p).Some? then BindingFor(items, p).value.options else ""
  }

  // ---------------------------------------------------------------
  // The parser and the lookups

  class ConfigParser {
    var actionItems: seq<ActionItem>

    constructor()
      ensures actionItems == []
    {
      actionItems := [];
    }

    /** The body of parse_xml_menu's loop for an <Item> element: when it
        has a label it gets a new row below `parent`, its binding when it
        has an "action" attribute, and then its children are parsed below
        the new row; without a label it and its subtree are skipped. */
    method ParseItem(cur: Xml, store: TreeStore, parent: Path)
      requires cur.Element? && cur.name == "Item"
      requires Reaches(store.forest, parent)
      modifies this, store
      ensures store.forest == Graft(old(store.forest), parent, Rows([cur]))
      ensures actionItems == old(actionItems) + Bindings([cur], parent, ChildCount(old(store.forest), parent))
      decreases cur.children, 1
    {
      ghost var f := store.forest;
      ItemShape(f, parent, cur);
      if "label" in cur.attrs {
        var caption := cur.attrs["label"];
        var iter := store.Append(parent, caption);
        PushBinding(cur, iter);
        if cur.children != [] {
          ParseXmlMenu(cur.children, store, iter);
        } else {
          GraftEmpty(store.forest, iter);
        }
      } else {
        GraftEmpty(store.forest, parent);
      }
    }

    /** The binding part of one round: an item with an "action" attribute
        records its label, action, options ("" when absent) and row. */
    method PushBinding(cur: Xml, iter: Path)
      requires IsLabelledItem(cur)
      modifies this
      ensures actionItems == old(actionItems) + Own(cur, iter)
    {
      if "action" in cur.attrs {
        var options := if "options" in cur.attrs then cur.attrs["options"] else "";
        actionItems := actionItems + [ActionItem(cur.attrs["label"], cur.attrs["action"], options, iter)];
      }
    }

    /** parse_xml_menu: walks the sibling list `nodes` in order, handling
        each node as ParseItem describes, below `parent`. */
    method ParseXmlMenu(nodes: seq<Xml>, store: TreeStore, parent: Path)
      requires Reaches(store.forest, parent)
      modifies this, store
      ensures store.forest == Graft(old(store.forest), parent, Rows(nodes))
      ensures actionItems == old(actionItems) + Bindings(nodes, parent, ChildCount(old(store.forest), parent))
      decreases nodes, 0
    {
      ghost var forest0 := store.forest;
      ghost var items0 := actionItems;
      ghost var base := ChildCount(forest0, parent);
      GraftEmpty(forest0, parent);
      var i := 0;
      while i < |nodes|
        invariant i <= |nodes|
        invariant store.forest == Graft(forest0, parent, Rows(nodes[..i]))
        invariant actionItems == items0 + Bindings(nodes[..i], parent, base)
      {
        var cur := nodes[i];
        ghost var done := nodes[..i];
        SiblingRows(forest0, parent, done, cur);
        SiblingBindings(done, cur, parent, base);
        if cur.Element? && cur.name == "Item" {
          ParseItem(cur, store, parent);
        } else {
          ItemShape(store.forest, parent, cur);
          GraftEmpty(store.forest, parent);
        }
        AppendAssoc(items0, Bindings(done, parent, base), Bindings([cur], parent, base + |Rows(done)|));
        i := i + 1;
        assert nodes[..i] == done + [cur];
      }
      assert nodes[..i] == nodes;
    }

    /** get_action_for_iter: the action of the first binding whose row is `iter`, or "". */
    method GetActionForIter(iter: Path) returns (action: string)
      ensures action == ActionFor(actionItems, iter)
    {
      var i := 0;
      while i < |actionItems|
        invariant i <= |actionItems|
        invariant FirstMatch(actionItems, iter, i) == FirstMatch(actionItems, iter, 0)
      {
        if actionItems[i].iter == iter {
          return actionItems[i].action;
        }
        i := i + 1;
      }
      return "";
    }

    /** get_options_for_iter: the options of the first binding whose row is `iter`, or "". */
    method GetOptionsForIter(iter: Path) returns (options: string)
      ensures options == OptionsFor(actionItems, iter)
    {
      var i := 0;
      while i < |actionItems|
        invariant i <= |actionItems|
        invariant FirstMatch(actionItems, iter, i) == FirstMatch(actionItems, iter, 0)
      {
        if actionItems[i].iter == iter {
          return actionItems[i].options;
        }
        i := i + 1;
      }
      return "";
    }
  }
}
