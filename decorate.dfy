/**
 * The tree decorator of src/index.js: children are decorated depth-first,
 * then each child list is folded left to right; a directive comment merges
 * its properties onto the last entry of the output so far and is dropped.
 */
module Decorator {
  import opened Wrappers
  import opened Hast
  import opened CommentPattern
  import opened GetProps
  import opened Lists

  /** A comment whose text matches the envelope. */
  predicate IsDirective(n: Node) {
    n.Comment? && Envelope(n.value).Some?
  }

  /** The body of a directive comment assigns no attribute called `className`. */
  predicate Safe(n: Node) {
    IsDirective(n) ==> ClassNameFree(Envelope(n.value).value)
  }

  /** Every node of the tree is `Safe`. */
  predicate Decoratable(n: Node) {
    && Safe(n)
    && (Children(n).Some? ==> forall i :: 0 <= i < |n.children.nodes| ==> Decoratable(n.children.nodes[i]))
  }

  /** No directive comment at any depth. */
  predicate Clean(n: Node) {
    && !IsDirective(n)
    && (Children(n).Some? ==> forall i :: 0 <= i < |n.children.nodes| ==> Clean(n.children.nodes[i]))
  }

  /** A tree without directives needs no guarding. */
  lemma {:induction false} CleanDecoratable(n: Node)
    requires Clean(n)
    ensures Decoratable(n)
  {
    if Children(n).Some? {
      forall i | 0 <= i < |n.children.nodes| ensures Decoratable(n.children.nodes[i]) {
        CleanDecoratable(n.children.nodes[i]);
      }
    }
  }

  /**
   * `parseComment(node)`: the properties a directive comment encodes, and
   * nothing for any other node (a text, an element, a comment whose text
   * does not match the envelope).
   */
  function ParseComment(n: Node): (r: Option<PropertyMap>)
    requires Safe(n)
    ensures r.Some? <==> IsDirective(n)
    ensures r.Some? ==> r.value.attrs == Assignments(Tokens(Envelope(n.value).value))
    ensures r.Some? ==> ClassList(r.value) == ClassNames(Tokens(Envelope(n.value).value))
    ensures r.Some? ==> (r.value.className.None? <==> ClassNames(Tokens(Envelope(n.value).value)) == [])
  {
    if !n.Comment? then None
    else
      var m := Envelope(n.value);
      if m.None? then None else Some(GetProps.GetProps(m.value))
  }

  /** `applyProps` reads missing properties as `{}`. */
  function Previous(n: Node): PropertyMap
    requires n.Element?
  {
    n.properties.GetOr(Empty)
  }

  /**
   * `applyProps(node, props)`: a non-element comes back as it is. An
   * element keeps everything but its properties, whose class list is the
   * old classes followed by the directive's (absent when both are empty),
   * and whose other keys are the old ones overridden by the directive's.
   */
  function ApplyProps(n: Node, props: PropertyMap): (r: Node)
    ensures !n.Element? ==> r == n
    ensures n.Element? ==> r.Element? && r.tagName == n.tagName && r.children == n.children && r.properties.Some?
    ensures n.Element? ==> ClassList(r.properties.value) == ClassList(Previous(n)) + ClassList(props)
    ensures n.Element? ==> (r.properties.value.className.None? <==> ClassList(Previous(n)) + ClassList(props) == [])
    ensures n.Element? ==> forall k :: k in r.properties.value.attrs <==> k in Previous(n).attrs || k in props.attrs
    ensures n.Element? ==> forall k :: k in props.attrs ==> r.properties.value.attrs[k] == props.attrs[k]
    ensures n.Element? ==> forall k :: k in Previous(n).attrs && k !in props.attrs ==>
      r.properties.value.attrs[k] == Previous(n).attrs[k]
  {
    match n
    case Element(tag, properties, children) =>
      var prev := properties.GetOr(Empty);
      var classes := ClassList(prev) + ClassList(props);
      var merged: PropertyMap := Props(if |classes| > 0 then Some(classes) else None, prev.attrs + props.attrs);
      Element(tag, Some(merged), children)
    case _ => n
  }

  /**
   * The directive branch of `reduceNodes`: the last entry is replaced by
   * that entry with `props` applied, every earlier entry stays, and an
   * empty list stays empty.
   */
  function ReplaceLast(list: seq<Node>, props: PropertyMap): (r: seq<Node>)
    ensures |r| == |list|
    ensures list != [] ==> r[..|r| - 1] == list[..|list| - 1]
    ensures list != [] ==> r[|r| - 1] == ApplyProps(list[|list| - 1], props)
    ensures list != [] && !list[|list| - 1].Element? ==> r == list
  {
    var head := TrimEnd(list);
    var tail := Last(list);
    if tail.None? then [] else head + [ApplyProps(tail.value, props)]
  }

  /**
   * `reduceNodes(list, node)`: a node that is not a directive is appended
   * after the untouched list; a directive gives a list of the same length
   * in which only the last entry has changed.
   */
  function ReduceNodes(list: seq<Node>, node: Node): (r: seq<Node>)
    requires Safe(node)
    ensures !IsDirective(node) ==> r == list + [node]
    ensures IsDirective(node) ==> r == ReplaceLast(list, ParseComment(node).value)
  {
    var commentProps := ParseComment(node);
    if commentProps.None? then list + [node] else ReplaceLast(list, commentProps.value)
  }

  /** The number of entries of `nodes` that are not directives. */
  function Kept(nodes: seq<Node>): nat {
    if nodes == [] then 0 else (if IsDirective(nodes[0]) then 0 else 1) + Kept(nodes[1..])
  }

  /**
   * `nodes.reduce(reduceNodes, acc)`: every directive is dropped, so the
   * output holds the accumulator and each non-directive; without
   * directives it is the plain concatenation, and it is directive-free at
   * every depth when its inputs are, directives aside.
   */
  function Fold(acc: seq<Node>, nodes: seq<Node>): (r: seq<Node>)
    requires forall i :: 0 <= i < |nodes| ==> Safe(nodes[i])
    ensures |r| == |acc| + Kept(nodes)
    ensures (forall i :: 0 <= i < |nodes| ==> !IsDirective(nodes[i])) ==> r == acc + nodes
    ensures (forall i :: 0 <= i < |acc| ==> Clean(acc[i]))
         && (forall i :: 0 <= i < |nodes| ==> IsDirective(nodes[i]) || Clean(nodes[i]))
        ==> forall i :: 0 <= i < |r| ==> Clean(r[i])
    decreases |nodes|
  {
    if nodes == [] then acc
    else
      var r := Fold(ReduceNodes(acc, nodes[0]), nodes[1..]);
      FoldStepLength(acc, nodes, r);
      FoldStepPlain(acc, nodes, r);
      FoldStepClean(acc, nodes, r);
      r
  }

  /** The first step of `Fold` keeps an entry unless it is a directive. */
  lemma FoldStepLength(acc: seq<Node>, nodes: seq<Node>, r: seq<Node>)
    requires nodes != [] && Safe(nodes[0])
    requires |r| == |ReduceNodes(acc, nodes[0])| + Kept(nodes[1..])
    ensures |r| == |acc| + Kept(nodes)
  {
  }

  /** The first step of `Fold` on a non-directive appends it. */
  lemma FoldStepPlain(acc: seq<Node>, nodes: seq<Node>, r: seq<Node>)
    requires nodes != [] && Safe(nodes[0])
    requires (forall i :: 0 <= i < |nodes| - 1 ==> !IsDirective(nodes[1..][i])) ==> r == ReduceNodes(acc, nodes[0]) + nodes[1..]
    ensures (forall i :: 0 <= i < |nodes| ==> !IsDirective(nodes[i])) ==> r == acc + nodes
  {
    if forall i :: 0 <= i < |nodes| ==> !IsDirective(nodes[i]) {
      assert !IsDirective(nodes[0]);
      assert forall i :: 0 <= i < |nodes| - 1 ==> nodes[1..][i] == nodes[i + 1];
      assert acc + nodes == (acc + [nodes[0]]) + nodes[1..];
    }
  }

  /** The first step of `Fold` keeps the output directive-free. */
  lemma FoldStepClean(acc: seq<Node>, nodes: seq<Node>, r: seq<Node>)
    requires nodes != [] && Safe(nodes[0])
    requires var next, rest := ReduceNodes(acc, nodes[0]), nodes[1..];
      (forall i :: 0 <= i < |next| ==> Clean(next[i]))
      && (forall i :: 0 <= i < |rest| ==> IsDirective(rest[i]) || Clean(rest[i]))
      ==> forall i :: 0 <= i < |r| ==> Clean(r[i])
    ensures (forall i :: 0 <= i < |acc| ==> Clean(acc[i]))
         && (forall i :: 0 <= i < |nodes| ==> IsDirective(nodes[i]) || Clean(nodes[i]))
        ==> forall i :: 0 <= i < |r| ==> Clean(r[i])
  {
    assert forall i :: 0 <= i < |nodes| - 1 ==> nodes[1..][i] == nodes[i + 1];
    StepKeepsClean(acc, nodes[0]);
  }

  /** Applying properties changes no child list, so it keeps a tree directive-free. */
  lemma ApplyPropsClean(n: Node, props: PropertyMap)
    requires Clean(n)
    ensures Clean(ApplyProps(n, props))
  {
  }

  /** One fold step keeps a directive-free output directive-free. */
  lemma StepKeepsClean(acc: seq<Node>, node: Node)
    requires Safe(node)
    ensures (forall i :: 0 <= i < |acc| ==> Clean(acc[i])) && (IsDirective(node) || Clean(node))
        ==> forall i :: 0 <= i < |ReduceNodes(acc, node)| ==> Clean(ReduceNodes(acc, node)[i])
  {
    if (forall i :: 0 <= i < |acc| ==> Clean(acc[i])) && IsDirective(node) && acc != [] {
      var r := ReduceNodes(acc, node);
      ApplyPropsClean(acc[|acc| - 1], ParseComment(node).value);
      forall i | 0 <= i < |r| ensures Clean(r[i]) {
        if i < |r| - 1 {
          assert r[i] == r[..|r| - 1][i];
        }
      }
    }
  }

  /** The largest of some heights, `0` for none. */
  function Tallest(hs: seq<nat>): (r: nat)
    ensures forall i :: 0 <= i < |hs| ==> hs[i] <= r
  {
    if hs == [] then 0
    else
      var rest := Tallest(hs[1..]);
      assert forall i :: 1 <= i < |hs| ==> hs[i] == hs[1..][i - 1];
      if hs[0] < rest then rest else hs[0]
  }

  /** The height of a tree: the measure the decorator's recursion descends along. */
  function Height(n: Node): nat {
    match n
    case Element(_, _, Present(cs)) => 1 + Tallest(seq(|cs|, i requires 0 <= i < |cs| => Height(cs[i])))
    case _ => 0
  }

  /** The height of the tallest tree of a list. */
  function Depth(list: seq<Node>): nat {
    Tallest(seq(|list|, i requires 0 <= i < |list| => Height(list[i])))
  }

  lemma HeightOfChildren(n: Node)
    requires Children(n).Some?
    ensures Height(n) == 1 + Depth(n.children.nodes)
  {
    var cs := n.children.nodes;
    assert seq(|cs|, i requires 0 <= i < |cs| => Height(cs[i]))
        == seq(|cs|, i requires 0 <= i < |cs| => Height(cs[i]));
  }

  /**
   * `decorate(root)`: a node without children comes back as it is; any
   * other comes back differing only in its children, which are decorated.
   * Decorating changes nothing in a tree without directives, and leaves
   * none in the tree of a node that is not one itself.
   */
  function Decorate(n: Node): (r: Node)
    requires Decoratable(n)
    ensures Children(n).None? ==> r == n
    ensures Children(n).Some? ==> r.Element? && Children(r).Some? && r == n.(children := r.children)
    ensures Safe(r) && (IsDirective(r) <==> IsDirective(n))
    ensures !IsDirective(n) ==> Clean(r)
    ensures Clean(n) ==> r == n
    decreases Height(n), 0
  {
    if Children(n).None? then n
    else
      HeightOfChildren(n);
      n.(children := Present(DecorateFragment(n.children.nodes)))
  }

  /**
   * `decorateFragment(list)`: one output node per non-directive child, none
   * of them holding a directive at any depth; a list without directives
   * comes back unchanged.
   */
  function DecorateFragment(list: seq<Node>): (r: seq<Node>)
    requires forall i :: 0 <= i < |list| ==> Decoratable(list[i])
    ensures |r| == Kept(list)
    ensures forall i :: 0 <= i < |r| ==> Clean(r[i])
    ensures (forall i :: 0 <= i < |list| ==> Clean(list[i])) ==> r == list
    decreases Depth(list), 1
  {
    var newList := seq(|list|, i requires 0 <= i < |list| => DepthBounds(list, i); Decorate(list[i]));
    FoldDecoratedLength(list, newList);
    FoldDecoratedClean(list, newList);
    FoldDecoratedSame(list, newList);
    Fold([], newList)
  }

  /** Each tree of a list is at most as tall as the list. */
  lemma DepthBounds(list: seq<Node>, i: nat)
    requires i < |list|
    ensures Height(list[i]) <= Depth(list)
  {
    var hs := seq(|list|, j requires 0 <= j < |list| => Height(list[j]));
    assert hs[i] == Height(list[i]);
  }

  /** Folding a list decorated entry by entry keeps one entry per non-directive. */
  lemma FoldDecoratedLength(list: seq<Node>, newList: seq<Node>)
    requires |newList| == |list|
    requires forall i :: 0 <= i < |list| ==> Safe(newList[i]) && (IsDirective(newList[i]) <==> IsDirective(list[i]))
    ensures |Fold([], newList)| == Kept(list)
  {
    KeptSame(list, newList);
  }

  /** Folding a list decorated entry by entry leaves no directive at any depth. */
  lemma FoldDecoratedClean(list: seq<Node>, newList: seq<Node>)
    requires |newList| == |list|
    requires forall i :: 0 <= i < |list| ==> Safe(newList[i]) && (IsDirective(newList[i]) <==> IsDirective(list[i]))
    requires forall i :: 0 <= i < |list| ==> !IsDirective(list[i]) ==> Clean(newList[i])
    ensures forall i :: 0 <= i < |Fold([], newList)| ==> Clean(Fold([], newList)[i])
  {
  }

  /** A directive-free list decorated entry by entry into itself folds back into itself. */
  lemma FoldDecoratedSame(list: seq<Node>, newList: seq<Node>)
    requires |newList| == |list|
    requires forall i :: 0 <= i < |list| ==> Safe(newList[i])
    requires forall i :: 0 <= i < |list| ==> Clean(list[i]) ==> newList[i] == list[i]
    ensures (forall i :: 0 <= i < |list| ==> Clean(list[i])) ==> Fold([], newList) == list
  {
    if forall i :: 0 <= i < |list| ==> Clean(list[i]) {
      assert newList == list;
    }
  }

  /**
   * A directive right after a directive-free node: the pair decorates into
   * that node with the directive's properties applied.
   */
  lemma DirectiveAfterElement(n: Node, d: Node, props: PropertyMap)
    requires Clean(n) && Safe(d) && ParseComment(d) == Some(props)
    ensures Decoratable(n) && Decoratable(d)
    ensures DecorateFragment([n, d]) == [ApplyProps(n, props)]
  {
    PairIdle(n, d);
    IdlePair(n, d);
    FragmentOfIdle([n, d]);
    FoldPair(n, d, props);
  }

  /** A directive-free node and a directive both come back from `decorate` as they are. */
  lemma PairIdle(n: Node, d: Node)
    requires Clean(n) && Safe(d) && d.Comment?
    ensures Decoratable(n) && Decoratable(d) && Safe(n) && !IsDirective(n)
    ensures Decorate(n) == n && Decorate(d) == d
  {
    CleanDecoratable(n);
  }

  /** Every entry of the list comes back from `decorate` as it is. */
  predicate Idle(list: seq<Node>) {
    forall i :: 0 <= i < |list| ==> Decoratable(list[i]) && Decorate(list[i]) == list[i]
  }

  /** A list whose entries `decorate` leaves as they are folds as it stands. */
  lemma FragmentOfIdle(list: seq<Node>)
    requires Idle(list)
    ensures (forall i :: 0 <= i < |list| ==> Safe(list[i])) && DecorateFragment(list) == Fold([], list)
  {
    FragmentOf(list, list);
  }

  /** `decorateFragment` folds the list of its decorated entries. */
  lemma FragmentOf(list: seq<Node>, newList: seq<Node>)
    requires forall i :: 0 <= i < |list| ==> Decoratable(list[i])
    requires |newList| == |list| && forall i :: 0 <= i < |list| ==> newList[i] == Decorate(list[i])
    requires forall i :: 0 <= i < |newList| ==> Safe(newList[i])
    ensures DecorateFragment(list) == Fold([], newList)
  {
    assert seq(|list|, i requires 0 <= i < |list| => Decorate(list[i])) == newList;
  }

  lemma IdlePair(n: Node, d: Node)
    requires Decoratable(n) && Decoratable(d) && Decorate(n) == n && Decorate(d) == d
    ensures Idle([n, d])
  {
  }

  lemma FoldPair(n: Node, d: Node, props: PropertyMap)
    requires Safe(n) && !IsDirective(n) && Safe(d) && ParseComment(d) == Some(props)
    ensures Fold([], [n, d]) == [ApplyProps(n, props)]
  {
    assert [n, d][1..] == [d];
    var one := ReduceNodes([n], d);
    assert |one| == 1 && one[0] == ApplyProps(n, props);
  }

  /** Lists that agree entry by entry on being directives keep as many entries. */
  lemma {:induction false} KeptSame(a: seq<Node>, b: seq<Node>)
    requires |a| == |b| && forall i :: 0 <= i < |a| ==> (IsDirective(a[i]) <==> IsDirective(b[i]))
    ensures Kept(a) == Kept(b)
  {
    if a != [] {
      KeptSame(a[1..], b[1..]);
    }
  }
}
