/** The document tree both families walk: the live DOM the browser exposes to
    the contrast checks and the lxml tree the language checks parse. It is an
    arena: every element is addressed by its index and lists its children by
    index, in document order. */
module Dom {
  import opened Py

  datatype Element = Element(
    tag: string,
    text: Option<string>,        // the text before the first child, if any
    attrs: map<string, string>,
    children: seq<nat>,
    parent: Option<nat>)

  type Tree = seq<Element>

  /** Children come after their parent and a parent before its child, so every
      walk down or up the tree terminates. */
  predicate WellFormed(dom: Tree) {
    (forall i, k :: 0 <= i < |dom| && 0 <= k < |dom[i].children| ==> i < dom[i].children[k] < |dom|)
    && (forall i :: 0 <= i < |dom| && dom[i].parent.Some? ==> dom[i].parent.value < i)
  }

  /** `element.get(name)` yields a non-empty value. */
  predicate HasTruthy(e: Element, name: string) {
    name in e.attrs && e.attrs[name] != ""
  }

  /** The number of elements in the subtree rooted at `i`. */
  function Size(dom: Tree, i: nat): (n: nat)
    requires WellFormed(dom) && i < |dom|
    ensures n >= 1
    decreases |dom| - i, 1
  {
    1 + ForestSize(dom, dom[i].children, i)
  }

  /** The number of elements in the subtrees rooted at the indices of `q`,
      all of which lie above `lo`. */
  function ForestSize(dom: Tree, q: seq<nat>, lo: int): (n: nat)
    requires WellFormed(dom) && -1 <= lo
    requires forall k :: 0 <= k < |q| ==> lo < q[k] < |dom|
    ensures q != [] ==> n >= |q|
    decreases |dom| - lo, 0, |q|
  {
    if q == [] then 0 else Size(dom, q[0]) + ForestSize(dom, q[1..], lo)
  }

  lemma {:induction false} ForestSizeAppend(dom: Tree, a: seq<nat>, b: seq<nat>, lo: int)
    requires WellFormed(dom) && -1 <= lo
    requires forall k :: 0 <= k < |a| ==> lo < a[k] < |dom|
    requires forall k :: 0 <= k < |b| ==> lo < b[k] < |dom|
    ensures ForestSize(dom, a + b, lo) == ForestSize(dom, a, lo) + ForestSize(dom, b, lo)
    decreases |a|
  {
    if a == [] {
      assert a + b == b;
    } else {
      assert (a + b)[1..] == a[1..] + b;
      ForestSizeAppend(dom, a[1..], b, lo);
    }
  }

  /** The forest size does not depend on the lower bound it was computed with. */
  lemma {:induction false} ForestSizeBound(dom: Tree, q: seq<nat>, lo: int, lo': int)
    requires WellFormed(dom) && -1 <= lo && -1 <= lo'
    requires forall k :: 0 <= k < |q| ==> lo < q[k] < |dom| && lo' < q[k]
    ensures ForestSize(dom, q, lo) == ForestSize(dom, q, lo')
    decreases |q|
  {
    if q != [] {
      ForestSizeBound(dom, q[1..], lo, lo');
    }
  }
}
