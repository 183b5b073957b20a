/** WCAG 3.1.1 (language of page): the text of the page outside any element
    that declares its own language is collected, and when it is long enough
    and the identifier confidently finds a language other than the declared
    one, the page is reported once, at `/html`. */
module Wcag311 {
  import opened Py
  import opened Dom
  import opened Infractions
  import opened Utils31

  const MinWordsDefault: nat := 5

  /** The stripped text of an element, when it is not empty. */
  function Fragment(e: Element): (r: seq<string>)
    ensures |r| <= 1
    ensures r != [] ==> e.text.Some? && r[0] == Strip(e.text.value) && r[0] != ""
  {
    if e.text.Some? && Strip(e.text.value) != "" then [Strip(e.text.value)] else []
  }

  predicate InTree(dom: Tree, q: seq<nat>) {
    forall k :: 0 <= k < |q| ==> q[k] < |dom|
  }

  /** Taking the head of the worklist and queueing its children shrinks the
      number of elements still to be visited. */
  lemma QueueShrinks(dom: Tree, q: seq<nat>)
    requires WellFormed(dom) && InTree(dom, q) && q != []
    ensures InTree(dom, q[1..] + dom[q[0]].children)
    ensures ForestSize(dom, q[1..] + dom[q[0]].children, -1) < ForestSize(dom, q, -1)
    ensures ForestSize(dom, q[1..], -1) < ForestSize(dom, q, -1)
  {
    var cs := dom[q[0]].children;
    ForestSizeAppend(dom, q[1..], cs, -1);
    ForestSizeBound(dom, cs, q[0], -1);
  }

  /** The text fragments `_get_root_text` collects from the worklist `q`: the
      head is dropped with its subtree when its `lang` is set to a non-empty
      value; otherwise its children join the back of the worklist and its
      stripped text, if any, is kept. */
  function RootParts(dom: Tree, q: seq<nat>): seq<string>
    requires WellFormed(dom) && InTree(dom, q)
    decreases ForestSize(dom, q, -1)
  {
    if q == [] then []
    else
      QueueShrinks(dom, q);
      var e := dom[q[0]];
      if HasTruthy(e, "lang") then RootParts(dom, q[1..])
      else Fragment(e) + RootParts(dom, q[1..] + e.children)
  }

  /** The root text of the page whose body is element `body`. */
  function RootText(dom: Tree, body: nat): string
    requires WellFormed(dom) && body < |dom|
  {
    Join(RootParts(dom, [body]), " ")
  }

  /** `_get_root_text`: a first-in first-out walk of the body. */
  method GetRootText(dom: Tree, body: nat) returns (text: string)
    requires WellFormed(dom) && body < |dom|
    ensures text == RootText(dom, body)
  {
    var queue := [body];
    var parts := [];
    while queue != []
      invariant InTree(dom, queue)
      invariant parts + RootParts(dom, queue) == RootParts(dom, [body])
      decreases ForestSize(dom, queue, -1)
    {
      QueueShrinks(dom, queue);
      var i := queue[0];
      queue := queue[1..];
      if !HasTruthy(dom[i], "lang") {
        SeqAssoc(parts, Fragment(dom[i]), RootParts(dom, queue + dom[i].children));
        queue := queue + dom[i].children;
        parts := parts + Fragment(dom[i]);
      }
    }
    assert parts + [] == parts;
    text := Join(parts, " ");
  }

  /** `p` goes down the tree from its first element to its last, one child
      at a time, through elements that do not set `lang`; only the last one
      may set it. */
  ghost predicate OpenWalk(dom: Tree, p: seq<nat>) {
    p != [] && (forall k :: 0 <= k < |p| ==> p[k] < |dom|)
    && (forall k :: 0 <= k < |p| - 1 ==> p[k + 1] in dom[p[k]].children && !HasTruthy(dom[p[k]], "lang"))
  }

  /** Element `i` is met on the way down from `body` without passing below
      an element that sets `lang`. */
  ghost predicate Reached(dom: Tree, body: nat, i: nat) {
    exists p :: OpenWalk(dom, p) && p[0] == body && p[|p| - 1] == i
  }

  /** Element `i` sets no `lang`, and no element between `body` and it does:
      its text belongs to the root text. */
  ghost predicate Shown(dom: Tree, body: nat, i: nat) {
    i < |dom| && Reached(dom, body, i) && !HasTruthy(dom[i], "lang")
  }

  /** `part` is the stripped text of an element shown from `body`. */
  ghost predicate ShownText(dom: Tree, body: nat, part: string) {
    exists i: nat :: Shown(dom, body, i) && dom[i].text.Some? && Strip(dom[i].text.value) == part
  }

  /** A fragment the walk keeps: non-empty, already stripped, and the text of
      an element shown from `body`. */
  ghost predicate Kept(dom: Tree, body: nat, part: string) {
    part != "" && Strip(part) == part && ShownText(dom, body, part)
  }

  /** The children of a shown element are reached. */
  lemma ChildrenReached(dom: Tree, body: nat, i: nat)
    requires Shown(dom, body, i) && WellFormed(dom)
    ensures forall k :: 0 <= k < |dom[i].children| ==> Reached(dom, body, dom[i].children[k])
  {
    var p :| OpenWalk(dom, p) && p[0] == body && p[|p| - 1] == i;
    forall k | 0 <= k < |dom[i].children|
      ensures Reached(dom, body, dom[i].children[k])
    {
      var c := dom[i].children[k];
      assert OpenWalk(dom, p + [c]);
    }
  }

  /** Every collected fragment is non-empty, already stripped, and the text
      of an element shown from `body`: neither it nor any element between
      `body` and it sets `lang`. */
  lemma {:induction false} RootPartsFromText(dom: Tree, body: nat, q: seq<nat>)
    requires WellFormed(dom) && InTree(dom, q)
    requires forall k :: 0 <= k < |q| ==> Reached(dom, body, q[k])
    ensures forall k :: 0 <= k < |RootParts(dom, q)| ==> Kept(dom, body, RootParts(dom, q)[k])
    decreases ForestSize(dom, q, -1)
  {
    if q != [] {
      QueueShrinks(dom, q);
      var e := dom[q[0]];
      if HasTruthy(e, "lang") {
        RootPartsFromText(dom, body, q[1..]);
      } else {
        var next := q[1..] + e.children;
        ChildrenReached(dom, body, q[0]);
        assert forall k :: 0 <= k < |next| ==> Reached(dom, body, next[k]) by {
          forall k | 0 <= k < |next|
            ensures Reached(dom, body, next[k])
          {
            if k < |q| - 1 {
              assert next[k] == q[k + 1];
            } else {
              assert next[k] == e.children[k - (|q| - 1)];
            }
          }
        }
        RootPartsFromText(dom, body, next);
        FragmentKept(dom, body, q[0]);
        KeptAppend(dom, body, Fragment(e), RootParts(dom, next));
      }
    }
  }

  /** A shown element's fragment, if any, is kept. */
  lemma FragmentKept(dom: Tree, body: nat, i: nat)
    requires Shown(dom, body, i)
    ensures forall k :: 0 <= k < |Fragment(dom[i])| ==> Kept(dom, body, Fragment(dom[i])[k])
  {
    if Fragment(dom[i]) != [] {
      StripIdempotent(dom[i].text.value);
    }
  }

  lemma KeptAppend(dom: Tree, body: nat, a: seq<string>, b: seq<string>)
    requires forall k :: 0 <= k < |a| ==> Kept(dom, body, a[k])
    requires forall k :: 0 <= k < |b| ==> Kept(dom, body, b[k])
    ensures forall k :: 0 <= k < |a + b| ==> Kept(dom, body, (a + b)[k])
  {
  }

  /** Nothing shown is missed: an element that does not set `lang`, met on
      a walk down from an element of the worklist through elements that do
      not set it either, has its fragment collected. */
  lemma {:induction false} RootPartsReach(dom: Tree, q: seq<nat>, p: seq<nat>)
    requires WellFormed(dom) && InTree(dom, q) && OpenWalk(dom, p) && p[0] in q
    requires !HasTruthy(dom[p[|p| - 1]], "lang") && Fragment(dom[p[|p| - 1]]) != []
    ensures Fragment(dom[p[|p| - 1]])[0] in RootParts(dom, q)
    decreases ForestSize(dom, q, -1)
  {
    QueueShrinks(dom, q);
    var e := dom[q[0]];
    var last := p[|p| - 1];
    if HasTruthy(e, "lang") {
      assert |p| > 1 ==> !HasTruthy(dom[p[0]], "lang");
      assert p[0] != q[0];
      assert p[0] in q[1..];
      RootPartsReach(dom, q[1..], p);
    } else {
      var next := q[1..] + e.children;
      assert RootParts(dom, q) == Fragment(e) + RootParts(dom, next);
      if p[0] == q[0] && |p| == 1 {
        assert Fragment(e)[0] in RootParts(dom, q);
      } else if p[0] == q[0] {
        var p' := p[1..];
        assert OpenWalk(dom, p');
        assert p'[0] in e.children;
        assert p'[|p'| - 1] == last;
        RootPartsReach(dom, next, p');
      } else {
        assert p[0] in q[1..];
        RootPartsReach(dom, next, p);
      }
    }
  }

  /** The root text of `body` is made of exactly the texts of the elements
      shown from it: every fragment is one, and every shown element with
      text contributes its fragment. */
  lemma RootPartsShown(dom: Tree, body: nat)
    requires WellFormed(dom) && body < |dom|
    ensures forall k :: 0 <= k < |RootParts(dom, [body])| ==> Kept(dom, body, RootParts(dom, [body])[k])
    ensures forall i: nat :: Shown(dom, body, i) && Fragment(dom[i]) != [] ==> Fragment(dom[i])[0] in RootParts(dom, [body])
  {
    assert OpenWalk(dom, [body]);
    RootPartsFromText(dom, body, [body]);
    forall i: nat | Shown(dom, body, i) && Fragment(dom[i]) != []
      ensures Fragment(dom[i])[0] in RootParts(dom, [body])
    {
      var p :| OpenWalk(dom, p) && p[0] == body && p[|p| - 1] == i;
      RootPartsReach(dom, [body], p);
    }
  }

  lemma StripIdempotent(s: string)
    ensures Strip(Strip(s)) == Strip(s)
  {
  }

  /** A four-element page: a body with two children, the first of which has
      a child of its own; each element holds one letter of text. */
  function Nested(): (dom: Tree)
    ensures WellFormed(dom) && |dom| == 4
  {
    [Element("body", Some("p"), map[], [1, 2], None),
     Element("div", Some("q"), map[], [3], Some(0)),
     Element("div", Some("r"), map[], [], Some(0)),
     Element("span", Some("s"), map[], [], Some(1))]
  }

  /** A head of the worklist that holds one letter and sets no `lang`
      contributes that letter and queues its children. */
  lemma LetterFirst(dom: Tree, q: seq<nat>, w: string)
    requires WellFormed(dom) && InTree(dom, q) && q != []
    requires dom[q[0]].text == Some(w) && |w| == 1 && !IsSpace(w[0]) && dom[q[0]].attrs == map[]
    ensures InTree(dom, q[1..] + dom[q[0]].children)
    ensures RootParts(dom, q) == [w] + RootParts(dom, q[1..] + dom[q[0]].children)
  {
    QueueShrinks(dom, q);
  }

  /** The walk is breadth first: the grandchild's text comes after the
      second child's. */
  lemma BreadthFirstOrder()
    ensures RootParts(Nested(), [0]) == ["p", "q", "r", "s"]
  {
    var dom := Nested();
    NestedFromThird();
    NestedFromSecond();
    LetterFirst(dom, [0], "p");
    assert [0][1..] + dom[0].children == [1, 2];
    ConsLetters();
  }

  lemma ConsLetters()
    ensures ["p"] + (["q"] + (["r"] + ["s"])) == ["p", "q", "r", "s"]
  {
  }

  lemma NestedFromSecond()
    ensures RootParts(Nested(), [1, 2]) == ["q"] + RootParts(Nested(), [2, 3])
  {
    var dom := Nested();
    LetterFirst(dom, [1, 2], "q");
    assert [1, 2][1..] + dom[1].children == [2, 3];
  }

  lemma NestedFromThird()
    ensures RootParts(Nested(), [2, 3]) == ["r"] + ["s"]
  {
    var dom := Nested();
    LetterFirst(dom, [3], "s");
    assert [3][1..] + dom[3].children == [];
    LetterFirst(dom, [2, 3], "r");
    assert [2, 3][1..] + dom[2].children == [3];
  }

  /** A body that sets `lang` contributes nothing, nor does anything below it. */
  lemma PrunedBody(dom: Tree, body: nat)
    requires WellFormed(dom) && body < |dom| && HasTruthy(dom[body], "lang")
    ensures RootText(dom, body) == ""
  {
    assert [body][1..] == [];
    assert RootParts(dom, [body]) == [];
  }

  lemma NoWords()
    ensures CountWords("") == 0
  {
    assert Remove(Remove("", Url), Email) == "";
    assert Tokens("") == [];
  }

  /** `detect_wcag_3_1_1_infractions` once the root text is known: no
      verdict on fewer than five words; otherwise one infraction at `/html`
      exactly when the identifier is confident and disagrees with the
      declared language. */
  function Judge(rootText: string, htmlLanguage: string, classify: Classifier): (r: seq<LanguageInfraction>)
    ensures |r| <= 1
    ensures r != [] <==>
              CountWords(rootText) >= MinWordsDefault && PredictLanguage(classify, rootText).Some?
              && PredictLanguage(classify, rootText).value != htmlLanguage
    ensures r != [] ==>
              r[0] == LanguageInfraction("WCAG_3_1_1", "/html", htmlLanguage, PredictLanguage(classify, rootText).value)
  {
    PredictionTruthy(classify, rootText);
    if CountWords(rootText) < MinWordsDefault then []
    else
      var predicted := PredictLanguage(classify, rootText);
      if Truthy(predicted) && predicted.value != htmlLanguage then
        [LanguageInfraction("WCAG_3_1_1", "/html", htmlLanguage, predicted.value)]
      else []
  }

  /** `detect_wcag_3_1_1_infractions`. A body that declares its own language
      has no root text and is never reported. */
  method DetectWcag311(dom: Tree, body: nat, htmlLanguage: string, classify: Classifier)
      returns (infractions: seq<LanguageInfraction>)
    requires WellFormed(dom) && body < |dom|
    ensures infractions == Judge(RootText(dom, body), htmlLanguage, classify)
    ensures HasTruthy(dom[body], "lang") ==> infractions == []
  {
    var rootText := GetRootText(dom, body);
    if HasTruthy(dom[body], "lang") {
      PrunedBody(dom, body);
      NoWords();
    }
    infractions := Judge(rootText, htmlLanguage, classify);
  }
}
