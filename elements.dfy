/** A parsed XML document as ElementTree presents it, and the descendant search
    behind root.findall('.//tag'). */
module Elements {
  import opened Wrappers

  /** One element: its tag, its text (None when the element has no text before its first
      child) and its children in document order. Attributes and tail text are not modelled. */
  datatype Element = Element(tag: string, text: Option<string>, children: seq<Element>)

  /** The tags of a sequence of elements, in order. */
  function Tags(cs: seq<Element>): (ts: seq<string>)
    ensures |ts| == |cs|
  {
    if |cs| == 0 then [] else Tags(cs[..|cs| - 1]) + [cs[|cs| - 1].tag]
  }

  /** Position i of Tags(cs) is the tag of cs[i]. */
  lemma {:induction false} TagsAt(cs: seq<Element>)
    ensures forall i :: 0 <= i < |cs| ==> Tags(cs)[i] == cs[i].tag
  {
    if |cs| > 0 {
      TagsAt(cs[..|cs| - 1]);
    }
  }

  /** Number of elements in the trees rooted at cs. */
  function ForestSize(cs: seq<Element>): (n: nat)
    ensures n >= |cs|
    decreases cs
  {
    if |cs| == 0 then 0 else 1 + ForestSize(cs[0].children) + ForestSize(cs[1..])
  }

  /** Every element of the trees rooted at cs, each before its descendants and in
      document order: the order of Element.iter(). */
  ghost function Preorder(cs: seq<Element>): seq<Element>
    decreases cs
  {
    if |cs| == 0 then [] else [cs[0]] + Preorder(cs[0].children) + Preorder(cs[1..])
  }

  /** The descendants of e, e itself excluded. */
  ghost function Descendants(e: Element): seq<Element> {
    Preorder(e.children)
  }

  /** The elements of xs whose tag is t, order kept. */
  ghost function WithTag(xs: seq<Element>, t: string): seq<Element> {
    if |xs| == 0 then [] else (if xs[0].tag == t then [xs[0]] else []) + WithTag(xs[1..], t)
  }

  /** Element.iter(t) run over each tree of cs in turn: the elements tagged t, in
      document order. */
  function IterAll(cs: seq<Element>, t: string): (ms: seq<Element>)
    ensures forall e :: e in ms ==> e.tag == t
    ensures |ms| <= ForestSize(cs)
    decreases cs
  {
    if |cs| == 0 then []
    else (if cs[0].tag == t then [cs[0]] else []) + IterAll(cs[0].children, t) + IterAll(cs[1..], t)
  }

  /** root.findall('.//' + t): the descendant path iterates each child of the root, so
      the result is the root's descendants tagged t, in document pre-order. */
  function FindAll(root: Element, t: string): (ms: seq<Element>)
    ensures ms == WithTag(Descendants(root), t)
  {
    IterAllIsFilteredPreorder(root.children, t);
    IterAll(root.children, t)
  }

  lemma {:induction false} WithTagAppend(xs: seq<Element>, ys: seq<Element>, t: string)
    ensures WithTag(xs + ys, t) == WithTag(xs, t) + WithTag(ys, t)
  {
    if |xs| > 0 {
      assert (xs + ys)[1..] == xs[1..] + ys;
      WithTagAppend(xs[1..], ys, t);
    } else {
      assert xs + ys == ys;
    }
  }

  /** The search yields exactly the pre-order list of the trees filtered by tag. */
  lemma {:induction false} IterAllIsFilteredPreorder(cs: seq<Element>, t: string)
    ensures IterAll(cs, t) == WithTag(Preorder(cs), t)
    decreases cs
  {
    if |cs| > 0 {
      IterAllIsFilteredPreorder(cs[0].children, t);
      IterAllIsFilteredPreorder(cs[1..], t);
      WithTagAppend([cs[0]], Preorder(cs[0].children), t);
      WithTagAppend([cs[0]] + Preorder(cs[0].children), Preorder(cs[1..]), t);
      assert WithTag([cs[0]], t) == if cs[0].tag == t then [cs[0]] else [];
    }
  }

  /** Every element in the pre-order of cs is no larger than the whole forest. */
  lemma {:induction false} PreorderSmaller(cs: seq<Element>, x: Element)
    requires x in Preorder(cs)
    ensures 1 + ForestSize(x.children) <= ForestSize(cs)
    decreases cs
  {
    if x == cs[0] {
    } else if x in Preorder(cs[0].children) {
      PreorderSmaller(cs[0].children, x);
    } else {
      assert x in Preorder(cs[1..]);
      PreorderSmaller(cs[1..], x);
    }
  }

  /** The root is never one of its own descendants, so findall('.//t') never yields it. */
  lemma RootNotDescendant(root: Element)
    ensures root !in Descendants(root)
  {
    if root in Descendants(root) {
      PreorderSmaller(root.children, root);
    }
  }

  /** Every direct child tagged t is found: there are at least as many matches as children
      with that tag. */
  lemma {:induction false} IterAllCoversRoots(cs: seq<Element>, t: string)
    ensures |IterAll(cs, t)| >= multiset(Tags(cs))[t]
    decreases cs
  {
    if |cs| > 0 {
      IterAllCoversRoots(cs[1..], t);
      TagsCons(cs);
      var head := if cs[0].tag == t then [cs[0]] else [];
      assert IterAll(cs, t) == head + IterAll(cs[0].children, t) + IterAll(cs[1..], t);
      assert multiset(Tags(cs))[t] == |head| + multiset(Tags(cs[1..]))[t];
    }
  }

  /** The tags of cs are the first child's tag followed by the tags of the rest. */
  lemma TagsUncons(cs: seq<Element>)
    requires |cs| > 0
    ensures Tags(cs) == [cs[0].tag] + Tags(cs[1..])
  {
    var ts, rest := Tags(cs), Tags(cs[1..]);
    TagsAt(cs);
    TagsAt(cs[1..]);
    forall i | 0 <= i < |ts| ensures ts[i] == ([cs[0].tag] + rest)[i] {
      if i > 0 {
        assert cs[1..][i - 1] == cs[i];
      }
    }
  }

  /** The multiset of tags splits into the first child's tag and the rest. */
  lemma TagsCons(cs: seq<Element>)
    requires |cs| > 0
    ensures multiset(Tags(cs)) == multiset{cs[0].tag} + multiset(Tags(cs[1..]))
  {
    TagsUncons(cs);
  }

  lemma FindAllCoversChildren(root: Element, t: string)
    ensures |FindAll(root, t)| >= multiset(Tags(root.children))[t]
  {
    IterAllCoversRoots(root.children, t);
  }
}
