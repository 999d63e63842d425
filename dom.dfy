/**
 * The part of the DOM that the client scripts read and change. A document is a
 * sequence of nodes in document order; each names its parent by index, and a
 * parent always comes before its children. Tag names are lower-case local names.
 * The class lists are kept apart from the nodes because they are the only thing
 * the scripts change: the `classes` field of `Document`.
 */
module Dom {
  import opened Wrappers
  import opened Text

  datatype Node = Node(tag: string, attrs: map<string, string>, parent: int, isElement: bool)

  /** Parents precede their children and are elements; -1 marks a node without a parent. */
  predicate WellFormed(nodes: seq<Node>)
  {
    forall i :: 0 <= i < |nodes| ==>
      -1 <= nodes[i].parent < i && (nodes[i].parent >= 0 ==> nodes[nodes[i].parent].isElement)
  }

  /** A class-list assignment for `nodes`. */
  predicate Fits(nodes: seq<Node>, cls: seq<set<string>>)
  {
    WellFormed(nodes) && |cls| == |nodes|
  }

  /** An attribute test of a CSS compound selector: `[name]` or `[name*="sub"]`. */
  datatype AttrTest = HasAttr(name: string) | AttrContains(name: string, sub: string)

  /** A compound selector: an optional tag, required classes and attribute tests. */
  datatype Compound = Compound(tag: Option<string>, classNames: seq<string>, attrTests: seq<AttrTest>)

  /** A compound alone, or one under another: `a b` (descendant) or `a > b` (child). */
  datatype Selector = Simple(c: Compound) | Descendant(anc: Compound, c: Compound) | Child(par: Compound, c: Compound)

  function TagSel(tag: string): Compound { Compound(Some(tag), [], []) }
  function ClassSel(name: string): Compound { Compound(None, [name], []) }

  predicate AttrMatches(n: Node, t: AttrTest)
  {
    match t
    case HasAttr(a) => a in n.attrs
    case AttrContains(a, sub) => a in n.attrs && Contains(n.attrs[a], sub)
  }

  predicate CompoundMatches(n: Node, cls: set<string>, c: Compound)
  {
    n.isElement && (c.tag.Some? ==> n.tag == c.tag.value) &&
    (forall k :: 0 <= k < |c.classNames| ==> c.classNames[k] in cls) &&
    (forall k :: 0 <= k < |c.attrTests| ==> AttrMatches(n, c.attrTests[k]))
  }

  /** Some proper ancestor of node `i` matches `c`. */
  predicate AncestorMatches(nodes: seq<Node>, cls: seq<set<string>>, i: nat, c: Compound)
    requires Fits(nodes, cls) && i < |nodes|
    decreases i
  {
    var p := nodes[i].parent;
    p >= 0 && (CompoundMatches(nodes[p], cls[p], c) || AncestorMatches(nodes, cls, p, c))
  }

  predicate Matches(nodes: seq<Node>, cls: seq<set<string>>, i: nat, sel: Selector)
    requires Fits(nodes, cls) && i < |nodes|
  {
    match sel
    case Simple(c) => CompoundMatches(nodes[i], cls[i], c)
    case Descendant(anc, c) => CompoundMatches(nodes[i], cls[i], c) && AncestorMatches(nodes, cls, i, anc)
    case Child(par, c) =>
      CompoundMatches(nodes[i], cls[i], c) && nodes[i].parent >= 0 &&
      CompoundMatches(nodes[nodes[i].parent], cls[nodes[i].parent], par)
  }

  /** Node `i` matches one of a comma-separated selector list. */
  predicate MatchesAny(nodes: seq<Node>, cls: seq<set<string>>, i: nat, sels: seq<Selector>)
    requires Fits(nodes, cls) && i < |nodes|
  {
    exists k :: 0 <= k < |sels| && Matches(nodes, cls, i, sels[k])
  }

  /** Node `a` is a proper ancestor of node `i`. */
  predicate IsAncestor(nodes: seq<Node>, a: nat, i: nat)
    requires WellFormed(nodes) && i < |nodes|
    decreases i
  {
    var p := nodes[i].parent;
    p >= 0 && (p == a || IsAncestor(nodes, a, p))
  }

  /** Node `i` lies under `root`; `None` stands for the document, which holds every node. */
  predicate InScope(nodes: seq<Node>, root: Option<nat>, i: nat)
    requires WellFormed(nodes) && i < |nodes|
  {
    root.None? || IsAncestor(nodes, root.value, i)
  }

  /** An ancestor comes before its descendant in document order. */
  lemma {:induction false} AncestorBelow(nodes: seq<Node>, a: nat, i: nat)
    requires WellFormed(nodes) && i < |nodes| && IsAncestor(nodes, a, i)
    decreases i
    ensures a < i
  {
    var p := nodes[i].parent;
    if p != a {
      AncestorBelow(nodes, a, p);
    }
  }

  /** No node at or above `i` has `i` as an ancestor. */
  lemma NotAncestorOfAbove(nodes: seq<Node>, i: nat)
    requires WellFormed(nodes) && i < |nodes|
    ensures forall a: nat :: a < |nodes| && (a == i || IsAncestor(nodes, a, i)) ==> !IsAncestor(nodes, i, a)
  {
    forall a: nat | a < |nodes| && (a == i || IsAncestor(nodes, a, i))
      ensures !IsAncestor(nodes, i, a)
    {
      if a != i { AncestorBelow(nodes, a, i); }
      if IsAncestor(nodes, i, a) { AncestorBelow(nodes, i, a); }
    }
  }

  /** element.closest(sels): the node itself or its nearest ancestor that matches. */
  function Closest(nodes: seq<Node>, cls: seq<set<string>>, i: nat, sels: seq<Selector>): (r: Option<nat>)
    requires Fits(nodes, cls) && i < |nodes|
    decreases i
    ensures r.Some? ==> r.value <= i && MatchesAny(nodes, cls, r.value, sels)
    ensures r.Some? ==> r.value == i || IsAncestor(nodes, r.value, i)
    ensures r.Some? ==> forall a: nat :: a < |nodes| && (a == i || IsAncestor(nodes, a, i)) && IsAncestor(nodes, r.value, a) ==>
                          !MatchesAny(nodes, cls, a, sels)
    ensures r.None? ==> !MatchesAny(nodes, cls, i, sels)
    ensures r.None? ==> forall a: nat :: a < |nodes| && IsAncestor(nodes, a, i) ==> !MatchesAny(nodes, cls, a, sels)
  {
    if MatchesAny(nodes, cls, i, sels) then NotAncestorOfAbove(nodes, i); Some(i)
    else if nodes[i].parent < 0 then None
    else Closest(nodes, cls, nodes[i].parent, sels)
  }

  /** The matching nodes under `root` from index `k` on, in document order. */
  function QueryFrom(nodes: seq<Node>, cls: seq<set<string>>, root: Option<nat>, sels: seq<Selector>, k: nat)
    : (r: seq<nat>)
    requires Fits(nodes, cls) && k <= |nodes|
    decreases |nodes| - k
    ensures forall j :: 0 <= j < |r| ==> k <= r[j] < |nodes|
    ensures forall j :: 0 <= j < |r| ==> InScope(nodes, root, r[j]) && MatchesAny(nodes, cls, r[j], sels)
    ensures forall x :: k <= x < |nodes| && InScope(nodes, root, x) && MatchesAny(nodes, cls, x, sels) ==> x in r
    ensures forall j1, j2 :: 0 <= j1 < j2 < |r| ==> r[j1] < r[j2]
  {
    if k == |nodes| then []
    else
      var rest := QueryFrom(nodes, cls, root, sels, k + 1);
      if InScope(nodes, root, k) && MatchesAny(nodes, cls, k, sels) then [k] + rest else rest
  }

  /** root.querySelectorAll(sels), a static list in document order. */
  function QueryAll(nodes: seq<Node>, cls: seq<set<string>>, root: Option<nat>, sels: seq<Selector>): (r: seq<nat>)
    requires Fits(nodes, cls)
    ensures forall j :: 0 <= j < |r| ==> r[j] < |nodes| && InScope(nodes, root, r[j]) && MatchesAny(nodes, cls, r[j], sels)
    ensures forall x :: 0 <= x < |nodes| && InScope(nodes, root, x) && MatchesAny(nodes, cls, x, sels) ==> x in r
    ensures forall j1, j2 :: 0 <= j1 < j2 < |r| ==> r[j1] < r[j2]
  {
    QueryFrom(nodes, cls, root, sels, 0)
  }

  /** root.querySelector(sels): the first match in document order. */
  function QueryFirst(nodes: seq<Node>, cls: seq<set<string>>, root: Option<nat>, sels: seq<Selector>): (r: Option<nat>)
    requires Fits(nodes, cls)
    ensures r.Some? ==> r.value < |nodes| && InScope(nodes, root, r.value) && MatchesAny(nodes, cls, r.value, sels)
    ensures r.Some? ==> forall x :: 0 <= x < r.value && InScope(nodes, root, x) ==> !MatchesAny(nodes, cls, x, sels)
    ensures r.None? ==> forall x :: 0 <= x < |nodes| && InScope(nodes, root, x) ==> !MatchesAny(nodes, cls, x, sels)
  {
    var all := QueryAll(nodes, cls, root, sels);
    if all == [] then None
    else
      Some(all[0])
  }

  /** `classList.add(name)` on node `i`. */
  function AddClass(cls: seq<set<string>>, i: nat, name: string): (r: seq<set<string>>)
    requires i < |cls|
    ensures |r| == |cls| && r[i] == cls[i] + {name}
    ensures forall j :: 0 <= j < |cls| && j != i ==> r[j] == cls[j]
  {
    cls[i := cls[i] + {name}]
  }

  /** `classList.toggle(name, on)` on node `i`. */
  function ToggleClass(cls: seq<set<string>>, i: nat, name: string, on: bool): (r: seq<set<string>>)
    requires i < |cls|
    ensures |r| == |cls| && (name in r[i] <==> on) && r[i] - {name} == cls[i] - {name}
    ensures forall j :: 0 <= j < |cls| && j != i ==> r[j] == cls[j]
  {
    cls[i := if on then cls[i] + {name} else cls[i] - {name}]
  }

  /** The class lists grow pointwise from `c1` to `c2`. */
  predicate Grows(c1: seq<set<string>>, c2: seq<set<string>>)
  {
    |c1| == |c2| && forall i :: 0 <= i < |c1| ==> c1[i] <= c2[i]
  }

  lemma GrowsTransitive(c1: seq<set<string>>, c2: seq<set<string>>, c3: seq<set<string>>)
    requires Grows(c1, c2) && Grows(c2, c3)
    ensures Grows(c1, c3)
  {
  }

  /** A selector list without class tests matches the same nodes whatever the classes are. */
  predicate ClassFree(sels: seq<Selector>)
  {
    forall k :: 0 <= k < |sels| ==> SelectorClassFree(sels[k])
  }

  predicate SelectorClassFree(sel: Selector)
  {
    match sel
    case Simple(c) => CompoundClassFree(c)
    case Descendant(anc, c) => CompoundClassFree(anc) && CompoundClassFree(c)
    case Child(par, c) => CompoundClassFree(par) && CompoundClassFree(c)
  }

  predicate CompoundClassFree(c: Compound) { c.classNames == [] }

  lemma {:induction false} AncestorMatchesClassFree(nodes: seq<Node>, c1: seq<set<string>>, c2: seq<set<string>>,
                                                    i: nat, c: Compound)
    requires Fits(nodes, c1) && Fits(nodes, c2) && i < |nodes| && CompoundClassFree(c)
    decreases i
    ensures AncestorMatches(nodes, c1, i, c) == AncestorMatches(nodes, c2, i, c)
  {
    var p := nodes[i].parent;
    if p >= 0 {
      AncestorMatchesClassFree(nodes, c1, c2, p, c);
    }
  }

  lemma MatchesAnyClassFree(nodes: seq<Node>, c1: seq<set<string>>, c2: seq<set<string>>, i: nat, sels: seq<Selector>)
    requires Fits(nodes, c1) && Fits(nodes, c2) && i < |nodes| && ClassFree(sels)
    ensures MatchesAny(nodes, c1, i, sels) == MatchesAny(nodes, c2, i, sels)
  {
    forall k | 0 <= k < |sels| ensures Matches(nodes, c1, i, sels[k]) == Matches(nodes, c2, i, sels[k]) {
      if sels[k].Descendant? {
        AncestorMatchesClassFree(nodes, c1, c2, i, sels[k].anc);
      }
    }
  }

  /** querySelectorAll with a class-free selector list does not depend on the class lists. */
  lemma {:induction false} QueryFromClassFree(nodes: seq<Node>, c1: seq<set<string>>, c2: seq<set<string>>,
                                              root: Option<nat>, sels: seq<Selector>, k: nat)
    requires Fits(nodes, c1) && Fits(nodes, c2) && k <= |nodes| && ClassFree(sels)
    decreases |nodes| - k
    ensures QueryFrom(nodes, c1, root, sels, k) == QueryFrom(nodes, c2, root, sels, k)
  {
    if k < |nodes| {
      QueryFromClassFree(nodes, c1, c2, root, sels, k + 1);
      MatchesAnyClassFree(nodes, c1, c2, k, sels);
    }
  }

  /** closest() gives the same node under two class assignments on which the selectors agree. */
  lemma {:induction false} ClosestAgree(nodes: seq<Node>, c1: seq<set<string>>, c2: seq<set<string>>,
                                        i: nat, sels: seq<Selector>)
    requires Fits(nodes, c1) && Fits(nodes, c2) && i < |nodes|
    requires forall j :: 0 <= j <= i ==> MatchesAny(nodes, c1, j, sels) == MatchesAny(nodes, c2, j, sels)
    decreases i
    ensures Closest(nodes, c1, i, sels) == Closest(nodes, c2, i, sels)
  {
    if !MatchesAny(nodes, c1, i, sels) && nodes[i].parent >= 0 {
      ClosestAgree(nodes, c1, c2, nodes[i].parent, sels);
    }
  }

  /** closest() with a class-free selector list does not depend on the class lists. */
  lemma ClosestClassFree(nodes: seq<Node>, c1: seq<set<string>>, c2: seq<set<string>>, i: nat, sels: seq<Selector>)
    requires Fits(nodes, c1) && Fits(nodes, c2) && i < |nodes| && ClassFree(sels)
    ensures Closest(nodes, c1, i, sels) == Closest(nodes, c2, i, sels)
  {
    forall j | 0 <= j <= i ensures MatchesAny(nodes, c1, j, sels) == MatchesAny(nodes, c2, j, sels) {
      MatchesAnyClassFree(nodes, c1, c2, j, sels);
    }
    ClosestAgree(nodes, c1, c2, i, sels);
  }

  /** No compound of the selector list tests the class `name`. */
  predicate Avoids(sels: seq<Selector>, name: string)
  {
    forall k :: 0 <= k < |sels| ==> SelectorAvoids(sels[k], name)
  }

  predicate SelectorAvoids(sel: Selector, name: string)
  {
    match sel
    case Simple(c) => name !in c.classNames
    case Descendant(anc, c) => name !in anc.classNames && name !in c.classNames
    case Child(par, c) => name !in par.classNames && name !in c.classNames
  }

  /** Two class assignments that differ at most in the class `name`. */
  predicate SameExcept(c1: seq<set<string>>, c2: seq<set<string>>, name: string)
  {
    |c1| == |c2| && forall j :: 0 <= j < |c1| ==> c1[j] - {name} == c2[j] - {name}
  }

  lemma CompoundAvoids(n: Node, s1: set<string>, s2: set<string>, c: Compound, name: string)
    requires name !in c.classNames && s1 - {name} == s2 - {name}
    ensures CompoundMatches(n, s1, c) == CompoundMatches(n, s2, c)
  {
    forall k | 0 <= k < |c.classNames| ensures c.classNames[k] in s1 <==> c.classNames[k] in s2 {
      assert c.classNames[k] in s1 <==> c.classNames[k] in s1 - {name};
      assert c.classNames[k] in s2 <==> c.classNames[k] in s2 - {name};
    }
  }

  lemma {:induction false} AncestorMatchesAvoids(nodes: seq<Node>, c1: seq<set<string>>, c2: seq<set<string>>,
                                                 i: nat, c: Compound, name: string)
    requires Fits(nodes, c1) && Fits(nodes, c2) && i < |nodes| && SameExcept(c1, c2, name) && name !in c.classNames
    decreases i
    ensures AncestorMatches(nodes, c1, i, c) == AncestorMatches(nodes, c2, i, c)
  {
    var p := nodes[i].parent;
    if p >= 0 {
      CompoundAvoids(nodes[p], c1[p], c2[p], c, name);
      AncestorMatchesAvoids(nodes, c1, c2, p, c, name);
    }
  }

  lemma MatchesAnyAvoids(nodes: seq<Node>, c1: seq<set<string>>, c2: seq<set<string>>, i: nat,
                         sels: seq<Selector>, name: string)
    requires Fits(nodes, c1) && Fits(nodes, c2) && i < |nodes| && SameExcept(c1, c2, name) && Avoids(sels, name)
    ensures MatchesAny(nodes, c1, i, sels) == MatchesAny(nodes, c2, i, sels)
  {
    forall k | 0 <= k < |sels| ensures Matches(nodes, c1, i, sels[k]) == Matches(nodes, c2, i, sels[k]) {
      var sel := sels[k];
      assert SelectorAvoids(sel, name);
      match sel
      case Simple(c) =>
        CompoundAvoids(nodes[i], c1[i], c2[i], c, name);
      case Descendant(anc, c) =>
        CompoundAvoids(nodes[i], c1[i], c2[i], c, name);
        AncestorMatchesAvoids(nodes, c1, c2, i, anc, name);
      case Child(par, c) =>
        CompoundAvoids(nodes[i], c1[i], c2[i], c, name);
        var p := nodes[i].parent;
        if p >= 0 {
          CompoundAvoids(nodes[p], c1[p], c2[p], par, name);
        }
    }
  }

  /** querySelectorAll with a list that never tests `name` does not see changes to `name`. */
  lemma {:induction false} QueryFromAvoids(nodes: seq<Node>, c1: seq<set<string>>, c2: seq<set<string>>,
                                           root: Option<nat>, sels: seq<Selector>, name: string, k: nat)
    requires Fits(nodes, c1) && Fits(nodes, c2) && k <= |nodes| && SameExcept(c1, c2, name) && Avoids(sels, name)
    decreases |nodes| - k
    ensures QueryFrom(nodes, c1, root, sels, k) == QueryFrom(nodes, c2, root, sels, k)
  {
    if k < |nodes| {
      QueryFromAvoids(nodes, c1, c2, root, sels, name, k + 1);
      MatchesAnyAvoids(nodes, c1, c2, k, sels, name);
    }
  }

  /** getAttribute(name): the attribute's value, or None for null. */
  function GetAttribute(n: Node, name: string): (r: Option<string>)
    ensures r.Some? <==> name in n.attrs
  {
    if name in n.attrs then Some(n.attrs[name]) else None
  }

  /** The document whose class lists the scripts change in place. */
  class Document {
    const nodes: seq<Node>
    var classes: seq<set<string>>

    predicate Valid()
      reads this
    {
      Fits(nodes, classes)
    }

    constructor(nodes: seq<Node>, classes: seq<set<string>>)
      requires Fits(nodes, classes)
      ensures Valid() && this.nodes == nodes && this.classes == classes
    {
      this.nodes := nodes;
      this.classes := classes;
    }
  }
}
