/**
 * The slice of xml.etree.ElementTree the reader uses, over an already parsed
 * document: attribute lookup, `iter(tag)` and the fixed `find`/`findall`
 * paths, which only ever step from an element to its children.
 */
module Xml {
  import opened Wrappers

  datatype Element = Element(tag: string, attrs: map<string, string>, children: seq<Element>)

  /** `element.get(name)`: the attribute's value, or None when it is absent. */
  function Get(e: Element, name: string): (r: Option<string>)
    ensures r.Some? <==> name in e.attrs
    ensures r.Some? ==> r.value == e.attrs[name]
  {
    if name in e.attrs then Some(e.attrs[name]) else None
  }

  /** `element.iter(tag)`: the element and all its descendants carrying `tag`, in document (pre-)order. */
  function Iter(e: Element, tag: string): (r: seq<Element>)
    ensures forall x <- r :: x.tag == tag
    ensures e.tag == tag ==> |r| > 0 && r[0] == e
    decreases e
  {
    (if e.tag == tag then [e] else []) + IterForest(e.children, tag)
  }

  /** The `iter(tag)` results of a sequence of sibling elements, concatenated in order. */
  function IterForest(es: seq<Element>, tag: string): (r: seq<Element>)
    ensures forall x <- r :: x.tag == tag
    decreases es
  {
    if es == [] then [] else Iter(es[0], tag) + IterForest(es[1..], tag)
  }

  /** `iter` does not stop at a match: every match inside a child is a match of the parent. */
  lemma {:induction false} IterIncludesNested(e: Element, tag: string, i: nat, x: Element)
    requires i < |e.children| && x in Iter(e.children[i], tag)
    ensures x in Iter(e, tag)
  {
    IterForestIncludes(e.children, tag, i, x);
  }

  lemma {:induction false} IterForestIncludes(es: seq<Element>, tag: string, i: nat, x: Element)
    requires i < |es| && x in Iter(es[i], tag)
    ensures x in IterForest(es, tag)
    decreases i
  {
    if i > 0 {
      assert es[1..][i - 1] == es[i];
      IterForestIncludes(es[1..], tag, i - 1, x);
    }
  }

  /** One step of an ElementPath expression: a child tag with an optional `[@attr='value']` predicate. */
  datatype Step = Step(tag: string, filter: Option<(string, string)>)

  function Child(tag: string): Step
  {
    Step(tag, None)
  }

  function ChildWith(tag: string, attr: string, value: string): Step
  {
    Step(tag, Some((attr, value)))
  }

  predicate Matches(e: Element, s: Step)
  {
    e.tag == s.tag && (s.filter.Some? ==> Get(e, s.filter.value.0) == Some(s.filter.value.1))
  }

  /** The elements of `es` that match `s`, in their order. */
  function Filter(es: seq<Element>, s: Step): (r: seq<Element>)
    ensures forall x <- r :: x in es && Matches(x, s)
    ensures forall x <- es :: Matches(x, s) ==> x in r
    ensures |r| <= |es|
  {
    if es == [] then [] else (if Matches(es[0], s) then [es[0]] else []) + Filter(es[1..], s)
  }

  /** One path step applied to a node list: the matching children of each node, node by node. */
  function SelectStep(es: seq<Element>, s: Step): (r: seq<Element>)
    ensures forall x :: x in r <==> exists y <- es :: x in y.children && Matches(x, s)
  {
    if es == [] then [] else Filter(es[0].children, s) + SelectStep(es[1..], s)
  }

  function Select(es: seq<Element>, path: seq<Step>): seq<Element>
    decreases |path|
  {
    if path == [] then es else SelectStep(Select(es, path[..|path| - 1]), path[|path| - 1])
  }

  /** `element.findall(path)` for a path of child steps. */
  function FindAll(e: Element, path: seq<Step>): (r: seq<Element>)
    ensures path != [] ==> forall x <- r :: Matches(x, path[|path| - 1])
  {
    Select([e], path)
  }

  /** `element.find(path)`: the first element `findall` would return, or None. */
  function Find(e: Element, path: seq<Step>): (r: Option<Element>)
    ensures r.None? <==> FindAll(e, path) == []
    ensures r.Some? ==> r.value == FindAll(e, path)[0]
  {
    var all := FindAll(e, path);
    if all == [] then None else Some(all[0])
  }

  /** A two-step path `./A/B` finds exactly the B-children of the A-children. */
  lemma FindAllTwoSteps(e: Element, s1: Step, s2: Step, x: Element)
    ensures x in FindAll(e, [s1, s2]) <==>
              exists c <- e.children :: Matches(c, s1) && x in c.children && Matches(x, s2)
  {
    assert [s1, s2][..1] == [s1];
    assert [s1][..0] == [];
    var firsts := Select([e], [s1]);
    assert Select([e], [s1][..0]) == [e];
    assert firsts == SelectStep([e], s1);
    assert FindAll(e, [s1, s2]) == SelectStep(firsts, s2);
    assert forall c :: c in firsts <==> c in e.children && Matches(c, s1);
  }
}
