/**
 * The part of ElementTree the job-spec compiler uses: elements as values,
 * and a node whose list of children grows in place.
 */
module Xml {
  import opened Wrappers

  /** An element: its tag, its attribute dictionary, its text and its children in document order. */
  datatype Element = Element(tag: string, attrs: map<string, string>, text: Option<string>, children: seq<Element>)

  /** A childless element without attributes, holding `text`. */
  function Leaf(tag: string, text: Option<string>): Element {
    Element(tag, map[], text, [])
  }

  /** The elements of `es` that carry `tag`, in document order (`Element.findall(tag)` on their parent). */
  function Tagged(es: seq<Element>, tag: string): (r: seq<Element>)
    ensures |r| <= |es|
    ensures forall k :: 0 <= k < |r| ==> r[k].tag == tag && r[k] in es
  {
    if |es| == 0 then []
    else (if es[0].tag == tag then [es[0]] else []) + Tagged(es[1..], tag)
  }

  lemma {:induction false} TaggedConcat(a: seq<Element>, b: seq<Element>, tag: string)
    ensures Tagged(a + b, tag) == Tagged(a, tag) + Tagged(b, tag)
  {
    if |a| > 0 {
      assert (a + b)[0] == a[0] && (a + b)[1..] == a[1..] + b;
      TaggedConcat(a[1..], b, tag);
    } else {
      assert a + b == b;
    }
  }

  lemma TaggedSingle(e: Element, tag: string)
    ensures Tagged([e], tag) == if e.tag == tag then [e] else []
  {
    assert [e][1..] == [];
  }

  /** No element of `es` carries `tag`, so none is found. */
  lemma {:induction false} TaggedNone(es: seq<Element>, tag: string)
    requires forall k :: 0 <= k < |es| ==> es[k].tag != tag
    ensures Tagged(es, tag) == []
  {
    if |es| > 0 {
      TaggedNone(es[1..], tag);
    }
  }

  /** Every element of `es` carries `tag`, so all are found, in order. */
  lemma {:induction false} TaggedAll(es: seq<Element>, tag: string)
    requires forall k :: 0 <= k < |es| ==> es[k].tag == tag
    ensures Tagged(es, tag) == es
  {
    if |es| > 0 {
      TaggedAll(es[1..], tag);
      assert es == [es[0]] + es[1..];
    }
  }

  /** Exactly the element at `i` carries `tag`, so it alone is found. */
  lemma TaggedUnique(es: seq<Element>, i: nat, tag: string)
    requires i < |es| && es[i].tag == tag
    requires forall j :: 0 <= j < |es| && j != i ==> es[j].tag != tag
    ensures Tagged(es, tag) == [es[i]]
  {
    var before, after := es[..i], es[i + 1..];
    assert es == before + [es[i]] + after;
    TaggedConcat(before + [es[i]], after, tag);
    TaggedConcat(before, [es[i]], tag);
    TaggedNone(before, tag);
    TaggedNone(after, tag);
    TaggedSingle(es[i], tag);
  }

  /** When none of `head` and `tail` carries `tag`, only the elements of `mid` are found. */
  lemma TaggedBetween(head: seq<Element>, mid: seq<Element>, tail: seq<Element>, tag: string)
    requires forall k :: 0 <= k < |head| ==> head[k].tag != tag
    requires forall k :: 0 <= k < |tail| ==> tail[k].tag != tag
    ensures Tagged(head + mid + tail, tag) == Tagged(mid, tag)
  {
    TaggedConcat(head + mid, tail, tag);
    TaggedConcat(head, mid, tag);
    TaggedNone(head, tag);
    TaggedNone(tail, tag);
  }

  /** An element under construction: its tag and attributes are fixed, its children are appended one by one. */
  class ElementNode {
    const tag: string
    const attrs: map<string, string>
    var children: seq<Element>

    /** `Et.Element(tag, attrs)`. */
    constructor(tag: string, attrs: map<string, string>)
      ensures this.tag == tag && this.attrs == attrs && children == []
    {
      this.tag := tag;
      this.attrs := attrs;
      children := [];
    }

    /** The element as it stands now. */
    function Value(): Element
      reads this
    {
      Element(tag, attrs, None, children)
    }

    /** `parent.append(e)`: `e` becomes the last child. */
    method Append(e: Element)
      modifies this
      ensures children == old(children) + [e]
    {
      children := children + [e];
    }
  }
}
