/**
 The parsed XML document as an immutable tree, and the two ElementTree
 queries the extractor uses with a `.//tag` path: `findall`, all proper
 descendants carrying the tag in document order, and `find`, the first of them.
 Tags are qualified names `{namespace}local` compared as opaque strings.
 */
module ElementTree {
  import opened Options
  import opened Seqs

  datatype Element = Element(tag: string, text: Option<string>, children: seq<Element>)

  /** Number of elements in the tree rooted at `e`. */
  function Size(e: Element): nat
    decreases e, 1
  {
    1 + ForestSize(e.children)
  }

  /** Number of elements in the trees of a forest. */
  function ForestSize(cs: seq<Element>): nat
    decreases cs, 0
  {
    if cs == [] then 0 else Size(cs[0]) + ForestSize(cs[1..])
  }

  /** The proper descendants of `e` in document order (`iter()` without
      `e` itself). */
  function Descendants(e: Element): seq<Element>
    decreases e, 1
  {
    Preorder(e.children)
  }

  /** Each tree of the forest in document order: its root, then the root's
      descendants, then the following trees. */
  function Preorder(cs: seq<Element>): seq<Element>
    decreases cs, 0
  {
    if cs == [] then [] else [cs[0]] + Descendants(cs[0]) + Preorder(cs[1..])
  }

  /** Every element below `e` is listed once per occurrence, and each is
      strictly smaller than `e`. */
  lemma {:induction false} DescendantsSize(e: Element)
    ensures |Descendants(e)| == Size(e) - 1
    ensures forall x :: x in Descendants(e) ==> Size(x) < Size(e)
    decreases e, 1
  {
    PreorderSize(e.children);
  }

  lemma {:induction false} PreorderSize(cs: seq<Element>)
    ensures |Preorder(cs)| == ForestSize(cs)
    ensures forall x :: x in Preorder(cs) ==> Size(x) <= ForestSize(cs)
    decreases cs, 0
  {
    if cs != [] {
      DescendantsSize(cs[0]);
      PreorderSize(cs[1..]);
    }
  }

  /** An element is never among its own descendants. */
  lemma {:induction false} NotOwnDescendant(e: Element)
    ensures e !in Descendants(e)
  {
    DescendantsSize(e);
  }

  /** Membership in a forest's pre-order: a root of the forest or a
      descendant of one. */
  lemma {:induction false} PreorderMembers(cs: seq<Element>, x: Element)
    ensures x in Preorder(cs) <==> exists c :: c in cs && (x == c || x in Descendants(c))
    decreases cs
  {
    if cs != [] {
      PreorderMembers(cs[1..], x);
      if x in Preorder(cs) {
        if x == cs[0] || x in Descendants(cs[0]) {
          assert cs[0] in cs;
        } else {
          var c :| c in cs[1..] && (x == c || x in Descendants(c));
          assert c in cs;
        }
      }
      if exists c :: c in cs && (x == c || x in Descendants(c)) {
        var c :| c in cs && (x == c || x in Descendants(c));
        if c != cs[0] {
          assert c in cs[1..];
        }
      }
    }
  }

  /** The descendants of `e` are its children and their descendants. */
  lemma {:induction false} DescendantMembers(e: Element, x: Element)
    ensures x in Descendants(e) <==> exists c :: c in e.children && (x == c || x in Descendants(c))
  {
    PreorderMembers(e.children, x);
  }

  /** A descendant of a descendant is a descendant. */
  lemma {:induction false} DescendantTransitive(e: Element, c: Element, x: Element)
    requires c in Descendants(e) && x in Descendants(c)
    ensures x in Descendants(e)
    decreases e
  {
    DescendantMembers(e, c);
    var d :| d in e.children && (c == d || c in Descendants(d));
    if c != d {
      DescendantTransitive(d, c, x);
    }
    DescendantMembers(e, x);
  }

  /** The elements of `xs` carrying `tag`, in their order in `xs`. */
  function Tagged(xs: seq<Element>, tag: string): seq<Element>
  {
    if xs == [] then []
    else if xs[0].tag == tag then [xs[0]] + Tagged(xs[1..], tag)
    else Tagged(xs[1..], tag)
  }

  /** Filtering keeps exactly the elements carrying the tag and adds none. */
  lemma {:induction false} TaggedMembers(xs: seq<Element>, tag: string)
    ensures |Tagged(xs, tag)| <= |xs|
    ensures forall x :: x in Tagged(xs, tag) <==> x in xs && x.tag == tag
    decreases xs
  {
    if xs != [] {
      TaggedMembers(xs[1..], tag);
      assert forall x :: x in xs <==> x == xs[0] || x in xs[1..];
    }
  }

  lemma {:induction false} TaggedCons(x: Element, xs: seq<Element>, tag: string)
    ensures Tagged([x] + xs, tag) == (if x.tag == tag then [x] else []) + Tagged(xs, tag)
  {
    assert ([x] + xs)[1..] == xs;
  }

  lemma {:induction false} TaggedSingle(x: Element, tag: string)
    ensures Tagged([x], tag) == (if x.tag == tag then [x] else [])
  {
    assert [x][1..] == [];
  }

  lemma {:induction false} TaggedAppend(a: seq<Element>, b: seq<Element>, tag: string)
    ensures Tagged(a + b, tag) == Tagged(a, tag) + Tagged(b, tag)
    decreases a
  {
    if a == [] {
      assert a + b == b;
    } else {
      assert (a + b)[0] == a[0];
      assert (a + b)[1..] == a[1..] + b;
      TaggedAppend(a[1..], b, tag);
      if a[0].tag == tag {
        ConcatAssoc([a[0]], Tagged(a[1..], tag), Tagged(b, tag));
      }
    }
  }

  /** The first element of `Tagged(xs, tag)` is the first element of `xs`
      that carries `tag`. */
  lemma {:induction false} TaggedFirst(xs: seq<Element>, tag: string)
    requires Tagged(xs, tag) != []
    ensures exists i :: 0 <= i < |xs| && xs[i] == Tagged(xs, tag)[0]
                        && forall j :: 0 <= j < i ==> xs[j].tag != tag
    decreases xs
  {
    if xs[0].tag != tag {
      TaggedFirst(xs[1..], tag);
      var k :| 0 <= k < |xs[1..]| && xs[1..][k] == Tagged(xs[1..], tag)[0]
               && forall j :: 0 <= j < k ==> xs[1..][j].tag != tag;
      assert xs[k + 1] == Tagged(xs, tag)[0];
      assert forall j :: 0 <= j < k + 1 ==> xs[j].tag != tag by {
        forall j | 0 <= j < k + 1
          ensures xs[j].tag != tag
        {
          if j > 0 {
            assert xs[j] == xs[1..][j - 1];
          }
        }
      }
    }
  }

  /** `e.findall('.//' + tag)`. */
  function FindAll(e: Element, tag: string): seq<Element>
  {
    Tagged(Descendants(e), tag)
  }

  /** `findall` returns exactly the descendants carrying the tag, never the
      element it is called on. */
  lemma {:induction false} FindAllMembers(e: Element, tag: string)
    ensures forall x :: x in FindAll(e, tag) <==> x in Descendants(e) && x.tag == tag
    ensures e !in FindAll(e, tag)
  {
    NotOwnDescendant(e);
    TaggedMembers(Descendants(e), tag);
  }

  /** `e.find('.//' + tag)`: the first match of `findall`, or `None`. */
  function Find(e: Element, tag: string): Option<Element>
  {
    var all := FindAll(e, tag);
    if all == [] then None else Some(all[0])
  }

  /** `find` fails exactly when no descendant carries the tag; otherwise it
      returns a descendant carrying the tag with none before it in document
      order. */
  lemma {:induction false} FindFirst(e: Element, tag: string)
    ensures Find(e, tag).None? <==> forall x :: x in Descendants(e) ==> x.tag != tag
    ensures Find(e, tag).Some? ==>
              var r := Find(e, tag).value;
              r.tag == tag
              && exists i :: 0 <= i < |Descendants(e)| && Descendants(e)[i] == r
                             && forall j :: 0 <= j < i ==> Descendants(e)[j].tag != tag
  {
    FindAllMembers(e, tag);
    if Find(e, tag).Some? {
      TaggedFirst(Descendants(e), tag);
    }
  }
}
