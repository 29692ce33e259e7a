/**
 The traversal of `parse_xml` over an already parsed document. An outer loop
 visits every container below the root in document order; for each one it
 appends the container's record and then, in an inner loop, the record of
 every container nested anywhere below it. A nested container is therefore
 emitted once by the outer loop and once more for every container enclosing
 it. A lookup that finds no field raises, and the handler replaces the whole
 result with the empty list.
 */
module Extractor {
  import opened Options
  import opened Seqs
  import opened ElementTree

  const Namespace: string := "{http://autosar.org/schema/r4.0}"
  const ContainerTag: string := Namespace + "ECUC-CONTAINER-VALUE"
  const ShortNameTag: string := Namespace + "SHORT-NAME"
  const DefinitionRefTag: string := Namespace + "DEFINITION-REF"

  /** One row `{'Short Name': ..., 'Definition Ref': ...}`. A field element
      without text has `.text` equal to `None`, which is stored as is. */
  datatype Record = Record(shortName: Option<string>, definitionRef: Option<string>)

  /** The record of container `c`: the text of `find` for SHORT-NAME and
      for DEFINITION-REF, or `None` when either lookup fails (the `.text`
      access on the missing element raises). */
  function RecordOf(c: Element): Option<Record>
  {
    match (Find(c, ShortNameTag), Find(c, DefinitionRefTag))
    case (Some(s), Some(d)) => Some(Record(s.text, d.text))
    case _ => None
  }

  /** A record exists exactly when both fields occur somewhere below the
      container, and its fields are the texts of the first SHORT-NAME and the
      first DEFINITION-REF in document order, which may lie inside a nested
      container. */
  lemma {:induction false} RecordOfFields(c: Element)
    ensures RecordOf(c).None? <==>
              (forall x :: x in Descendants(c) ==> x.tag != ShortNameTag)
              || (forall x :: x in Descendants(c) ==> x.tag != DefinitionRefTag)
    ensures RecordOf(c).Some? ==>
              && RecordOf(c).value.shortName == Find(c, ShortNameTag).value.text
              && RecordOf(c).value.definitionRef == Find(c, DefinitionRefTag).value.text
              && Find(c, ShortNameTag).value.tag == ShortNameTag
              && Find(c, DefinitionRefTag).value.tag == DefinitionRefTag
  {
    FindFirst(c, ShortNameTag);
    FindFirst(c, DefinitionRefTag);
  }

  /** The containers of a forest in document order. */
  function Containers(cs: seq<Element>): seq<Element>
  {
    Tagged(Preorder(cs), ContainerTag)
  }

  /** The containers whose records the two loops append, in append order:
      each container of the outer loop followed by all containers nested
      below it. */
  function Visits(outer: seq<Element>): seq<Element>
  {
    if outer == [] then []
    else [outer[0]] + FindAll(outer[0], ContainerTag) + Visits(outer[1..])
  }

  /** All-or-nothing record building: the records of `vs` in order, or
      `None` as soon as one of them cannot be built. */
  function Records(vs: seq<Element>): (r: Option<seq<Record>>)
    ensures r.Some? <==> forall i :: 0 <= i < |vs| ==> RecordOf(vs[i]).Some?
    ensures r.Some? ==> |r.value| == |vs|
                        && forall i :: 0 <= i < |vs| ==> r.value[i] == RecordOf(vs[i]).value
  {
    if vs == [] then Some([])
    else
      match (RecordOf(vs[0]), Records(vs[1..]))
      case (Some(x), Some(xs)) => Some([x] + xs)
      case _ => None
  }

  /** Every container of the document has both fields. */
  predicate Complete(root: Element) {
    forall x :: x in FindAll(root, ContainerTag) ==> RecordOf(x).Some?
  }

  /** `parse_xml`. `None` stands for a file that `ET.parse` cannot read. */
  function ParseXml(doc: Option<Element>): (data: seq<Record>)
    ensures doc.None? ==> data == []
    ensures doc.Some? && FindAll(doc.value, ContainerTag) == [] ==> data == []
    ensures doc.Some? && !Complete(doc.value) ==> data == []
    ensures doc.Some? && Complete(doc.value) ==>
              var vs := Visits(FindAll(doc.value, ContainerTag));
              |data| == |vs|
              && forall i :: 0 <= i < |vs| ==> RecordOf(vs[i]).Some? && data[i] == RecordOf(vs[i]).value
  {
    match doc
    case None => []
    case Some(root) =>
      var vs := Visits(FindAll(root, ContainerTag));
      VisitsAreContainers(root);
      match Records(vs)
      case None => []
      case Some(rs) => rs
  }

  /** The visits of the outer loop are exactly the document's containers:
      the inner loop only repeats containers the outer loop also visits. */
  lemma {:induction false} VisitsAreContainers(root: Element)
    ensures forall x :: x in Visits(FindAll(root, ContainerTag)) <==> x in FindAll(root, ContainerTag)
  {
    var all := FindAll(root, ContainerTag);
    forall x | x in Visits(all)
      ensures x in all
    {
      VisitsMembers(all, x);
      if x !in all {
        var c :| c in all && x in FindAll(c, ContainerTag);
        FindAllMembers(root, ContainerTag);
        FindAllMembers(c, ContainerTag);
        DescendantTransitive(root, c, x);
      }
    }
    forall x | x in all
      ensures x in Visits(all)
    {
      VisitsIncludeOuter(all, x);
    }
  }

  lemma {:induction false} VisitsIncludeOuter(outer: seq<Element>, x: Element)
    requires x in outer
    ensures x in Visits(outer)
    decreases outer
  {
    if x != outer[0] {
      VisitsIncludeOuter(outer[1..], x);
    }
  }

  lemma {:induction false} VisitsMembers(outer: seq<Element>, x: Element)
    requires x in Visits(outer)
    ensures x in outer || exists c :: c in outer && x in FindAll(c, ContainerTag)
    decreases outer
  {
    if x != outer[0] && x !in FindAll(outer[0], ContainerTag) {
      VisitsMembers(outer[1..], x);
      if x in outer[1..] {
        assert x in outer;
      } else {
        var c :| c in outer[1..] && x in FindAll(c, ContainerTag);
        assert c in outer;
      }
    }
  }

  lemma {:induction false} VisitsAppend(a: seq<Element>, b: seq<Element>)
    ensures Visits(a + b) == Visits(a) + Visits(b)
    decreases a
  {
    if a == [] {
      assert a + b == b;
    } else {
      assert (a + b)[0] == a[0];
      assert (a + b)[1..] == a[1..] + b;
      VisitsAppend(a[1..], b);
      ConcatAssoc([a[0]] + FindAll(a[0], ContainerTag), Visits(a[1..]), Visits(b));
    }
  }

  /** The containers of a non-empty forest: the first tree's root when it is
      a container, the containers below it, then those of the other trees. */
  lemma {:induction false} ContainersCons(cs: seq<Element>)
    requires cs != []
    ensures Containers(cs) == Tagged([cs[0]], ContainerTag) + Containers(cs[0].children)
                              + Containers(cs[1..])
  {
    var c := cs[0];
    assert Preorder(cs) == [c] + Preorder(c.children) + Preorder(cs[1..]);
    TaggedAppend([c] + Preorder(c.children), Preorder(cs[1..]), ContainerTag);
    TaggedAppend([c], Preorder(c.children), ContainerTag);
  }

  /** Sum, over the containers of the forest `cs`, of each one's nesting
      depth: the number of containers enclosing it, where the forest itself
      lies below `d` containers. */
  function NestingDepthSum(cs: seq<Element>, d: nat): nat
    decreases cs
  {
    if cs == [] then 0
    else
      var c := cs[0];
      if c.tag == ContainerTag then d + NestingDepthSum(c.children, d + 1) + NestingDepthSum(cs[1..], d)
      else NestingDepthSum(c.children, d) + NestingDepthSum(cs[1..], d)
  }

  /** One more enclosing container adds one to every container's depth. */
  lemma {:induction false} NestingDepthSumShift(cs: seq<Element>, d: nat)
    ensures NestingDepthSum(cs, d + 1) == NestingDepthSum(cs, d) + |Containers(cs)|
    decreases cs
  {
    if cs != [] {
      var c := cs[0];
      ContainersCons(cs);
      NestingDepthSumShift(cs[1..], d);
      if c.tag == ContainerTag {
        NestingDepthSumShift(c.children, d + 1);
      } else {
        NestingDepthSumShift(c.children, d);
      }
    }
  }

  /** The visits of a forest's containers split along the forest's first tree. */
  lemma {:induction false} VisitsCons(cs: seq<Element>)
    requires cs != []
    ensures |Visits(Containers(cs))|
            == (if cs[0].tag == ContainerTag then 1 + |Containers(cs[0].children)| else 0)
               + |Visits(Containers(cs[0].children))| + |Visits(Containers(cs[1..]))|
  {
    if cs[0].tag == ContainerTag {
      VisitsSplitContainer(cs);
    } else {
      VisitsSplitOther(cs);
    }
  }

  /** The loops visit each container once for itself and once per
      enclosing container: the number of visits is the number of containers
      plus the sum of their nesting depths. */
  lemma {:induction false} VisitCount(cs: seq<Element>)
    ensures |Visits(Containers(cs))| == |Containers(cs)| + NestingDepthSum(cs, 0)
    decreases cs
  {
    if cs != [] {
      VisitCount(cs[0].children);
      VisitCount(cs[1..]);
      VisitCountStep(cs);
    }
  }

  lemma {:induction false} VisitCountStep(cs: seq<Element>)
    requires cs != []
    requires |Visits(Containers(cs[0].children))| == |Containers(cs[0].children)| + NestingDepthSum(cs[0].children, 0)
    requires |Visits(Containers(cs[1..]))| == |Containers(cs[1..])| + NestingDepthSum(cs[1..], 0)
    ensures |Visits(Containers(cs))| == |Containers(cs)| + NestingDepthSum(cs, 0)
  {
    NestingDepthSumOne(cs[0].children);
    NestingDepthSumCons(cs);
    VisitsCons(cs);
    ContainersConsLength(cs);
  }

  lemma {:induction false} NestingDepthSumOne(cs: seq<Element>)
    ensures NestingDepthSum(cs, 1) == NestingDepthSum(cs, 0) + |Containers(cs)|
  {
    NestingDepthSumShift(cs, 0);
  }

  lemma {:induction false} NestingDepthSumCons(cs: seq<Element>)
    requires cs != []
    ensures NestingDepthSum(cs, 0)
            == (if cs[0].tag == ContainerTag then NestingDepthSum(cs[0].children, 1) else NestingDepthSum(cs[0].children, 0))
               + NestingDepthSum(cs[1..], 0)
  {
  }

  lemma {:induction false} ContainersConsLength(cs: seq<Element>)
    requires cs != []
    ensures |Containers(cs)| == (if cs[0].tag == ContainerTag then 1 else 0)
                                + |Containers(cs[0].children)| + |Containers(cs[1..])|
  {
    ContainersCons(cs);
  }

  /** `n` copies of `x`. */
  function Copies(x: Element, n: nat): seq<Element>
  {
    if n == 0 then [] else Copies(x, n - 1) + [x]
  }

  /** Each container of the forest `cs` once for itself and once per
      enclosing container, in document order, where the forest lies below
      `d` containers: a container nested in k containers is listed k + 1
      times. */
  function Repeats(cs: seq<Element>, d: nat): seq<Element>
    decreases cs
  {
    if cs == [] then []
    else
      var c := cs[0];
      if c.tag == ContainerTag then Copies(c, d + 1) + Repeats(c.children, d + 1) + Repeats(cs[1..], d)
      else Repeats(c.children, d) + Repeats(cs[1..], d)
  }

  /** One more enclosing container adds one more copy of every container. */
  lemma {:induction false} RepeatsShift(cs: seq<Element>, d: nat)
    ensures multiset(Repeats(cs, d + 1)) == multiset(Repeats(cs, d)) + multiset(Containers(cs))
    decreases cs
  {
    if cs != [] {
      RepeatsShift(cs[1..], d);
      if cs[0].tag == ContainerTag {
        RepeatsShift(cs[0].children, d + 1);
        RepeatsShiftContainer(cs, d);
      } else {
        RepeatsShift(cs[0].children, d);
        RepeatsShiftOther(cs, d);
      }
    }
  }

  lemma {:induction false} RepeatsShiftContainer(cs: seq<Element>, d: nat)
    requires cs != [] && cs[0].tag == ContainerTag
    requires multiset(Repeats(cs[0].children, d + 2))
             == multiset(Repeats(cs[0].children, d + 1)) + multiset(Containers(cs[0].children))
    requires multiset(Repeats(cs[1..], d + 1)) == multiset(Repeats(cs[1..], d)) + multiset(Containers(cs[1..]))
    ensures multiset(Repeats(cs, d + 1)) == multiset(Repeats(cs, d)) + multiset(Containers(cs))
  {
    var c := cs[0];
    var copies := multiset(Copies(c, d + 1));
    var below := multiset(Repeats(c.children, d + 1));
    var after := multiset(Repeats(cs[1..], d));
    var a := multiset(Containers(c.children));
    var b := multiset(Containers(cs[1..]));
    ContainersConsContainer(cs);
    assert Copies(c, d + 2) == Copies(c, d + 1) + [c];
    calc {
      multiset(Repeats(cs, d + 1));
      multiset(Copies(c, d + 2) + Repeats(c.children, d + 2) + Repeats(cs[1..], d + 1));
      (copies + multiset([c])) + (below + a) + (after + b);
      { UnionRearrange(copies, multiset([c]), below, a, after, b); }
      (copies + below + after) + (multiset([c]) + a + b);
      multiset(Repeats(cs, d)) + multiset(Containers(cs));
    }
  }

  lemma {:induction false} RepeatsShiftOther(cs: seq<Element>, d: nat)
    requires cs != [] && cs[0].tag != ContainerTag
    requires multiset(Repeats(cs[0].children, d + 1))
             == multiset(Repeats(cs[0].children, d)) + multiset(Containers(cs[0].children))
    requires multiset(Repeats(cs[1..], d + 1)) == multiset(Repeats(cs[1..], d)) + multiset(Containers(cs[1..]))
    ensures multiset(Repeats(cs, d + 1)) == multiset(Repeats(cs, d)) + multiset(Containers(cs))
  {
    var below := multiset(Repeats(cs[0].children, d));
    var after := multiset(Repeats(cs[1..], d));
    var a := multiset(Containers(cs[0].children));
    var b := multiset(Containers(cs[1..]));
    ContainersConsOther(cs);
    calc {
      multiset(Repeats(cs, d + 1));
      multiset(Repeats(cs[0].children, d + 1) + Repeats(cs[1..], d + 1));
      (below + a) + (after + b);
      { UnionRearrange(multiset{}, multiset{}, below, a, after, b); }
      (below + after) + (a + b);
      multiset(Repeats(cs, d)) + multiset(Containers(cs));
    }
  }

  /** Multiset union is associative and commutative: regrouping six parts. */
  lemma {:induction false} UnionRearrange<T>(p: multiset<T>, x: multiset<T>, q: multiset<T>, a: multiset<T>,
                                             r: multiset<T>, b: multiset<T>)
    ensures (p + x) + (q + a) + (r + b) == (p + q + r) + (x + a + b)
  {
  }

  lemma {:induction false} ContainersConsContainer(cs: seq<Element>)
    requires cs != [] && cs[0].tag == ContainerTag
    ensures Containers(cs) == [cs[0]] + Containers(cs[0].children) + Containers(cs[1..])
  {
    ContainersCons(cs);
    TaggedSingle(cs[0], ContainerTag);
  }

  lemma {:induction false} ContainersConsOther(cs: seq<Element>)
    requires cs != [] && cs[0].tag != ContainerTag
    ensures Containers(cs) == Containers(cs[0].children) + Containers(cs[1..])
  {
    ContainersCons(cs);
    TaggedSingle(cs[0], ContainerTag);
    assert [] + Containers(cs[0].children) == Containers(cs[0].children);
  }

  /** The visits of a forest whose first tree's root is a container: that
      root with the containers below it, then the visits below the root,
      then those of the other trees. */
  lemma {:induction false} VisitsSplitContainer(cs: seq<Element>)
    requires cs != [] && cs[0].tag == ContainerTag
    ensures Visits(Containers(cs))
            == [cs[0]] + Containers(cs[0].children)
               + Visits(Containers(cs[0].children)) + Visits(Containers(cs[1..]))
  {
    var c := cs[0];
    var a := Containers(c.children);
    var b := Containers(cs[1..]);
    ContainersConsContainer(cs);
    VisitsAppend([c] + a, b);
    VisitsAppend([c], a);
    VisitsSingle(c);
  }

  /** A single container is visited, then everything nested in it. */
  lemma {:induction false} VisitsSingle(c: Element)
    ensures Visits([c]) == [c] + Containers(c.children)
  {
    assert [c][1..] == [];
    assert FindAll(c, ContainerTag) == Containers(c.children);
  }

  /** The visits of a forest whose first tree's root is not a container: the
      visits below that root, then those of the other trees. */
  lemma {:induction false} VisitsSplitOther(cs: seq<Element>)
    requires cs != [] && cs[0].tag != ContainerTag
    ensures Visits(Containers(cs)) == Visits(Containers(cs[0].children)) + Visits(Containers(cs[1..]))
  {
    ContainersConsOther(cs);
    VisitsAppend(Containers(cs[0].children), Containers(cs[1..]));
  }

  /** The two loops visit every container once for itself and once more per
      enclosing container, and nothing else: as multisets, the visits are
      the containers each repeated (nesting depth + 1) times. */
  lemma {:induction false} VisitMultiplicity(cs: seq<Element>)
    ensures multiset(Visits(Containers(cs))) == multiset(Repeats(cs, 0))
    decreases cs
  {
    if cs != [] {
      VisitMultiplicity(cs[0].children);
      VisitMultiplicity(cs[1..]);
      VisitMultiplicityStep(cs);
    }
  }

  /** The same law for a whole document: the records `parse_xml` appends
      come from a container nested in k containers below the root exactly
      k + 1 times. */
  lemma {:induction false} DocumentVisitMultiplicity(root: Element)
    ensures multiset(Visits(FindAll(root, ContainerTag))) == multiset(Repeats(root.children, 0))
  {
    assert FindAll(root, ContainerTag) == Containers(root.children);
    VisitMultiplicity(root.children);
  }

  lemma {:induction false} VisitMultiplicityStep(cs: seq<Element>)
    requires cs != []
    requires multiset(Visits(Containers(cs[0].children))) == multiset(Repeats(cs[0].children, 0))
    requires multiset(Visits(Containers(cs[1..]))) == multiset(Repeats(cs[1..], 0))
    ensures multiset(Visits(Containers(cs))) == multiset(Repeats(cs, 0))
  {
    if cs[0].tag == ContainerTag {
      VisitMultiplicityContainer(cs);
    } else {
      VisitsSplitOther(cs);
      assert Repeats(cs, 0) == Repeats(cs[0].children, 0) + Repeats(cs[1..], 0);
    }
  }

  lemma {:induction false} VisitMultiplicityContainer(cs: seq<Element>)
    requires cs != [] && cs[0].tag == ContainerTag
    requires multiset(Visits(Containers(cs[0].children))) == multiset(Repeats(cs[0].children, 0))
    requires multiset(Visits(Containers(cs[1..]))) == multiset(Repeats(cs[1..], 0))
    ensures multiset(Visits(Containers(cs))) == multiset(Repeats(cs, 0))
  {
    var c := cs[0];
    var a := Containers(c.children);
    var here := multiset([c]);
    var below := multiset(Repeats(c.children, 0));
    var after := multiset(Repeats(cs[1..], 0));
    VisitsSplitContainer(cs);
    assert Copies(c, 1) == [c];
    assert Repeats(cs, 0) == [c] + Repeats(c.children, 1) + Repeats(cs[1..], 0);
    calc {
      multiset(Visits(Containers(cs)));
      here + multiset(a) + multiset(Visits(a)) + multiset(Visits(Containers(cs[1..])));
      here + multiset(a) + below + after;
      { UnionSwap(here, multiset(a), below, after); }
      here + (below + multiset(a)) + after;
      { RepeatsShiftOne(c.children); }
      here + multiset(Repeats(c.children, 1)) + after;
      multiset(Repeats(cs, 0));
    }
  }

  lemma {:induction false} RepeatsShiftOne(cs: seq<Element>)
    ensures multiset(Repeats(cs, 1)) == multiset(Repeats(cs, 0)) + multiset(Containers(cs))
  {
    RepeatsShift(cs, 0);
  }

  lemma {:induction false} UnionSwap<T>(p: multiset<T>, a: multiset<T>, r: multiset<T>, b: multiset<T>)
    ensures p + a + r + b == p + (r + a) + b
  {
  }

  /** For a document whose containers all have both fields, `parse_xml`
      returns one row per container plus one per (enclosing container,
      nested container) pair. */
  lemma {:induction false} ParseXmlLength(root: Element)
    requires Complete(root)
    ensures |ParseXml(Some(root))| == |FindAll(root, ContainerTag)| + NestingDepthSum(root.children, 0)
  {
    VisitCount(root.children);
  }

  /** Without nesting the inner loop adds nothing: one record per container,
      in document order. */
  lemma {:induction false} ParseXmlFlat(root: Element)
    requires Complete(root)
    requires forall c :: c in FindAll(root, ContainerTag) ==> FindAll(c, ContainerTag) == []
    ensures |ParseXml(Some(root))| == |FindAll(root, ContainerTag)|
    ensures forall i :: 0 <= i < |FindAll(root, ContainerTag)| ==>
              ParseXml(Some(root))[i] == RecordOf(FindAll(root, ContainerTag)[i]).value
  {
    VisitsFlat(FindAll(root, ContainerTag));
  }

  lemma {:induction false} VisitsFlat(outer: seq<Element>)
    requires forall c :: c in outer ==> FindAll(c, ContainerTag) == []
    ensures Visits(outer) == outer
    decreases outer
  {
    if outer != [] {
      assert outer[0] in outer;
      assert forall c :: c in outer[1..] ==> c in outer;
      VisitsFlat(outer[1..]);
    }
  }

  /** One record per container, in document order: the extraction the
      code's comments point to (all "containers", then their "sub-containers"),
      without the repeats the inner loop adds. */
  function ParseXmlOnce(doc: Option<Element>): (data: seq<Record>)
    ensures doc.None? ==> data == []
    ensures doc.Some? && !Complete(doc.value) ==> data == []
    ensures doc.Some? && Complete(doc.value) ==>
              var all := FindAll(doc.value, ContainerTag);
              |data| == |all| && forall i :: 0 <= i < |all| ==> data[i] == RecordOf(all[i]).value
  {
    match doc
    case None => []
    case Some(root) =>
      match Records(FindAll(root, ContainerTag))
      case None => []
      case Some(rs) => rs
  }

  /** Without nesting the source's extraction and the one-record-per-container
      extraction agree. How often nested containers repeat is counted by
      `DocumentVisitMultiplicity`. */
  lemma {:induction false} ParseXmlOnceAgreesFlat(root: Element)
    requires forall c :: c in FindAll(root, ContainerTag) ==> FindAll(c, ContainerTag) == []
    ensures ParseXml(Some(root)) == ParseXmlOnce(Some(root))
  {
    VisitsFlat(FindAll(root, ContainerTag));
  }

  function Field(tag: string, value: string): Element {
    Element(tag, Some(value), [])
  }

  const EcuMName: Element := Field(ShortNameTag, "EcuM")
  const EcuMRef: Element := Field(DefinitionRefTag, "/AUTOSAR/EcuM")
  const ConfigName: Element := Field(ShortNameTag, "EcuMConfig")
  const ConfigRef: Element := Field(DefinitionRefTag, "/AUTOSAR/EcuM/Config")
  const EcuMConfig: Element := Element(ContainerTag, None, [ConfigName, ConfigRef])
  const EcuM: Element := Element(ContainerTag, None, [EcuMName, EcuMRef, EcuMConfig])
  const EcuMDocument: Element := Element(Namespace + "AUTOSAR", None, [EcuM])

  lemma TagsDistinct()
    ensures ContainerTag != ShortNameTag && ContainerTag != DefinitionRefTag
    ensures ShortNameTag != DefinitionRefTag
  {
    assert |ContainerTag| != |ShortNameTag| && |ContainerTag| != |DefinitionRefTag|;
    assert |ShortNameTag| != |DefinitionRefTag|;
  }

  lemma EcuMConfigFacts()
    ensures Descendants(EcuMConfig) == [ConfigName, ConfigRef]
    ensures FindAll(EcuMConfig, ContainerTag) == []
    ensures RecordOf(EcuMConfig) == Some(Record(Some("EcuMConfig"), Some("/AUTOSAR/EcuM/Config")))
  {
    TagsDistinct();
    assert Preorder([ConfigRef]) == [ConfigRef];
    assert Preorder([ConfigName, ConfigRef]) == [ConfigName] + [] + Preorder([ConfigRef]);
    TaggedCons(ConfigName, [ConfigRef], ContainerTag);
    TaggedCons(ConfigName, [ConfigRef], ShortNameTag);
    TaggedCons(ConfigName, [ConfigRef], DefinitionRefTag);
  }

  lemma EcuMDescendants()
    ensures Descendants(EcuM) == [EcuMName, EcuMRef, EcuMConfig, ConfigName, ConfigRef]
  {
    EcuMConfigFacts();
    var rest := [EcuMConfig, ConfigName, ConfigRef];
    assert Descendants(EcuMRef) == [] && Descendants(EcuMName) == [];
    assert Preorder([EcuMConfig]) == rest by {
      assert [EcuMConfig][1..] == [];
    }
    assert Preorder([EcuMRef, EcuMConfig]) == [EcuMRef] + rest by {
      assert [EcuMRef, EcuMConfig][1..] == [EcuMConfig];
    }
    assert Preorder([EcuMName, EcuMRef, EcuMConfig]) == [EcuMName] + ([EcuMRef] + rest) by {
      assert [EcuMName, EcuMRef, EcuMConfig][1..] == [EcuMRef, EcuMConfig];
    }
  }

  lemma EcuMFacts()
    ensures FindAll(EcuM, ContainerTag) == [EcuMConfig]
    ensures RecordOf(EcuM) == Some(Record(Some("EcuM"), Some("/AUTOSAR/EcuM")))
  {
    TagsDistinct();
    EcuMDescendants();
    var rest := [EcuMConfig, ConfigName, ConfigRef];
    assert [EcuMName, EcuMRef, EcuMConfig, ConfigName, ConfigRef] == [EcuMName] + ([EcuMRef] + rest);
    assert Tagged(rest, ContainerTag) == [EcuMConfig] by {
      TaggedCons(EcuMConfig, [ConfigName, ConfigRef], ContainerTag);
      TaggedCons(ConfigName, [ConfigRef], ContainerTag);
    }
    TaggedCons(EcuMRef, rest, ContainerTag);
    TaggedCons(EcuMName, [EcuMRef] + rest, ContainerTag);
    TaggedCons(EcuMName, [EcuMRef] + rest, ShortNameTag);
    TaggedCons(EcuMName, [EcuMRef] + rest, DefinitionRefTag);
    TaggedCons(EcuMRef, rest, DefinitionRefTag);
  }

  lemma EcuMDocumentFacts()
    ensures FindAll(EcuMDocument, ContainerTag) == [EcuM, EcuMConfig]
  {
    TagsDistinct();
    EcuMDescendants();
    var ds := [EcuMName, EcuMRef, EcuMConfig, ConfigName, ConfigRef];
    assert Descendants(EcuMDocument) == [EcuM] + ds by {
      assert Preorder([EcuM]) == [EcuM] + ds + [];
    }
    TaggedCons(EcuM, ds, ContainerTag);
    assert ds == [EcuMName, EcuMRef] + ([EcuMConfig] + [ConfigName, ConfigRef]);
    TaggedAppend([EcuMName, EcuMRef], [EcuMConfig] + [ConfigName, ConfigRef], ContainerTag);
    TaggedCons(EcuMName, [EcuMRef], ContainerTag);
    TaggedCons(EcuMConfig, [ConfigName, ConfigRef], ContainerTag);
    TaggedCons(ConfigName, [ConfigRef], ContainerTag);
  }

  lemma {:induction false} VisitsOneNested(outer: Element, inner: Element)
    requires FindAll(outer, ContainerTag) == [inner] && FindAll(inner, ContainerTag) == []
    ensures Visits([outer, inner]) == [outer, inner, inner]
  {
    assert Visits([inner]) == [inner] by {
      assert [inner][1..] == [];
    }
    assert [outer, inner][1..] == [inner];
  }

  lemma {:induction false} RecordsAre(vs: seq<Element>, rs: seq<Record>)
    requires |vs| == |rs| && forall i :: 0 <= i < |vs| ==> RecordOf(vs[i]) == Some(rs[i])
    ensures Records(vs) == Some(rs)
  {
    var r := Records(vs);
    assert r.Some?;
    assert forall i :: 0 <= i < |rs| ==> r.value[i] == rs[i];
    assert r.value == rs;
  }

  /** A document whose only containers are `outer` and, nested in it, `inner`. */
  lemma {:induction false} ParseXmlOneNested(root: Element, outer: Element, inner: Element, r1: Record, r2: Record)
    requires FindAll(root, ContainerTag) == [outer, inner]
    requires FindAll(outer, ContainerTag) == [inner] && FindAll(inner, ContainerTag) == []
    requires RecordOf(outer) == Some(r1) && RecordOf(inner) == Some(r2)
    ensures ParseXml(Some(root)) == [r1, r2, r2]
    ensures ParseXmlOnce(Some(root)) == [r1, r2]
  {
    VisitsOneNested(outer, inner);
    RecordsAre([outer, inner, inner], [r1, r2, r2]);
    RecordsAre([outer, inner], [r1, r2]);
    ParseXmlOf(root, [r1, r2, r2]);
    ParseXmlOnceOf(root, [r1, r2]);
  }

  lemma {:induction false} ParseXmlOf(root: Element, rs: seq<Record>)
    requires Records(Visits(FindAll(root, ContainerTag))) == Some(rs)
    ensures ParseXml(Some(root)) == rs
  {
  }

  lemma {:induction false} ParseXmlOnceOf(root: Element, rs: seq<Record>)
    requires Records(FindAll(root, ContainerTag)) == Some(rs)
    ensures ParseXmlOnce(Some(root)) == rs
  {
  }

  /** A container nested in another is emitted twice: two containers give
      three records, while one record per container gives two. */
  lemma EcuMExample()
    ensures ParseXml(Some(EcuMDocument))
            == [Record(Some("EcuM"), Some("/AUTOSAR/EcuM")),
                Record(Some("EcuMConfig"), Some("/AUTOSAR/EcuM/Config")),
                Record(Some("EcuMConfig"), Some("/AUTOSAR/EcuM/Config"))]
    ensures ParseXmlOnce(Some(EcuMDocument))
            == [Record(Some("EcuM"), Some("/AUTOSAR/EcuM")),
                Record(Some("EcuMConfig"), Some("/AUTOSAR/EcuM/Config"))]
  {
    EcuMDocumentFacts();
    EcuMFacts();
    EcuMConfigFacts();
    ParseXmlOneNested(EcuMDocument, EcuM, EcuMConfig,
                      Record(Some("EcuM"), Some("/AUTOSAR/EcuM")),
                      Record(Some("EcuMConfig"), Some("/AUTOSAR/EcuM/Config")));
  }
}
