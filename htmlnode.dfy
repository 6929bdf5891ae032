/** The HTML node model: the three node classes as one datatype, the
    attribute dictionary, and `props_to_html`, which writes the attributes
    in ascending key order. */
module HtmlNodes {
  import opened Wrappers
  import opened Errors
  import opened Strings

  // ---------------------------------------------------------------------
  // Attribute dictionaries

  /** No key appears twice. */
  predicate UniqueKeys(ps: seq<(string, string)>) {
    forall i, j | 0 <= i < j < |ps| :: ps[i].0 != ps[j].0
  }

  /** A Python dict from attribute name to value, in insertion order. */
  type Props = ps: seq<(string, string)> | UniqueKeys(ps) witness []

  function Keys(ps: seq<(string, string)>): (ks: seq<string>)
    ensures |ks| == |ps| && forall i | 0 <= i < |ps| :: ks[i] == ps[i].0
  {
    if ps == [] then [] else [ps[0].0] + Keys(ps[1..])
  }

  /** `props[k]`. */
  function Lookup(ps: seq<(string, string)>, k: string): (v: string)
    requires k in Keys(ps)
    ensures (k, v) in ps
  {
    if ps[0].0 == k then ps[0].1 else Lookup(ps[1..], k)
  }

  lemma LookupUnique(ps: Props, k: string, v: string)
    requires (k, v) in ps
    ensures k in Keys(ps) && Lookup(ps, k) == v
  {
    var i :| 0 <= i < |ps| && ps[i] == (k, v);
    assert Keys(ps)[i] == k;
    var j :| 0 <= j < |ps| && ps[j] == (k, Lookup(ps, k));
  }

  // ---------------------------------------------------------------------
  // sorted(props.keys())

  predicate StrictlySorted(ks: seq<string>) {
    forall i, j | 0 <= i < j < |ks| :: LexLess(ks[i], ks[j])
  }

  function Insert(k: string, ks: seq<string>): (r: seq<string>)
    requires StrictlySorted(ks) && k !in ks
    ensures StrictlySorted(r) && |r| == |ks| + 1
    ensures forall x :: x in r <==> x == k || x in ks
  {
    if ks == [] then [k]
    else if LexLess(k, ks[0]) then
      assert forall j | 0 < j < |ks| :: LexLess(k, ks[j]) by {
        forall j | 0 < j < |ks| ensures LexLess(k, ks[j]) {
          LexLessTransitive(k, ks[0], ks[j]);
        }
      }
      [k] + ks
    else
      LexLessTotal(k, ks[0]);
      var rest := Insert(k, ks[1..]);
      assert forall x | x in rest :: LexLess(ks[0], x);
      [ks[0]] + rest
  }

  /** `sorted(list(props.keys()))`: the keys in ascending code-point order. */
  function SortedKeys(ps: Props): (ks: seq<string>)
    ensures StrictlySorted(ks) && |ks| == |ps|
    ensures forall x :: x in ks <==> x in Keys(ps)
  {
    if ps == [] then []
    else
      var rest := SortedKeys(ps[1..]);
      assert ps[0].0 !in Keys(ps[1..]);
      Insert(ps[0].0, rest)
  }

  lemma SameElementsEmpty(a: seq<string>, b: seq<string>)
    requires forall x :: x in a <==> x in b
    ensures a == [] <==> b == []
  {
    if a != [] { assert a[0] in b; }
    if b != [] { assert b[0] in a; }
  }

  /** Two ascending sequences with the same elements are the same sequence. */
  lemma {:induction false} SortedUnique(a: seq<string>, b: seq<string>)
    requires StrictlySorted(a) && StrictlySorted(b)
    requires forall x :: x in a <==> x in b
    ensures a == b
    decreases |a|
  {
    SameElementsEmpty(a, b);
    if a != [] {
      assert a[0] in b && b[0] in a;
      if a[0] != b[0] {
        var i :| 0 <= i < |b| && b[i] == a[0];
        var j :| 0 <= j < |a| && a[j] == b[0];
        assert LexLess(b[0], a[0]) && LexLess(a[0], b[0]);
        LexLessAsymmetric(a[0], b[0]);
      }
      forall x ensures x in a[1..] <==> x in b[1..] {
        if x in a[1..] {
          var i :| 1 <= i < |a| && a[i] == x;
          LexLessIrreflexive(x);
          assert x in a && x in b;
          var k :| 0 <= k < |b| && b[k] == x;
          assert k != 0 && b[1..][k - 1] == x;
        }
        if x in b[1..] {
          var i :| 1 <= i < |b| && b[i] == x;
          LexLessIrreflexive(x);
          assert x in b && x in a;
          var k :| 0 <= k < |a| && a[k] == x;
          assert k != 0 && a[1..][k - 1] == x;
        }
      }
      SortedUnique(a[1..], b[1..]);
    }
  }

  // ---------------------------------------------------------------------
  // props_to_html

  /** One attribute: ` key="value"`. */
  function Attr(k: string, v: string): string {
    " " + k + "=\"" + v + "\""
  }

  /** The attributes named by `ks`, in that order. */
  function Attributes(ps: seq<(string, string)>, ks: seq<string>): string
    requires forall k | k in ks :: k in Keys(ps)
  {
    if ks == [] then ""
    else Attributes(ps, ks[..|ks| - 1]) + Attr(ks[|ks| - 1], Lookup(ps, ks[|ks| - 1]))
  }

  /** What `props_to_html` returns: a TypeError when there is no dictionary,
      `None` for an empty one, and otherwise every attribute in ascending
      key order. */
  function PropsHtml(props: Option<Props>): (r: Result<Option<string>, Error>)
    ensures props == None <==> r == Failure(PropsNotSet)
    ensures props == Some([]) <==> r == Success(None)
    ensures props.Some? && props.value != [] ==> r.Success? && r.value.Some? && r.value.value != ""
  {
    match props
    case None => Failure(PropsNotSet)
    case Some(ps) =>
      if |ps| == 0 then Success(None)
      else
        var ks := SortedKeys(ps);
        assert ks != [] && |Attributes(ps, ks)| > 0;
        Success(Some(Attributes(ps, ks)))
  }

  /** Any ascending enumeration of the keys gives the string `props_to_html`
      returns: every attribute appears once, in ascending key order. */
  lemma PropsInKeyOrder(ps: Props, ks: seq<string>)
    requires ps != []
    requires StrictlySorted(ks) && forall x :: x in ks <==> x in Keys(ps)
    ensures PropsHtml(Some(ps)) == Success(Some(Attributes(ps, ks)))
  {
    SortedUnique(ks, SortedKeys(ps));
  }

  /** The result depends only on the key/value pairs, never on the order in
      which they were inserted. */
  lemma PropsOrderIndependent(p: Props, q: Props)
    requires forall e :: e in p <==> e in q
    ensures PropsHtml(Some(p)) == PropsHtml(Some(q))
  {
    assert forall x :: x in Keys(p) <==> x in Keys(q) by {
      forall x ensures x in Keys(p) <==> x in Keys(q) {
        if x in Keys(p) {
          var i :| 0 <= i < |p| && Keys(p)[i] == x;
          assert p[i] in q;
          var j :| 0 <= j < |q| && q[j] == p[i];
          assert Keys(q)[j] == x;
        }
        if x in Keys(q) {
          var i :| 0 <= i < |q| && Keys(q)[i] == x;
          assert q[i] in p;
          var j :| 0 <= j < |p| && p[j] == q[i];
          assert Keys(p)[j] == x;
        }
      }
    }
    var ks := SortedKeys(p);
    SortedUnique(ks, SortedKeys(q));
    if p != [] {
      assert q != [] by { assert p[0] in q; }
      AttributesSameValues(p, q, ks);
    }
  }

  /** Two attributes come out in key order whichever was inserted first. */
  lemma TwoPropsInKeyOrder(k1: string, v1: string, k2: string, v2: string)
    requires k1 != k2 && LexLess(k1, k2)
    ensures PropsHtml(Some([(k1, v1), (k2, v2)])) == Success(Some(Attr(k1, v1) + Attr(k2, v2)))
    ensures PropsHtml(Some([(k2, v2), (k1, v1)])) == Success(Some(Attr(k1, v1) + Attr(k2, v2)))
  {
    var p: Props := [(k1, v1), (k2, v2)];
    var q: Props := [(k2, v2), (k1, v1)];
    LookupUnique(p, k1, v1);
    LookupUnique(p, k2, v2);
    assert Attributes(p, [k1]) == Attr(k1, v1) by {
      assert [k1][..0] == [];
    }
    assert [k1, k2][..1] == [k1];
    PropsInKeyOrder(p, [k1, k2]);
    PropsOrderIndependent(p, q);
  }

  /** The `href`/`target` dictionary renders `href` first. */
  lemma HrefBeforeTarget()
    ensures PropsHtml(Some([("href", "https://www.google.com"), ("target", "_blank")]))
      == Success(Some(Attr("href", "https://www.google.com") + Attr("target", "_blank")))
  {
    assert LexLess("href", "target");
    TwoPropsInKeyOrder("href", "https://www.google.com", "target", "_blank");
  }

  lemma AttributesSameValues(p: Props, q: Props, ks: seq<string>)
    requires forall e :: e in p <==> e in q
    requires forall k | k in ks :: k in Keys(p) && k in Keys(q)
    ensures Attributes(p, ks) == Attributes(q, ks)
  {
    if ks != [] {
      var k := ks[|ks| - 1];
      LookupUnique(q, k, Lookup(p, k));
      AttributesSameValues(p, q, ks[..|ks| - 1]);
    }
  }

  // ---------------------------------------------------------------------
  // Nodes

  /** `HTMLNode`, `LeafNode` and `ParentNode`. A leaf has no children and a
      parent has no value; the base class has all four fields. A parent keeps
      its children as a sequence and a flag saying whether the argument was
      given at all (`None` in Python is `childrenSet == false`). */
  datatype Node =
    | Base(tag: Option<string>, value: Option<string>, children: Option<seq<Node>>, props: Option<Props>)
    | Leaf(tag: Option<string>, value: Option<string>, props: Option<Props>)
    | Parent(tag: Option<string>, childList: seq<Node>, childrenSet: bool, props: Option<Props>)
  {
    /** The `value` field, which a parent sets to `None`. */
    function Value(): Option<string> {
      if Parent? then None else value
    }

    /** The `children` field, which a leaf sets to `None`. */
    function Children(): Option<seq<Node>> {
      match this
      case Base(_, _, children, _) => children
      case Leaf(_, _, _) => None
      case Parent(_, childList, childrenSet, _) => if childrenSet then Some(childList) else None
    }
  }

  /** `HTMLNode(tag, value, children, props)`: stores its four arguments. */
  function NewHtmlNode(tag: Option<string>, value: Option<string>,
                       children: Option<seq<Node>>, props: Option<Props>): (n: Node)
    ensures n.tag == tag && n.Value() == value && n.Children() == children && n.props == props
  {
    Base(tag, value, children, props)
  }

  /** `LeafNode(tag, value, props)`: children are `None`. */
  function NewLeafNode(tag: Option<string>, value: Option<string>, props: Option<Props>): (n: Node)
    ensures n.tag == tag && n.Value() == value && n.Children() == None && n.props == props
  {
    Leaf(tag, value, props)
  }

  /** `ParentNode(tag, children, props)`: the value is `None`. */
  function NewParentNode(tag: Option<string>, children: Option<seq<Node>>, props: Option<Props>): (n: Node)
    ensures n.tag == tag && n.Value() == None && n.Children() == children && n.props == props
  {
    match children
    case None => Parent(tag, [], false, props)
    case Some(cs) => Parent(tag, cs, true, props)
  }

  /** `HTMLNode.to_html`: the base class does not know how to render. */
  function BaseToHtml(n: Node): (r: Result<string, Error>)
    requires n.Base?
    ensures r == Failure(NotImplemented)
  {
    Failure(NotImplemented)
  }

  /** `HTMLNode.props_to_html`, one attribute per iteration over the sorted keys. */
  method PropsToHtml(n: Node) returns (r: Result<Option<string>, Error>)
    ensures r == PropsHtml(n.props)
  {
    if n.props.None? {
      return Failure(PropsNotSet);
    }
    var ps := n.props.value;
    if |ps| == 0 {
      return Success(None);
    }
    var ks := SortedKeys(ps);
    var propsString := "";
    var i := 0;
    while i < |ks|
      invariant 0 <= i <= |ks|
      invariant propsString == Attributes(ps, ks[..i])
    {
      assert ks[..i + 1][..i] == ks[..i];
      propsString := propsString + Attr(ks[i], Lookup(ps, ks[i]));
      i := i + 1;
    }
    assert ks[..i] == ks;
    return Success(Some(propsString));
  }
}
