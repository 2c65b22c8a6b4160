/** The HTML node tree: a base node whose rendering is abstract, leaf nodes
    holding text and parent nodes holding children, each with an ordered list
    of attributes, and the recursive rendering to an HTML string, which fails
    on structural misuse. HTML escaping is not performed. */
module Html {
  import opened Wrappers
  import opened Strings

  /** Attributes in insertion order (a Python dict iterates in that order). */
  type Props = seq<(string, string)>

  /** `HTMLNode`, `LeafNode` and `ParentNode`: every optional field is
      optional here too, so that the misuse rendering rejects stays
      expressible. */
  datatype HtmlNode =
    | Base(tag: Option<string>, value: Option<string>, children: ChildList, props: Option<Props>)
    | Leaf(tag: Option<string>, value: Option<string>, props: Option<Props>)
    | Parent(tag: Option<string>, children: ChildList, props: Option<Props>)

  /** An optional list of children: `None` or a (possibly empty) list. It is
      its own datatype rather than an `Option` so that a child is known to be
      smaller than its parent. */
  datatype ChildList = NoChildren | Children(nodes: seq<HtmlNode>)

  /** Why rendering fails: the base class does not implement it, a leaf has
      no value, a parent has no tag, a parent has no children list. */
  datatype RenderError = NotImplemented | MissingValue | MissingTag | MissingChildren

  /** One attribute as it appears in an opening tag: ` key="value"`. */
  function Attr(kv: (string, string)): string {
    " " + kv.0 + "=\"" + kv.1 + "\""
  }

  /** What `props_to_html` promises: no attributes give nothing, otherwise
      each attribute in turn. */
  function Attrs(props: Option<Props>): string {
    match props
    case None => ""
    case Some(ps) => AttrList(ps)
  }

  function AttrList(ps: Props): string {
    if ps == [] then "" else AttrList(ps[..|ps| - 1]) + Attr(ps[|ps| - 1])
  }

  /** `inner` between the opening tag, with its attributes, and the closing tag. */
  function Wrap(tag: string, props: Option<Props>, inner: string): string {
    "<" + tag + Attrs(props) + ">" + inner + "</" + tag + ">"
  }

  /** What `to_html` computes, for each kind of node. */
  function Render(n: HtmlNode): Result<string, RenderError>
    decreases n, 1, 0
  {
    match n
    case Base(_, _, _, _) => Failure(NotImplemented)
    case Leaf(tag, value, props) =>
      if value.None? then Failure(MissingValue)
      else if tag.None? then Success(value.value)
      else Success(Wrap(tag.value, props, value.value))
    case Parent(tag, children, props) =>
      if tag.None? then Failure(MissingTag)
      else if children.NoChildren? then Failure(MissingChildren)
      else
        var inner :- RenderChildren(n, |children.nodes|);
        Success(Wrap(tag.value, props, inner))
  }

  /** The first `k` children of parent `n`, rendered and concatenated; the
      first child that fails decides the error. */
  function RenderChildren(n: HtmlNode, k: nat): Result<string, RenderError>
    requires n.Parent? && n.children.Children? && k <= |n.children.nodes|
    decreases n, 0, k
  {
    if k == 0 then Success("")
    else
      var init :- RenderChildren(n, k - 1);
      var last :- Render(n.children.nodes[k - 1]);
      Success(init + last)
  }

  /** A list of nodes rendered one after another, as a parent renders its
      children. */
  function RenderList(cs: seq<HtmlNode>): Result<string, RenderError> {
    if cs == [] then Success("")
    else
      var init :- RenderList(cs[..|cs| - 1]);
      var last :- Render(cs[|cs| - 1]);
      Success(init + last)
  }

  /** The structural rules, stated independently of rendering: no base
      nodes, every leaf has a value, every parent a tag and a children list,
      all the way down. */
  predicate Renderable(n: HtmlNode) {
    match n
    case Base(_, _, _, _) => false
    case Leaf(_, value, _) => value.Some?
    case Parent(tag, children, _) =>
      tag.Some? && children.Children? &&
      forall i :: 0 <= i < |children.nodes| ==> Renderable(children.nodes[i])
  }

  // ---------------------------------------------------------------------
  // The loops of the source

  /** `props_to_html`: accumulates one attribute per iteration. */
  method PropsToHtml(n: HtmlNode) returns (html: string)
    ensures html == Attrs(n.props)
  {
    if n.props.None? {
      return "";
    }
    var ps := n.props.value;
    html := "";
    var i := 0;
    while i < |ps|
      invariant 0 <= i <= |ps|
      invariant html == AttrList(ps[..i])
    {
      assert ps[..i + 1][..i] == ps[..i];
      html := html + Attr(ps[i]);
      i := i + 1;
    }
    assert ps[..i] == ps;
  }

  /** `to_html` of the three node classes; a parent renders its children in
      a loop and stops at the first failure. */
  method ToHtml(n: HtmlNode) returns (r: Result<string, RenderError>)
    ensures r == Render(n)
    decreases n
  {
    match n
    case Base(_, _, _, _) =>
      r := Failure(NotImplemented);
    case Leaf(tag, value, props) =>
      if value.None? {
        return Failure(MissingValue);
      }
      if tag.None? {
        return Success(value.value);
      }
      var attrs := PropsToHtml(n);
      r := Success("<" + tag.value + attrs + ">" + value.value + "</" + tag.value + ">");
      assert r.value == Wrap(tag.value, props, value.value);
    case Parent(tag, children, props) =>
      if tag.None? {
        return Failure(MissingTag);
      }
      if children.NoChildren? {
        return Failure(MissingChildren);
      }
      var cs := children.nodes;
      var html := "";
      var i := 0;
      while i < |cs|
        invariant 0 <= i <= |cs|
        invariant RenderChildren(n, i) == Success(html)
      {
        var child := ToHtml(cs[i]);
        if child.Failure? {
          RenderChildrenFailureStays(n, i + 1, |cs|);
          return Failure(child.error);
        }
        html := html + child.value;
        i := i + 1;
      }
      var attrs := PropsToHtml(n);
      r := Success("<" + tag.value + attrs + ">" + html + "</" + tag.value + ">");
      assert r.value == Wrap(tag.value, props, html);
  }

  // ---------------------------------------------------------------------
  // Properties

  /** Once a prefix of the children fails, every longer prefix fails the
      same way. */
  lemma {:induction false} RenderChildrenFailureStays(n: HtmlNode, i: nat, j: nat)
    requires n.Parent? && n.children.Children? && i <= j <= |n.children.nodes|
    requires RenderChildren(n, i).Failure?
    ensures RenderChildren(n, j) == RenderChildren(n, i)
    decreases j - i
  {
    if i < j {
      RenderChildrenFailureStays(n, i, j - 1);
    }
  }

  /** Attributes are emitted one by one in insertion order: none give
      nothing, one gives ` key="value"`, and a concatenation of lists gives
      the concatenation of what each gives. */
  lemma AttrsInOrder(a: Props, b: Props, key: string, value: string)
    ensures Attrs(None) == "" && Attrs(Some([])) == ""
    ensures Attrs(Some([(key, value)])) == " " + key + "=\"" + value + "\""
    ensures Attrs(Some(a + b)) == Attrs(Some(a)) + Attrs(Some(b))
  {
    assert [(key, value)][..0] == [];
    AttrListAppend(a, b);
  }

  lemma {:induction false} AttrListAppend(a: Props, b: Props)
    ensures AttrList(a + b) == AttrList(a) + AttrList(b)
    decreases |b|
  {
    if b == [] {
      assert a + b == a;
    } else {
      var b' := b[..|b| - 1];
      AttrListAppend(a, b');
      assert (a + b)[..|a + b| - 1] == a + b';
      assert (a + b)[|a + b| - 1] == b[|b| - 1];
      calc {
        AttrList(a + b);
        AttrList(a + b') + Attr(b[|b| - 1]);
        AttrList(a) + AttrList(b') + Attr(b[|b| - 1]);
        AttrList(a) + (AttrList(b') + Attr(b[|b| - 1]));
      }
    }
  }

  /** A leaf without a value never renders, whatever its tag and props. */
  lemma LeafWithoutValue(tag: Option<string>, props: Option<Props>)
    ensures Render(Leaf(tag, None, props)) == Failure(MissingValue)
  {
  }

  /** An untagged leaf renders to its value verbatim, props ignored; a
      tagged one wraps its value in its tag. */
  lemma LeafRendering(tag: Option<string>, v: string, props: Option<Props>)
    ensures tag.None? ==> Render(Leaf(tag, Some(v), props)) == Success(v)
    ensures tag.Some? ==>
      Render(Leaf(tag, Some(v), props)) == Success("<" + tag.value + Attrs(props) + ">" + v + "</" + tag.value + ">")
  {
  }

  /** A parent without a tag fails on the tag even when it also lacks its
      children; a tagged parent without children fails on the children. */
  lemma ParentChecks(children: ChildList, tag: string, props: Option<Props>)
    ensures Render(Parent(None, children, props)) == Failure(MissingTag)
    ensures Render(Parent(Some(tag), NoChildren, props)) == Failure(MissingChildren)
  {
  }

  /** The children of a parent render exactly as the list of them does. */
  lemma {:induction false} RenderChildrenIsList(n: HtmlNode, k: nat)
    requires n.Parent? && n.children.Children? && k <= |n.children.nodes|
    ensures RenderChildren(n, k) == RenderList(n.children.nodes[..k])
    decreases k
  {
    var cs := n.children.nodes;
    if k > 0 {
      RenderChildrenIsList(n, k - 1);
      assert cs[..k][..k - 1] == cs[..k - 1];
    }
  }

  /** A parent renders as its opening tag, its children rendered in order,
      and its closing tag; an empty list of children is valid. */
  lemma ParentRendering(tag: string, cs: seq<HtmlNode>, props: Option<Props>)
    ensures Render(Parent(Some(tag), Children(cs), props)) ==
      match RenderList(cs)
      case Success(inner) => Success("<" + tag + Attrs(props) + ">" + inner + "</" + tag + ">")
      case Failure(e) => Failure(e)
    ensures Render(Parent(Some(tag), Children([]), props)) == Success("<" + tag + Attrs(props) + "></" + tag + ">")
  {
    var n := Parent(Some(tag), Children(cs), props);
    RenderChildrenIsList(n, |cs|);
    assert cs[..|cs|] == cs;
    var o := "<" + tag + Attrs(props);
    assert Render(Parent(Some(tag), Children([]), props)) == Success(o + ">" + "" + "</" + tag + ">");
    assert o + ">" + "" + "</" == o + "></";
  }

  /** Rendering a list of nodes is concatenation: the rendering of `a + b`
      is that of `a` followed by that of `b`, and an error in either is the
      error of the whole, the earlier one first. */
  lemma {:induction false} RenderListAppend(a: seq<HtmlNode>, b: seq<HtmlNode>)
    ensures RenderList(a + b) ==
      match RenderList(a)
      case Failure(e) => Failure(e)
      case Success(x) =>
        match RenderList(b)
        case Failure(e) => Failure(e)
        case Success(y) => Success(x + y)
    decreases |b|
  {
    if b == [] {
      assert a + b == a;
      if RenderList(a).Success? {
        EmptyRight(RenderList(a).value);
      }
    } else {
      var b' := b[..|b| - 1];
      var last := b[|b| - 1];
      RenderListAppend(a, b');
      AppendLast(a, b);
      if RenderList(a).Success? && RenderList(b').Success? && Render(last).Success? {
        var x, y, z := RenderList(a).value, RenderList(b').value, Render(last).value;
        assert RenderList(a + b) == Success(x + y + z);
        assert RenderList(b) == Success(y + z);
        AppendAssoc(x, y, z);
      }
    }
  }

  /** A list renders exactly when each of its nodes does. */
  lemma {:induction false} RenderListOkIff(cs: seq<HtmlNode>)
    ensures RenderList(cs).Success? <==> forall i :: 0 <= i < |cs| ==> Render(cs[i]).Success?
    decreases |cs|
  {
    if cs != [] {
      var init := cs[..|cs| - 1];
      RenderListOkIff(init);
      assert forall i :: 0 <= i < |init| ==> init[i] == cs[i];
    }
  }

  /** Rendering succeeds exactly on trees that obey the structural rules;
      so an error anywhere below a parent is an error of the parent. */
  lemma {:induction false} RenderOkIffRenderable(n: HtmlNode)
    ensures Render(n).Success? <==> Renderable(n)
    decreases n
  {
    match n
    case Base(_, _, _, _) =>
    case Leaf(_, _, _) =>
    case Parent(tag, children, props) =>
      if tag.Some? && children.Children? {
        var cs := children.nodes;
        forall i | 0 <= i < |cs|
          ensures Render(cs[i]).Success? <==> Renderable(cs[i])
        {
          RenderOkIffRenderable(cs[i]);
        }
        RenderListOkIff(cs);
        ParentRendering(tag.value, cs, props);
      }
  }
}
