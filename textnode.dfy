/** Inline text spans: the six styles a piece of markdown text can carry,
    the span value type with its structural equality, and the mapping of a
    span to the leaf HTML node that renders it. */
module TextNodes {
  import opened Wrappers
  import opened Html

  /** The closed set of inline styles. */
  datatype TextType = Text | Bold | Italic | Code | Link | Image

  /** A span of text with its style; links and images also carry a url. */
  datatype TextNode = TextNode(text: string, textType: TextType, url: Option<string>)

  /** A span carries a url exactly when it is a link or an image. */
  predicate WellFormed(n: TextNode) {
    n.url.Some? <==> (n.textType == Link || n.textType == Image)
  }

  predicate AllWellFormed(ns: seq<TextNode>) {
    forall k :: 0 <= k < |ns| ==> WellFormed(ns[k])
  }

  /** `TextNode.__eq__`: field by field. */
  function Equals(a: TextNode, b: TextNode): (r: bool)
    ensures r <==> a == b
  {
    a.text == b.text && a.textType == b.textType && a.url == b.url
  }

  /** How an optional url is printed into an attribute: Python formats a
      missing value as `None`. */
  function UrlText(url: Option<string>): string {
    match url
    case Some(u) => u
    case None => "None"
  }

  /** `text_node_to_html_node`: one leaf per span, with the span text as its
      value (an image has an empty value and the text as its `alt`). */
  function TextNodeToHtmlNode(n: TextNode): (h: HtmlNode)
    ensures h.Leaf? && h.value.Some?
    ensures n.textType == Text <==> h.tag.None?
    ensures n.textType != Image ==> h.value == Some(n.text)
    ensures n.textType in {Text, Bold, Italic, Code} <==> h.props.None?
  {
    match n.textType
    case Text => Leaf(None, Some(n.text), None)
    case Bold => Leaf(Some("b"), Some(n.text), None)
    case Italic => Leaf(Some("i"), Some(n.text), None)
    case Code => Leaf(Some("code"), Some(n.text), None)
    case Link => Leaf(Some("a"), Some(n.text), Some([("href", UrlText(n.url))]))
    case Image => Leaf(Some("img"), Some(""), Some([("src", UrlText(n.url)), ("alt", n.text)]))
  }

  /** What each span renders to: plain text verbatim, the three styles in
      their tags, a link as an anchor with its `href`, an image as an empty
      `img` element with `src` then `alt`. Rendering a span never fails. */
  lemma TextNodeRendering(n: TextNode)
    ensures Render(TextNodeToHtmlNode(n)) == Success(
      match n.textType
      case Text => n.text
      case Bold => "<b>" + n.text + "</b>"
      case Italic => "<i>" + n.text + "</i>"
      case Code => "<code>" + n.text + "</code>"
      case Link => "<a href=\"" + UrlText(n.url) + "\">" + n.text + "</a>"
      case Image => "<img src=\"" + UrlText(n.url) + "\" alt=\"" + n.text + "\"></img>")
  {
    var h := TextNodeToHtmlNode(n);
    var t := n.text;
    var u := UrlText(n.url);
    match n.textType
    case Text =>
    case Bold =>
      assert "<" + "b" + "" + ">" + t + "</" + "b" + ">" == "<b>" + t + "</b>";
    case Italic =>
      assert "<" + "i" + "" + ">" + t + "</" + "i" + ">" == "<i>" + t + "</i>";
    case Code =>
      assert "<" + "code" + "" + ">" + t + "</" + "code" + ">" == "<code>" + t + "</code>";
    case Link =>
      LinkRendering(t, u);
    case Image =>
      ImageRendering(t, u);
  }

  lemma LinkRendering(t: string, u: string)
    ensures Render(Leaf(Some("a"), Some(t), Some([("href", u)]))) == Success("<a href=\"" + u + "\">" + t + "</a>")
  {
    LinkAttrs(u);
    var o := "<" + "a" + " href=\"";
    assert o == "<a href=\"";
    assert "\"" + ">" == "\">";
    assert "</" + "a" + ">" == "</a>";
    assert Wrap("a", Some([("href", u)]), t) == o + u + ("\"" + ">") + t + ("</" + "a" + ">");
  }

  lemma ImageRendering(t: string, u: string)
    ensures Render(Leaf(Some("img"), Some(""), Some([("src", u), ("alt", t)]))) ==
      Success("<img src=\"" + u + "\" alt=\"" + t + "\"></img>")
  {
    ImageAttrs(u, t);
    var o := "<" + "img" + " src=\"";
    assert o == "<img src=\"";
    var c := "\"" + ">" + "" + "</" + "img" + ">";
    assert c == "\"></img>";
    assert Wrap("img", Some([("src", u), ("alt", t)]), "") == o + u + "\" alt=\"" + t + c;
  }

  lemma LinkAttrs(u: string)
    ensures Attrs(Some([("href", u)])) == " href=\"" + u + "\""
  {
    var ps := [("href", u)];
    assert ps[..0] == [];
    var x := Attr(ps[0]);
    assert AttrList(ps) == "" + x;
    assert "" + x == x;
    assert " " + "href" + "=\"" == " href=\"";
  }

  lemma ImageAttrs(u: string, t: string)
    ensures Attrs(Some([("src", u), ("alt", t)])) == " src=\"" + u + "\" alt=\"" + t + "\""
  {
    var ps := [("src", u), ("alt", t)];
    assert ps[..1] == [("src", u)] && ps[..1][..0] == [];
    var x, y := Attr(ps[0]), Attr(ps[1]);
    assert AttrList(ps[..1]) == "" + x;
    assert "" + x == x;
    assert AttrList(ps) == x + y;
    assert " " + "src" + "=\"" == " src=\"";
    assert "\"" + " " + "alt" + "=\"" == "\" alt=\"";
    var p := " src=\"" + u;
    assert x == p + "\"";
    assert y == " " + "alt" + "=\"" + t + "\"";
    assert x + y == p + ("\"" + " " + "alt" + "=\"") + t + "\"";
  }

  /** The leaf of any span obeys the structural rules of the node tree. */
  lemma TextNodeRenderable(n: TextNode)
    ensures Renderable(TextNodeToHtmlNode(n))
  {
  }
}
