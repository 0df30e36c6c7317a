/** TiXmlPrinter: a visitor that keeps a depth and a flag between its calls, proved to append the text of XmlTree. */
module XmlPrinter {
  import opened CStrings
  import opened XmlText
  import opened XmlAttributes
  import opened XmlTree
  import XmlReader

  class Printer {
    var depth: nat
    var simpleTextPrint: bool
    var buffer: string
    var indent: string
    var lineBreak: string

    constructor ()
      ensures Style() == Pretty && depth == 0 && !simpleTextPrint && buffer == ""
    {
      depth, simpleTextPrint, buffer, indent, lineBreak := 0, false, "", "    ", "\n";
    }

    function Style(): Style
      reads this
    {
      XmlTree.Style(indent, lineBreak)
    }

    method SetStreamPrinting()
      modifies this`indent, this`lineBreak
      ensures Style() == Stream
    {
      indent, lineBreak := "", "";
    }

    method DoIndent()
      modifies this`buffer
      ensures buffer == old(buffer) + Repeat(indent, depth)
    {
      assert buffer + Repeat(indent, depth) == old(buffer) + Repeat(indent, depth);
      for i := 0 to depth
        invariant buffer + Repeat(indent, depth - i) == old(buffer) + Repeat(indent, depth)
      {
        Associate(buffer, indent, Repeat(indent, depth - i - 1));
        buffer := buffer + indent;
      }
      assert buffer + "" == buffer;
    }

    method DoLineBreak()
      modifies this`buffer
      ensures buffer == old(buffer) + lineBreak
    {
      buffer := buffer + lineBreak;
    }

    /** TiXmlAttribute::Print for each attribute the walk by Next shows. */
    method PrintAttributes(attrs: seq<Pair>)
      modifies this`buffer
      ensures buffer == old(buffer) + PrintAttrs(Shown(attrs))
    {
      var shown, i := Shown(attrs), 0;
      assert shown[0..] == shown;
      while i < |shown|
        invariant 0 <= i <= |shown|
        invariant buffer + PrintAttrs(shown[i..]) == old(buffer) + PrintAttrs(shown)
      {
        var n := XmlReader.EncodeStringLoop(shown[i].name);
        var v := XmlReader.EncodeStringLoop(shown[i].value);
        assert shown[i..][1..] == shown[i + 1..];
        AttrAppended(buffer, shown[i], PrintAttrs(shown[i + 1..]));
        buffer := buffer + " ";
        if '"' !in shown[i].value {
          buffer := buffer + n + "=\"" + v + "\"";
        } else {
          buffer := buffer + n + "='" + v + "'";
        }
        i := i + 1;
      }
      assert buffer + "" == buffer;
    }

    /** VisitEnter for an element. */
    method VisitEnter(n: Tree)
      requires n.Element? && !simpleTextPrint
      modifies this`buffer, this`depth, this`simpleTextPrint
      ensures depth == old(depth) + 1 && simpleTextPrint == Simple(n.kids)
      ensures buffer == old(buffer) + Entered(n, old(depth), Style())
    {
      DoIndent();
      buffer := buffer + "<" + n.name;
      PrintAttributes(n.attrs);
      OpenAppended(old(buffer), Repeat(indent, depth), n);
      ghost var open := Repeat(indent, depth) + OpenTag(n.name, n.attrs);
      if n.kids == [] {
        TwoAppended(old(buffer), open, " />", lineBreak);
        buffer := buffer + " />";
        DoLineBreak();
      } else {
        TwoAppended(old(buffer), open, ">", lineBreak);
        buffer := buffer + ">";
        if Simple(n.kids) {
          simpleTextPrint := true;
        } else {
          DoLineBreak();
        }
      }
      depth := depth + 1;
    }

    method VisitExit(n: Tree)
      requires n.Element? && depth > 0 && simpleTextPrint == Simple(n.kids)
      modifies this`buffer, this`depth, this`simpleTextPrint
      ensures depth == old(depth) - 1 && !simpleTextPrint
      ensures buffer == old(buffer) + Left(n, depth, Style())
    {
      depth := depth - 1;
      if n.kids != [] {
        if simpleTextPrint {
          simpleTextPrint := false;
        } else {
          DoIndent();
        }
        buffer := buffer + "</" + n.name + ">";
        DoLineBreak();
      }
    }

    /** Visit for a text that is not CDATA. */
    method VisitText(value: string)
      modifies this`buffer
      ensures buffer == old(buffer)
                      + if simpleTextPrint then EncodeString(value) else PrintNode(Text(value), depth, Style())
    {
      var str := XmlReader.EncodeStringLoop(value);
      if simpleTextPrint {
        buffer := buffer + str;
      } else {
        DoIndent();
        TextAppended(old(buffer), Repeat(indent, depth), str, lineBreak);
        buffer := buffer + str;
        DoLineBreak();
      }
    }

    /** Accept: an element is entered, its children are visited in order, and it is left. */
    method Accept(n: Tree)
      requires n.Element? ==> !simpleTextPrint
      modifies this`buffer, this`depth, this`simpleTextPrint
      ensures depth == old(depth) && simpleTextPrint == old(simpleTextPrint)
      ensures buffer == old(buffer) + if simpleTextPrint then EncodeString(n.value) else PrintNode(n, depth, Style())
      decreases n, 1, 1
    {
      if n.Text? {
        VisitText(n.value);
      } else {
        AcceptElement(n);
      }
    }

    /** TiXmlElement::Accept. */
    method AcceptElement(n: Tree)
      requires n.Element? && !simpleTextPrint
      modifies this`buffer, this`depth, this`simpleTextPrint
      ensures depth == old(depth) && !simpleTextPrint
      ensures buffer == old(buffer) + PrintNode(n, depth, Style())
      decreases n, 1, 0
    {
      VisitEnter(n);
      AcceptKids(n);
      VisitExit(n);
      ElementAppended(old(buffer), n, depth, Style());
    }

    method AcceptKids(n: Tree)
      requires n.Element? && simpleTextPrint == Simple(n.kids)
      modifies this`buffer, this`depth, this`simpleTextPrint
      ensures depth == old(depth) && simpleTextPrint == old(simpleTextPrint)
      ensures buffer == old(buffer)
                      + if Simple(n.kids) then EncodeString(n.kids[0].value) else PrintNodes(n.kids, depth, Style())
      decreases n, 0
    {
      ghost var all := if Simple(n.kids) then EncodeString(n.kids[0].value) else PrintNodes(n.kids, depth, Style());
      ghost var kids := n.kids;
      assert kids[0..] == kids;
      var i := 0;
      while i < |n.kids|
        invariant 0 <= i <= |kids| && depth == old(depth) && simpleTextPrint == old(simpleTextPrint) == Simple(kids)
        invariant buffer + Ahead(kids, i, depth, Style()) == old(buffer) + all
      {
        Associate(buffer, Ahead1(kids, i, depth, Style()), Ahead(kids, i + 1, depth, Style()));
        AheadStep(kids, i, depth, Style());
        Accept(n.kids[i]);
        i := i + 1;
      }
      assert Ahead(kids, |kids|, depth, Style()) == "";
      assert buffer + "" == buffer;
    }
  }

  // ----- what one call appends -----

  function Entered(n: Tree, depth: nat, style: Style): string
    requires n.Element?
  {
    Repeat(style.indent, depth) + OpenTag(n.name, n.attrs)
    + (if n.kids == [] then " />" + style.lineBreak else if Simple(n.kids) then ">" else ">" + style.lineBreak)
  }

  function Left(n: Tree, depth: nat, style: Style): string
    requires n.Element?
  {
    if n.kids == [] then ""
    else (if Simple(n.kids) then "" else Repeat(style.indent, depth)) + EndTag(n.name) + style.lineBreak
  }

  function Ahead1(kids: seq<Tree>, i: nat, depth: nat, style: Style): string
    requires i < |kids|
  {
    if Simple(kids) then EncodeString(kids[0].value) else PrintNode(kids[i], depth, style)
  }

  function Ahead(kids: seq<Tree>, i: nat, depth: nat, style: Style): string
    requires i <= |kids|
  {
    if Simple(kids) then (if i == 0 then EncodeString(kids[0].value) else "") else PrintNodes(kids[i..], depth, style)
  }

  lemma AheadStep(kids: seq<Tree>, i: nat, depth: nat, style: Style)
    requires i < |kids|
    ensures Ahead(kids, i, depth, style) == Ahead1(kids, i, depth, style) + Ahead(kids, i + 1, depth, style)
  {
    assert kids[i..][1..] == kids[i + 1..];
  }

  lemma TextAppended(b: string, ind: string, text: string, lb: string)
    ensures ((b + ind) + text) + lb == b + (ind + text + lb)
  {
  }

  lemma TwoAppended(b: string, o: string, x: string, y: string)
    ensures ((b + o) + x) + y == b + (o + (x + y)) && (b + o) + x == b + (o + x)
  {
  }

  lemma AttrAppended(b: string, a: Pair, more: string)
    ensures var n, v := EncodeString(a.name), EncodeString(a.value);
            b + (" " + PrintAttr(a) + more)
            == (if '"' !in a.value then b + " " + n + "=\"" + v + "\"" else b + " " + n + "='" + v + "'") + more
  {
  }

  lemma OpenAppended(b: string, ind: string, n: Tree)
    requires n.Element?
    ensures b + ind + "<" + n.name + PrintAttrs(Shown(n.attrs)) == b + (ind + OpenTag(n.name, n.attrs))
  {
  }

  lemma ElementAppended(b: string, n: Tree, depth: nat, style: Style)
    requires n.Element?
    ensures var inner := if Simple(n.kids) then EncodeString(n.kids[0].value) else PrintNodes(n.kids, depth + 1, style);
            b + Entered(n, depth, style) + inner + Left(n, depth, style) == b + PrintNode(n, depth, style)
  {
    var ind, open := Repeat(style.indent, depth), OpenTag(n.name, n.attrs);
    if n.kids == [] {
      EmptyPieces(b, ind, open, style.lineBreak);
    } else if Simple(n.kids) {
      SimplePieces(b, ind, open, EncodeString(n.kids[0].value), EndTag(n.name), style.lineBreak);
    } else {
      NestedPieces(b, ind, open, PrintNodes(n.kids, depth + 1, style), EndTag(n.name), style.lineBreak);
    }
  }

  lemma EmptyPieces(b: string, ind: string, open: string, lb: string)
    ensures b + (ind + open + (" />" + lb)) + "" + "" == b + (ind + open + " />" + lb)
  {
  }

  lemma SimplePieces(b: string, ind: string, open: string, text: string, end: string, lb: string)
    ensures b + (ind + open + ">") + text + ("" + end + lb) == b + (ind + open + (">" + text + end) + lb)
  {
  }

  lemma NestedPieces(b: string, ind: string, open: string, nodes: string, end: string, lb: string)
    ensures b + (ind + open + (">" + lb)) + nodes + (ind + end + lb)
         == b + (ind + open + (">" + (lb + nodes + ind) + end) + lb)
  {
  }
}
