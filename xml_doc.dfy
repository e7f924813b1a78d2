/*
 * The queries and small setters of libxml2's tree module
 * (Programs/ColladaConverter/Collada15/FCollada/LibXML/tree.c) that read the
 * node tree of XmlTree: the root element of a document, blank text nodes,
 * the inherited xml:space mode, namespace declarations and the namespaces in
 * scope, and the compression level of a document and of the library.
 *
 * Walks over next and parent pointers are given the ghost list of the nodes
 * they visit, which both bounds the walk and names its answer.
 */
module XmlDoc {

  import opened Wrappers
  import opened XmlString
  import opened XmlTree
  import XmlValidate

  // ---------------------------------------------------------------------
  // xmlDocGetRootElement
  // ---------------------------------------------------------------------

  /** The position of the first element node of kids, |kids| when there is none. */
  function FirstElement(kids: seq<Node>): (k: nat)
    ensures k <= |kids|
    ensures k < |kids| ==> kids[k].kind == ElementNode
    ensures forall j :: 0 <= j < k ==> kids[j].kind != ElementNode
  {
    if kids == [] then 0
    else if kids[0].kind == ElementNode then 0
    else 1 + FirstElement(kids[1..])
  }

  /**
   * xmlDocGetRootElement: the first element among the document's top-level
   * nodes (which may also hold comments, processing instructions and the
   * like), or null; kids is that list.
   */
  method DocGetRootElement(doc: Doc?, ghost kids: seq<Node>) returns (r: Node?)
    requires doc != null ==> Chain(doc.children, kids)
    ensures doc == null ==> r == null
    ensures doc != null ==> r == if FirstElement(kids) < |kids| then kids[FirstElement(kids)] else null
  {
    if doc == null {
      return null;
    }
    r := doc.children;
    ghost var n := 0;
    while r != null
      invariant n <= |kids| && r == (if n < |kids| then kids[n] else null)
      invariant forall j :: 0 <= j < n ==> kids[j].kind != ElementNode
      decreases |kids| - n
    {
      if r.kind == ElementNode {
        return r;
      }
      r := r.next;
      n := n + 1;
    }
  }

  // ---------------------------------------------------------------------
  // xmlIsBlankNode
  // ---------------------------------------------------------------------

  /** Text that is absent or made only of blanks (space, tab, line feed, carriage return). */
  predicate BlankText(c: Option<XmlStr>)
  {
    c == None || forall k :: 0 <= k < |c.value| ==> XmlValidate.IsBlank(c.value[k] as int)
  }

  /** xmlIsBlankNode: 1 for a text or CDATA node whose content is absent or blank, 0 for anything else. */
  method IsBlankNode(node: Node?) returns (r: int)
    ensures r == 1 <==> node != null && (node.kind == TextNode || node.kind == CDataSectionNode) && BlankText(node.content)
    ensures r == 0 || r == 1
  {
    if node == null {
      return 0;
    }
    if node.kind != TextNode && node.kind != CDataSectionNode {
      return 0;
    }
    if node.content == None {
      return 1;
    }
    var s := node.content.value;
    var i := 0;
    while At(s, i) != '\0'
      invariant i <= |s|
      invariant forall k :: 0 <= k < i ==> XmlValidate.IsBlank(s[k] as int)
      decreases |s| - i
    {
      if !XmlValidate.IsBlank(At(s, i) as int) {
        return 0;
      }
      i := i + 1;
    }
    return 1;
  }

  // ---------------------------------------------------------------------
  // xmlNodeGetSpacePreserve
  // ---------------------------------------------------------------------

  /** XML_XML_NAMESPACE: the namespace bound to the prefix xml (Namespaces in XML 1.0, section 3). */
  const XmlNamespace: XmlStr := "http://www.w3.org/XML/1998/namespace"

  /** anc is cur followed by its ancestors, up to a node with no parent. */
  ghost predicate Ancestry(cur: Node, anc: seq<Node>)
    reads anc
  {
    anc != [] && anc[0] == cur && anc[|anc| - 1].parent == null &&
    forall i :: 0 <= i < |anc| - 1 ==> anc[i].parent == anc[i + 1]
  }

  /** What xmlGetNsProp finds in attrs: the value of the first attribute name in namespace href, "" for no value. */
  ghost function NsPropValue(attrs: seq<Node>, name: XmlStr, href: XmlStr): (v: Option<XmlStr>)
    reads attrs
    ensures v == None <==> forall j :: 0 <= j < |attrs| ==> !AttrMatches(attrs[j], name, Some(Ns(Some(href), None)))
  {
    var k := FirstMatch(attrs, name, Some(Ns(Some(href), None)));
    if k < |attrs| then Some(Text(attrs[k].content)) else None
  }

  /**
   * xmlGetNsProp(node, name, href) over the attributes attached to node: the
   * value of the first attribute with that name in a namespace with that
   * URI, or None.
   */
  method GetNsProp(node: Node?, name: XmlStr, href: XmlStr, ghost attrs: seq<Node>) returns (v: Option<XmlStr>)
    requires node != null ==> Chain(node.properties, attrs)
    ensures node == null ==> v == None
    ensures node != null ==> v == NsPropValue(attrs, name, href)
  {
    if node == null {
      return None;
    }
    var prop, k := HasProp(node, name, Some(Ns(Some(href), None)), attrs);
    if prop == null {
      return None;
    }
    return Some(Text(prop.content));
  }

  /** A value of xml:space that decides the mode (XML 1.0, section 2.10). */
  predicate Settles(v: Option<XmlStr>)
  {
    v == Some("preserve") || v == Some("default")
  }

  /** The position of the nearest value that decides the mode, |vals| when none does. */
  function FirstSettled(vals: seq<Option<XmlStr>>): (k: nat)
    ensures k <= |vals|
    ensures k < |vals| ==> Settles(vals[k])
    ensures forall j :: 0 <= j < k ==> !Settles(vals[j])
  {
    if vals == [] then 0
    else if Settles(vals[0]) then 0
    else 1 + FirstSettled(vals[1..])
  }

  /** The mode inherited through vals: 1 for "preserve", 0 for "default", -1 when no node says. */
  function SpaceMode(vals: seq<Option<XmlStr>>): (r: int)
    ensures r == -1 <==> forall j :: 0 <= j < |vals| ==> !Settles(vals[j])
    ensures r == 1 <==> exists k :: 0 <= k < |vals| && vals[k] == Some("preserve") && forall j :: 0 <= j < k ==> !Settles(vals[j])
    ensures r == 0 <==> exists k :: 0 <= k < |vals| && vals[k] == Some("default") && forall j :: 0 <= j < k ==> !Settles(vals[j])
  {
    var k := FirstSettled(vals);
    if k == |vals| then -1 else if vals[k] == Some("preserve") then 1 else 0
  }

  /**
   * xmlNodeGetSpacePreserve: the xml:space mode of cur, taken from the
   * nearest of cur and its ancestors whose xml:space is "preserve" (1) or
   * "default" (0); -1 when none is. anc is cur and its ancestors, attrsOf[i]
   * the attributes of anc[i] and vals[i] the xml:space value they give.
   */
  method GetSpacePreserve(cur: Node?, ghost anc: seq<Node>, ghost attrsOf: seq<seq<Node>>,
                          ghost vals: seq<Option<XmlStr>>) returns (r: int)
    requires cur != null ==> Ancestry(cur, anc) && |attrsOf| == |anc| && |vals| == |anc|
    requires cur != null ==> forall i :: 0 <= i < |anc| ==> Chain(anc[i].properties, attrsOf[i])
    requires cur != null ==> forall i :: 0 <= i < |anc| ==> vals[i] == NsPropValue(attrsOf[i], "space", XmlNamespace)
    ensures cur == null ==> r == -1
    ensures cur != null ==> r == SpaceMode(vals)
  {
    if cur == null {
      return -1;
    }
    var n: Node? := cur;
    ghost var i := 0;
    while n != null
      invariant i <= |anc| && n == (if i < |anc| then anc[i] else null)
      invariant forall j :: 0 <= j < i ==> !Settles(vals[j])
      decreases |anc| - i
    {
      var space := GetNsProp(n, "space", XmlNamespace, attrsOf[i]);
      if space == Some("preserve") {
        assert FirstSettled(vals) == i by { FirstSettledAt(vals, i); }
        return 1;
      }
      if space == Some("default") {
        assert FirstSettled(vals) == i by { FirstSettledAt(vals, i); }
        return 0;
      }
      n := n.parent;
      i := i + 1;
    }
    assert FirstSettled(vals) == |vals| by { FirstSettledAt(vals, |vals|); }
    return -1;
  }

  /** FirstSettled is pinned down by its two properties. */
  lemma {:induction false} FirstSettledAt(vals: seq<Option<XmlStr>>, i: nat)
    requires i <= |vals| && (i < |vals| ==> Settles(vals[i]))
    requires forall j :: 0 <= j < i ==> !Settles(vals[j])
    ensures FirstSettled(vals) == i
    decreases |vals|
  {
    if vals != [] && i != 0 {
      FirstSettledAt(vals[1..], i - 1);
    }
  }

  // ---------------------------------------------------------------------
  // xmlNewNs, xmlGetNsList
  // ---------------------------------------------------------------------

  /** Some declaration of defs binds prefix (None standing for the default namespace). */
  predicate DeclaresPrefix(defs: seq<Ns>, prefix: Option<XmlStr>)
  {
    exists j :: 0 <= j < |defs| && defs[j].prefix == prefix
  }

  /** No two declarations of defs bind the same prefix. */
  predicate UniquePrefixes(defs: seq<Ns>)
  {
    forall i, j :: 0 <= i < j < |defs| ==> defs[i].prefix != defs[j].prefix
  }

  /**
   * xmlNewNs: a declaration of href under prefix, added at the end of the
   * declarations of node (an element) unless one of them already binds that
   * prefix. A prefix "xml" and a node that is not an element are refused;
   * with no node the declaration is only created.
   */
  method NewNs(node: Node?, href: Option<XmlStr>, prefix: Option<XmlStr>) returns (r: Option<Ns>)
    modifies if node == null then {} else {node}
    ensures node != null && node.kind != ElementNode ==> r == None && node.nsDef == old(node.nsDef)
    ensures prefix == Some("xml") ==> r == None
    ensures node != null ==> node.nsDef == old(node.nsDef) + (if r == None then [] else [r.value])
    ensures node == null && prefix != Some("xml") ==> r == Some(Ns(href, prefix))
    ensures node != null && node.kind == ElementNode && prefix != Some("xml") ==>
              (r == None <==> DeclaresPrefix(old(node.nsDef), prefix)) &&
              (r != None ==> r == Some(Ns(href, prefix)))
    ensures node != null && UniquePrefixes(old(node.nsDef)) ==> UniquePrefixes(node.nsDef)
  {
    if node != null && node.kind != ElementNode {
      return None;
    }
    if prefix == Some("xml") {
      return None;
    }
    var cur := Ns(href, prefix);
    if node != null {
      var defs := node.nsDef;
      var j := 0;
      while j < |defs|
        invariant j <= |defs|
        invariant forall i :: 0 <= i < j ==> defs[i].prefix != prefix
      {
        if defs[j].prefix == cur.prefix {
          return None;
        }
        j := j + 1;
      }
      node.nsDef := defs + [cur];
    }
    return Some(cur);
  }

  /** The declarations made by node, as xmlGetNsList sees them: only an element's count. */
  function DeclaredBy(node: Node): seq<Ns>
    reads node
  {
    if node.kind == ElementNode then node.nsDef else []
  }

  /** The declarations along anc, nearest node first, each node's in declaration order. */
  ghost function DefsAlong(anc: seq<Node>): (defs: seq<Ns>)
    reads anc
  {
    if anc == [] then [] else DefsAlong(anc[..|anc| - 1]) + DeclaredBy(anc[|anc| - 1])
  }

  /** acc with d added unless acc already binds d's prefix. */
  function AddNew(acc: seq<Ns>, d: Ns): (r: seq<Ns>)
  {
    if DeclaresPrefix(acc, d.prefix) then acc else acc + [d]
  }

  /** defs with every declaration dropped whose prefix an earlier one binds. */
  function FirstPerPrefix(defs: seq<Ns>): (r: seq<Ns>)
  {
    if defs == [] then [] else AddNew(FirstPerPrefix(defs[..|defs| - 1]), defs[|defs| - 1])
  }

  /** FirstPerPrefix keeps at most one declaration per prefix. */
  lemma {:induction false} FirstPerPrefixUnique(defs: seq<Ns>)
    ensures UniquePrefixes(FirstPerPrefix(defs))
    decreases |defs|
  {
    if defs != [] {
      var d := defs[|defs| - 1];
      var acc := FirstPerPrefix(defs[..|defs| - 1]);
      FirstPerPrefixUnique(defs[..|defs| - 1]);
      if !DeclaresPrefix(acc, d.prefix) {
        var r := acc + [d];
        forall i, j | 0 <= i < j < |r|
          ensures r[i].prefix != r[j].prefix
        {
          if j == |acc| {
            assert r[i] == acc[i];
          } else {
            assert r[i] == acc[i] && r[j] == acc[j];
          }
        }
      }
    }
  }

  /** Every prefix declared in defs is bound in FirstPerPrefix(defs). */
  lemma {:induction false} FirstPerPrefixCovers(defs: seq<Ns>)
    ensures forall d :: d in defs ==> DeclaresPrefix(FirstPerPrefix(defs), d.prefix)
    decreases |defs|
  {
    if defs != [] {
      var init := defs[..|defs| - 1];
      var d := defs[|defs| - 1];
      FirstPerPrefixCovers(init);
      var acc := FirstPerPrefix(init);
      assert defs == init + [d];
      forall e | e in defs
        ensures DeclaresPrefix(FirstPerPrefix(defs), e.prefix)
      {
        if e in init {
          var j :| 0 <= j < |acc| && acc[j].prefix == e.prefix;
          assert AddNew(acc, d)[j] == acc[j];
        } else if !DeclaresPrefix(acc, d.prefix) {
          assert AddNew(acc, d)[|acc|] == d;
        }
      }
    }
  }

  /** What FirstPerPrefix keeps of a prefix is the first declaration of defs that binds it: nearer hides farther. */
  lemma {:induction false} FirstPerPrefixFirst(defs: seq<Ns>)
    ensures forall x :: x in FirstPerPrefix(defs) ==>
              exists k :: 0 <= k < |defs| && defs[k] == x && forall j :: 0 <= j < k ==> defs[j].prefix != x.prefix
    decreases |defs|
  {
    if defs != [] {
      var init := defs[..|defs| - 1];
      var d := defs[|defs| - 1];
      FirstPerPrefixFirst(init);
      var acc := FirstPerPrefix(init);
      assert defs == init + [d];
      forall x | x in FirstPerPrefix(defs)
        ensures exists k :: 0 <= k < |defs| && defs[k] == x && forall j :: 0 <= j < k ==> defs[j].prefix != x.prefix
      {
        if x in acc {
          var k :| 0 <= k < |init| && init[k] == x && forall j :: 0 <= j < k ==> init[j].prefix != x.prefix;
          assert defs[k] == x;
        } else {
          assert x == d && !DeclaresPrefix(acc, d.prefix);
          FirstPerPrefixCovers(init);
          forall j | 0 <= j < |init|
            ensures init[j].prefix != d.prefix
          {
            assert init[j] in init;
          }
          assert defs[|defs| - 1] == x;
        }
      }
    }
  }

  /** The declarations along anc[..i + 1] are those along anc[..i] followed by anc[i]'s. */
  lemma DefsAlongStep(anc: seq<Node>, i: nat)
    requires i < |anc|
    ensures DefsAlong(anc[..i + 1]) == DefsAlong(anc[..i]) + DeclaredBy(anc[i])
  {
    assert anc[..i + 1][..i] == anc[..i];
  }

  /**
   * One step of xmlGetNsList's scan: ret, the declarations kept from seen,
   * gains cur unless one of them already binds cur's prefix.
   */
  method AddIfNew(ret: seq<Ns>, cur: Ns, ghost seen: seq<Ns>) returns (r: seq<Ns>)
    requires ret == FirstPerPrefix(seen)
    ensures r == FirstPerPrefix(seen + [cur])
  {
    assert (seen + [cur])[..|seen|] == seen;
    var k := 0;
    while k < |ret| && ret[k].prefix != cur.prefix
      invariant k <= |ret|
      invariant forall m :: 0 <= m < k ==> ret[m].prefix != cur.prefix
    {
      k := k + 1;
    }
    if k >= |ret| {
      return ret + [cur];
    }
    return ret;
  }

  /** xmlGetNsList's scan of one element's declarations defs, in order. */
  method AddAll(ret: seq<Ns>, defs: seq<Ns>, ghost seen: seq<Ns>) returns (r: seq<Ns>)
    requires ret == FirstPerPrefix(seen)
    ensures r == FirstPerPrefix(seen + defs)
  {
    r := ret;
    var j := 0;
    assert seen + defs[..0] == seen;
    while j < |defs|
      invariant j <= |defs|
      invariant r == FirstPerPrefix(seen + defs[..j])
    {
      assert seen + defs[..j + 1] == (seen + defs[..j]) + [defs[j]];
      r := AddIfNew(r, defs[j], seen + defs[..j]);
      j := j + 1;
    }
    assert defs[..j] == defs;
  }

  /**
   * xmlGetNsList: the namespace declarations in scope at node, nearest
   * first, one per prefix (a nearer declaration hides a farther one); None
   * when node and its ancestors declare nothing. anc is node and its
   * ancestors.
   */
  method GetNsList(node: Node?, ghost anc: seq<Node>) returns (r: Option<seq<Ns>>)
    requires node != null ==> Ancestry(node, anc)
    ensures node == null ==> r == None
    ensures node != null ==> r == if DefsAlong(anc) == [] then None else Some(FirstPerPrefix(DefsAlong(anc)))
  {
    if node == null {
      return None;
    }
    var ret: seq<Ns> := [];
    var found := false;
    var n: Node? := node;
    ghost var i := 0;
    while n != null
      invariant i <= |anc| && n == (if i < |anc| then anc[i] else null)
      invariant ret == FirstPerPrefix(DefsAlong(anc[..i]))
      invariant found <==> DefsAlong(anc[..i]) != []
      decreases |anc| - i
    {
      ghost var seen := DefsAlong(anc[..i]);
      DefsAlongStep(anc, i);
      if n.kind == ElementNode {
        ret := AddAll(ret, n.nsDef, seen);
        if n.nsDef != [] {
          found := true;
        }
        assert ret == FirstPerPrefix(seen + DeclaredBy(n));
      } else {
        assert seen + DeclaredBy(n) == seen;
      }
      ghost var next := DefsAlong(anc[..i + 1]);
      assert next == seen + DeclaredBy(n);
      assert ret == FirstPerPrefix(next);
      n := n.parent;
      i := i + 1;
    }
    assert anc[..i] == anc;
    return if found then Some(ret) else None;
  }

  // ---------------------------------------------------------------------
  // Compression level
  // ---------------------------------------------------------------------

  /** A zlib compression level forced into 0 (none) .. 9 (most). */
  function ClampMode(mode: int): (r: int)
    ensures 0 <= r <= 9
    ensures 0 <= mode <= 9 ==> r == mode
    ensures mode < 0 ==> r == 0
    ensures mode > 9 ==> r == 9
  {
    if mode < 0 then 0 else if mode > 9 then 9 else mode
  }

  /** xmlGetDocCompressMode: the document's level, -1 for no document. */
  method GetDocCompressMode(doc: Doc?) returns (r: int)
    ensures doc == null ==> r == -1
    ensures doc != null ==> r == doc.compression
  {
    if doc == null {
      return -1;
    }
    return doc.compression;
  }

  /** xmlSetDocCompressMode: the document's level becomes mode clamped to 0..9; no document, no effect. */
  method SetDocCompressMode(doc: Doc?, mode: int)
    modifies doc
    ensures doc != null ==> doc.compression == ClampMode(mode) && doc.children == old(doc.children)
  {
    if doc == null {
      return;
    }
    if mode < 0 {
      doc.compression := 0;
    } else if mode > 9 {
      doc.compression := 9;
    } else {
      doc.compression := mode;
    }
  }

  /** The library's global default level, xmlCompressMode. */
  class Settings {
    var compressMode: int

    /** The level the library starts with: no compression. */
    constructor ()
      ensures compressMode == 0
    {
      compressMode := 0;
    }

    /** xmlGetCompressMode. */
    method GetCompressMode() returns (r: int)
      ensures r == compressMode
    {
      return compressMode;
    }

    /** xmlSetCompressMode: the default level becomes mode clamped to 0..9. */
    method SetCompressMode(mode: int)
      modifies this
      ensures compressMode == ClampMode(mode)
    {
      if mode < 0 {
        compressMode := 0;
      } else if mode > 9 {
        compressMode := 9;
      } else {
        compressMode := mode;
      }
    }
  }
}
