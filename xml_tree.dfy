/*
 * libxml2's node tree (Programs/ColladaConverter/Collada15/FCollada/LibXML/tree.c):
 * nodes linked to their parent, to their first and last child and to their
 * previous and next sibling; attributes hang off an element's `properties`
 * list, which is linked the same way but has no `last` pointer.
 *
 * xmlNode and xmlAttr are one class here, told apart by `kind`. Freeing a
 * node is modelled by adding it to the ghost set `freed` of a Memory object
 * standing for the allocator: the node stays readable in the model, so a
 * freed node still reachable from the tree is visible in the state instead
 * of being undefined behaviour. A node name is compared by its
 * characters where the C code compares the name pointers (text nodes share
 * the static names "text" and "textnoenc").
 */
module XmlTree {

  import opened Wrappers
  import opened XmlString

  /** xmlElementType */
  datatype NodeKind =
    | ElementNode | AttributeNode | TextNode | CDataSectionNode | EntityRefNode
    | EntityNode | PINode | CommentNode | DocumentNode | DocumentTypeNode
    | DocumentFragNode | NotationNode | HtmlDocumentNode | DtdNode
    | ElementDecl | AttributeDecl | EntityDecl | NamespaceDecl
    | XIncludeStart | XIncludeEnd

  /** xmlNs: a namespace declaration (the `next` link is the order of the sequence that holds it). */
  datatype Ns = Ns(href: Option<XmlStr>, prefix: Option<XmlStr>)

  /** xmlDoc: the fields the modelled operations touch. */
  class Doc {
    var children: Node?
    var compression: int
  }

  /** xmlNode, and xmlAttr when kind == AttributeNode. */
  class Node {
    const kind: NodeKind
    var name: XmlStr
    var content: Option<XmlStr>
    /** The namespace the node or attribute is in. */
    var ns: Option<Ns>
    /** The namespaces an element declares, in declaration order. */
    var nsDef: seq<Ns>
    var parent: Node?
    var children: Node?
    var last: Node?
    var next: Node?
    var prev: Node?
    var properties: Node?
    var doc: Doc?
  }

  /** The allocator, as far as the model needs it: the nodes released so far. */
  class Memory {
    ghost var freed: set<Node>
  }

  /** In no list: no parent and no siblings. */
  ghost predicate Detached(n: Node)
    reads n
  {
    n.parent == null && n.next == null && n.prev == null
  }

  ghost predicate Distinct(s: seq<Node>)
  {
    forall i, j :: 0 <= i < j < |s| ==> s[i] != s[j]
  }

  /** Consecutive nodes of s point at each other through next and prev. */
  ghost predicate Linked(s: seq<Node>)
    reads s
  {
    (forall i {:trigger s[i].next} :: 0 <= i < |s| - 1 ==> s[i].next == s[i + 1]) &&
    (forall i {:trigger s[i].prev} :: 0 < i < |s| ==> s[i].prev == s[i - 1])
  }

  /** s is a whole sibling list: linked, open at both ends, every node pointing back at p. */
  ghost predicate SiblingList(p: Node, s: seq<Node>)
    reads s
  {
    Distinct(s) && Linked(s) &&
    (forall j {:trigger s[j].parent} :: 0 <= j < |s| ==> s[j].parent == p) &&
    (forall j :: 0 <= j < |s| ==> s[j] != p) &&
    (s != [] ==> s[0].prev == null && s[|s| - 1].next == null)
  }

  /**
   * s is, in order, the list of p's attributes (attrs) or of its children
   * (!attrs): the first one is p.properties or p.children, the last one
   * p.last for children.
   */
  ghost predicate ListOf(p: Node, s: seq<Node>, attrs: bool)
    reads p, s
  {
    SiblingList(p, s) &&
    (forall j :: 0 <= j < |s| ==> (s[j].kind == AttributeNode <==> attrs)) &&
    if attrs then p.properties == (if s == [] then null else s[0])
    else if s == [] then p.children == null && p.last == null
    else p.children == s[0] && p.last == s[|s| - 1]
  }

  /** Every node of s is an attribute (attrs) or every one is not (!attrs). */
  ghost predicate Kinds(s: seq<Node>, attrs: bool)
  {
    forall j :: 0 <= j < |s| ==> (s[j].kind == AttributeNode <==> attrs)
  }

  /** p's list pointers name the ends of the non-empty list s, as ListOf has them. */
  ghost predicate Ends(p: Node, s: seq<Node>, attrs: bool)
    requires s != []
    reads p
  {
    if attrs then p.properties == s[0] else p.children == s[0] && p.last == s[|s| - 1]
  }

  ghost predicate ChildList(p: Node, kids: seq<Node>)
    reads p, kids
  {
    ListOf(p, kids, false)
  }

  ghost predicate AttrList(p: Node, attrs: seq<Node>)
    reads p, attrs
  {
    ListOf(p, attrs, true)
  }

  /** s without its i-th element. */
  ghost function Without(s: seq<Node>, i: nat): (r: seq<Node>)
    requires i < |s|
    ensures |r| == |s| - 1
    ensures forall j :: 0 <= j < i ==> r[j] == s[j]
    ensures forall j :: i <= j < |r| ==> r[j] == s[j + 1]
  {
    s[..i] + s[i + 1..]
  }

  /** s is the list reached from head through next links, ending in null. */
  ghost predicate Chain(head: Node?, s: seq<Node>)
    reads s
  {
    Distinct(s) &&
    head == (if s == [] then null else s[0]) &&
    (forall i {:trigger s[i].next} :: 0 <= i < |s| - 1 ==> s[i].next == s[i + 1]) &&
    (s != [] ==> s[|s| - 1].next == null)
  }

  lemma SiblingListIsChain(p: Node, s: seq<Node>)
    requires SiblingList(p, s)
    ensures Chain(if s == [] then null else s[0], s)
  {
  }

  /** The text of an optional string, NULL read as "". */
  function Text(c: Option<XmlStr>): XmlStr
  {
    if c.Some? then c.value else ""
  }

  /**
   * The content of a text node after xmlNodeAddContent(node, add): NULL and
   * "" add nothing, anything else is appended (to "" when the node had none).
   */
  function Appended(c: Option<XmlStr>, add: Option<XmlStr>): (r: Option<XmlStr>)
    ensures add == None || add == Some("") ==> r == c
    ensures add != None && add != Some("") ==> r == Some(Text(c) + add.value)
  {
    match add
    case None => c
    case Some(a) => if a == "" then c else Some(Text(c) + a)
  }

  /**
   * xmlStrcat(xmlStrdup(a), b) as stored by xmlNodeSetContent: NULL only
   * when both are NULL.
   */
  function Joined(a: Option<XmlStr>, b: Option<XmlStr>): (r: Option<XmlStr>)
    ensures r == None <==> a == None && b == None
    ensures Text(r) == Text(a) + Text(b)
  {
    if a == None && b == None then None else Some(Text(a) + Text(b))
  }

  /** xmlNodeAddContent on a text node. */
  method AddTextContent(n: Node, add: Option<XmlStr>)
    requires n.kind == TextNode
    modifies n
    ensures n.content == Appended(old(n.content), add)
    ensures n.children == old(n.children) && n.last == old(n.last) && n.parent == old(n.parent)
    ensures n.next == old(n.next) && n.prev == old(n.prev)
  {
    if add == None || add.value == "" {
      return;
    }
    n.content := Some(Text(n.content) + add.value);
  }

  /** xmlNodeSetContent on a text node: the content replaced, any children dropped. */
  method SetTextContent(n: Node, content: Option<XmlStr>)
    requires n.kind == TextNode
    modifies n
    ensures n.content == content && n.children == null && n.last == null
    ensures n.parent == old(n.parent) && n.next == old(n.next) && n.prev == old(n.prev)
  {
    n.children, n.last := null, null;
    n.content := content;
  }

  /** xmlFreeNode / xmlFreeProp: the node (and, in the C code, everything below it) is released. */
  method FreeNode(mem: Memory, n: Node)
    modifies mem
    ensures mem.freed == old(mem.freed) + {n}
  {
    mem.freed := mem.freed + {n};
  }

  /** xmlSetTreeDoc on the moved node itself. */
  method SetTreeDoc(n: Node, doc: Doc?)
    modifies n
    ensures n.doc == doc
    ensures n.name == old(n.name) && n.ns == old(n.ns)
    ensures n.parent == old(n.parent) && n.next == old(n.next) && n.prev == old(n.prev)
    ensures n.children == old(n.children) && n.last == old(n.last) && n.content == old(n.content)
    ensures n.properties == old(n.properties)
  {
    n.doc := doc;
  }

  /**
   * xmlUnlinkNode: cur leaves its parent's list (the property list for an
   * attribute, the children list otherwise), its neighbours are joined, and
   * it ends with no parent and no siblings. The node is not freed.
   */
  method UnlinkNode(cur: Node?, ghost kids: seq<Node>, ghost i: nat)
    modifies if cur == null then {} else {cur, cur.parent, cur.next, cur.prev}
    ensures cur != null ==> Detached(cur)
    ensures cur != null ==> cur.name == old(cur.name) && cur.ns == old(cur.ns) && cur.content == old(cur.content) && cur.doc == old(cur.doc)
    ensures cur != null && old(Detached(cur)) ==> unchanged(cur)
    ensures cur != null && old(cur.next) != null && old(cur.next) != cur ==>
              var n := old(cur.next);
              n.parent == old(n.parent) && n.name == old(n.name) && n.content == old(n.content) && n.doc == old(n.doc) &&
              (n != old(cur.prev) ==> n.next == old(n.next))
    ensures cur != null && old(cur.prev) != null && old(cur.prev) != cur ==>
              var v := old(cur.prev);
              v.parent == old(v.parent) && v.name == old(v.name) && v.content == old(v.content) && v.doc == old(v.doc) &&
              (v != old(cur.next) ==> v.prev == old(v.prev))
    ensures cur != null && old(cur.parent) != null && old(cur.parent) != cur ==>
              var p := old(cur.parent);
              p.parent == old(p.parent) && p.name == old(p.name) && p.content == old(p.content) && p.doc == old(p.doc) &&
              (p != old(cur.prev) ==> p.next == old(p.next)) && (p != old(cur.next) ==> p.prev == old(p.prev))
    ensures cur != null && old(cur.next) != null && old(cur.next) != cur ==> old(cur.next).prev == old(cur.prev)
    ensures cur != null && old(cur.prev) != null && old(cur.prev) != cur ==> old(cur.prev).next == old(cur.next)
    ensures cur != null && old(cur.parent) != null && cur.kind == AttributeNode ==>
              old(cur.parent).properties == if old(cur.parent.properties) == cur then old(cur.next) else old(cur.parent.properties)
    ensures cur != null && old(cur.parent) != null && cur.kind != AttributeNode ==>
              old(cur.parent).children == (if old(cur.parent.children) == cur then old(cur.next) else old(cur.parent.children)) &&
              old(cur.parent).last == (if old(cur.parent.last) == cur then old(cur.prev) else old(cur.parent.last))
    ensures cur != null && old(cur.parent) != null && i < |kids| && kids[i] == cur &&
            old(ListOf(cur.parent, kids, cur.kind == AttributeNode)) ==>
              ListOf(old(cur.parent), Without(kids, i), cur.kind == AttributeNode)
  {
    if cur == null {
      return;
    }
    ghost var p := cur.parent;
    ghost var attrs := cur.kind == AttributeNode;
    ghost var listed := p != null && i < |kids| && kids[i] == cur && ListOf(p, kids, attrs);
    ghost var next0, prev0 := cur.next, cur.prev;
    ghost var first0 := if p == null then null else if attrs then p.properties else p.children;
    ghost var last0 := if p == null then null else p.last;
    if listed {
      assert next0 == (if i + 1 < |kids| then kids[i + 1] else null);
      assert prev0 == (if 0 < i then kids[i - 1] else null);
    }
    DetachFromParent(cur, kids);
    JoinNeighbours(cur, kids, i);
    if listed {
      UnlinkedEnds(kids, i, attrs, first0, last0, next0, prev0);
      Unlinked(p, kids, i, attrs);
    }
  }

  /** Where the ends of a list move when its i-th node leaves it. */
  lemma UnlinkedEnds(kids: seq<Node>, i: nat, attrs: bool, first0: Node?, last0: Node?, next0: Node?, prev0: Node?)
    requires i < |kids| && Distinct(kids) && first0 == kids[0] && (!attrs ==> last0 == kids[|kids| - 1])
    requires next0 == (if i + 1 < |kids| then kids[i + 1] else null)
    requires prev0 == (if 0 < i then kids[i - 1] else null)
    ensures (if first0 == kids[i] then next0 else first0) == (if 0 < i then kids[0] else if 1 < |kids| then kids[1] else null)
    ensures !attrs ==> (if last0 == kids[i] then prev0 else last0) ==
                       (if i + 1 < |kids| then kids[|kids| - 1] else if 0 < i then kids[i - 1] else null)
  {
  }

  /** The first half of xmlUnlinkNode: the parent stops pointing at cur, and cur at the parent. */
  method DetachFromParent(cur: Node, ghost kids: seq<Node>)
    modifies cur, cur.parent
    ensures forall j :: 0 <= j < |kids| && kids[j] != cur && kids[j] != old(cur.parent) ==>
              kids[j].parent == old(kids[j].parent) && kids[j].next == old(kids[j].next) && kids[j].prev == old(kids[j].prev)
    ensures cur.parent == null && cur.next == old(cur.next) && cur.prev == old(cur.prev)
    ensures old(cur.parent) == null ==> unchanged(cur)
    ensures cur.name == old(cur.name) && cur.ns == old(cur.ns) && cur.content == old(cur.content) && cur.doc == old(cur.doc)
    ensures var p := old(cur.parent);
            p != null && p != cur ==> p.parent == old(p.parent) && p.next == old(p.next) && p.prev == old(p.prev) &&
                                      p.name == old(p.name) && p.content == old(p.content) && p.doc == old(p.doc)
    ensures var p := old(cur.parent);
            p != null ==>
              p.properties == (if cur.kind == AttributeNode && old(p.properties) == cur then old(cur.next) else old(p.properties)) &&
              p.children == (if cur.kind != AttributeNode && old(p.children) == cur then old(cur.next) else old(p.children)) &&
              p.last == (if cur.kind != AttributeNode && old(p.last) == cur then old(cur.prev) else old(p.last))
  {
    if cur.parent != null {
      var parent := cur.parent;
      if cur.kind == AttributeNode {
        if parent.properties == cur {
          parent.properties := cur.next;
        }
      } else {
        if parent.children == cur {
          parent.children := cur.next;
        }
        if parent.last == cur {
          parent.last := cur.prev;
        }
      }
      cur.parent := null;
    }
  }

  /** cur's neighbours pointed at each other, cur itself left with no siblings. */
  method JoinNeighbours(cur: Node, ghost kids: seq<Node>, ghost i: nat)
    modifies cur, cur.next, cur.prev
    ensures forall j :: 0 <= j < |kids| ==> kids[j].parent == old(kids[j].parent)
    ensures i < |kids| && kids[i] == cur && Distinct(kids) && old(Linked(kids)) &&
            old(kids[0].prev) == null && old(kids[|kids| - 1].next) == null ==>
              (forall j {:trigger kids[j].next} :: 0 <= j < |kids| - 1 && j != i - 1 && j != i ==> kids[j].next == kids[j + 1]) &&
              (forall j {:trigger kids[j].prev} :: 0 < j < |kids| && j != i && j != i + 1 ==> kids[j].prev == kids[j - 1]) &&
              (0 < i ==> kids[i - 1].next == (if i + 1 < |kids| then kids[i + 1] else null)) &&
              (i + 1 < |kids| ==> kids[i + 1].prev == (if 0 < i then kids[i - 1] else null)) &&
              (0 < i ==> kids[0].prev == null) &&
              (i + 1 < |kids| ==> kids[|kids| - 1].next == null)
    ensures cur.next == null && cur.prev == null && cur.parent == old(cur.parent)
    ensures old(cur.next) == null && old(cur.prev) == null ==> unchanged(cur)
    ensures cur.name == old(cur.name) && cur.ns == old(cur.ns) && cur.content == old(cur.content) && cur.doc == old(cur.doc)
    ensures old(cur.next) != null && old(cur.next) != cur ==> old(cur.next).prev == old(cur.prev) && (old(cur.next) != old(cur.prev) ==> old(cur.next).next == old(cur.next.next))
    ensures old(cur.prev) != null && old(cur.prev) != cur ==> old(cur.prev).next == old(cur.next) && (old(cur.prev) != old(cur.next) ==> old(cur.prev).prev == old(cur.prev.prev))
    ensures cur.children == old(cur.children) && cur.last == old(cur.last) && cur.properties == old(cur.properties)
    ensures old(cur.next) != null && old(cur.next) != cur ==>
              old(cur.next).name == old(cur.next.name) && old(cur.next).content == old(cur.next.content) &&
              old(cur.next).doc == old(cur.next.doc)
    ensures old(cur.prev) != null && old(cur.prev) != cur ==>
              old(cur.prev).name == old(cur.prev.name) && old(cur.prev).content == old(cur.prev.content) &&
              old(cur.prev).doc == old(cur.prev.doc)
    ensures old(cur.next) != null ==>
              old(cur.next).parent == old(cur.next.parent) &&
              old(cur.next).children == old(cur.next.children) && old(cur.next).last == old(cur.next.last) &&
              old(cur.next).properties == old(cur.next.properties)
    ensures old(cur.prev) != null ==>
              old(cur.prev).parent == old(cur.prev.parent) &&
              old(cur.prev).children == old(cur.prev.children) && old(cur.prev).last == old(cur.prev.last) &&
              old(cur.prev).properties == old(cur.prev.properties)
  {
    ghost var listed := i < |kids| && kids[i] == cur && Distinct(kids) && Linked(kids) &&
                        kids[0].prev == null && kids[|kids| - 1].next == null;
    if listed {
      assert cur.next == if i + 1 < |kids| then kids[i + 1] else null;
      assert cur.prev == if 0 < i then kids[i - 1] else null;
    }
    if cur.next != null {
      cur.next.prev := cur.prev;
    }
    if cur.prev != null {
      cur.prev.next := cur.next;
    }
    cur.next, cur.prev := null, null;
  }

  /**
   * Removing kids[i] from a sibling list, with its neighbours now pointing at
   * each other and every other link as it was, leaves a sibling list.
   */
  lemma RemovedLinks(p: Node, kids: seq<Node>, i: nat)
    requires i < |kids| && Distinct(kids) && forall j :: 0 <= j < |kids| ==> kids[j] != p
    requires forall j :: 0 <= j < |kids| && j != i ==> kids[j].parent == p
    requires forall j {:trigger kids[j].next} :: 0 <= j < |kids| - 1 && j != i - 1 && j != i ==> kids[j].next == kids[j + 1]
    requires forall j {:trigger kids[j].prev} :: 0 < j < |kids| && j != i && j != i + 1 ==> kids[j].prev == kids[j - 1]
    requires 0 < i ==> kids[i - 1].next == (if i + 1 < |kids| then kids[i + 1] else null)
    requires i + 1 < |kids| ==> kids[i + 1].prev == (if 0 < i then kids[i - 1] else null)
    requires 0 < i ==> kids[0].prev == null
    requires i + 1 < |kids| ==> kids[|kids| - 1].next == null
    ensures SiblingList(p, Without(kids, i))
  {
  }

  /** RemovedLinks, with p's head (and last) pointer moved off kids[i]. */
  lemma Unlinked(p: Node, kids: seq<Node>, i: nat, attrs: bool)
    requires i < |kids| && Distinct(kids) && forall j :: 0 <= j < |kids| ==> kids[j] != p
    requires forall j :: 0 <= j < |kids| ==> (kids[j].kind == AttributeNode <==> attrs)
    requires forall j :: 0 <= j < |kids| && j != i ==> kids[j].parent == p
    requires forall j {:trigger kids[j].next} :: 0 <= j < |kids| - 1 && j != i - 1 && j != i ==> kids[j].next == kids[j + 1]
    requires forall j {:trigger kids[j].prev} :: 0 < j < |kids| && j != i && j != i + 1 ==> kids[j].prev == kids[j - 1]
    requires 0 < i ==> kids[i - 1].next == (if i + 1 < |kids| then kids[i + 1] else null)
    requires i + 1 < |kids| ==> kids[i + 1].prev == (if 0 < i then kids[i - 1] else null)
    requires 0 < i ==> kids[0].prev == null
    requires i + 1 < |kids| ==> kids[|kids| - 1].next == null
    requires var first := if 0 < i then kids[0] else if 1 < |kids| then kids[1] else null;
             var final := if i + 1 < |kids| then kids[|kids| - 1] else if 0 < i then kids[i - 1] else null;
             if attrs then p.properties == first else p.children == first && p.last == final
    ensures ListOf(p, Without(kids, i), attrs)
  {
    RemovedLinks(p, kids, i);
  }

  // ---------------------------------------------------------------------
  // Attributes: xmlHasProp / xmlHasNsProp and xmlRemoveProp
  // ---------------------------------------------------------------------

  /**
   * The attribute test of xmlHasProp (ns == None) and of xmlHasNsProp with
   * the namespace URI of ns: same name and, for a namespace, an attribute in
   * a namespace with the same URI (or in none, when that URI is NULL).
   */
  predicate AttrMatches(a: Node, name: XmlStr, ns: Option<Ns>)
    reads a
  {
    a.name == name &&
    match ns
    case None => true
    case Some(n) => if a.ns.Some? then a.ns.value.href == n.href else n.href == None
  }

  /** The position of the first attribute of attrs matching name and ns, |attrs| when none does. */
  ghost function FirstMatch(attrs: seq<Node>, name: XmlStr, ns: Option<Ns>): (k: nat)
    reads attrs
    ensures k <= |attrs|
    ensures k < |attrs| ==> AttrMatches(attrs[k], name, ns)
    ensures forall j :: 0 <= j < k ==> !AttrMatches(attrs[j], name, ns)
    decreases |attrs|
  {
    if attrs == [] then 0
    else if AttrMatches(attrs[0], name, ns) then 0
    else 1 + FirstMatch(attrs[1..], name, ns)
  }

  /**
   * xmlHasProp / xmlHasNsProp over the attributes attached to node: the
   * first matching attribute in list order, or null when none matches.
   */
  method HasProp(node: Node, name: XmlStr, ns: Option<Ns>, ghost attrs: seq<Node>) returns (r: Node?, ghost k: nat)
    requires Chain(node.properties, attrs)
    ensures k == FirstMatch(attrs, name, ns)
    ensures r == if k < |attrs| then attrs[k] else null
  {
    r := node.properties;
    k := 0;
    while r != null
      invariant k <= |attrs| && r == (if k < |attrs| then attrs[k] else null)
      invariant forall j :: 0 <= j < k ==> !AttrMatches(attrs[j], name, ns)
      decreases |attrs| - k
    {
      if AttrMatches(r, name, ns) {
        return;
      }
      r := r.next;
      k := k + 1;
    }
  }

  /** The walk of xmlRemoveProp: the first attribute whose next link is cur. */
  method FindPrevAttr(head: Node?, cur: Node, ghost attrs: seq<Node>) returns (tmp: Node?, ghost j: nat)
    requires Chain(head, attrs)
    ensures tmp == null <==> forall i :: 0 <= i < |attrs| ==> attrs[i].next != cur
    ensures tmp != null ==> j < |attrs| && tmp == attrs[j] && tmp.next == cur
    ensures tmp != null ==> forall i :: 0 <= i < j ==> attrs[i].next != cur
  {
    tmp := head;
    j := 0;
    while tmp != null
      invariant j <= |attrs| && tmp == (if j < |attrs| then attrs[j] else null)
      invariant forall i :: 0 <= i < j ==> attrs[i].next != cur
      decreases |attrs| - j
    {
      if tmp.next == cur {
        return;
      }
      tmp := tmp.next;
      j := j + 1;
    }
  }

  /** In a chain, cur is a member exactly when it is the head or some member's next. */
  lemma ChainMember(head: Node?, attrs: seq<Node>, cur: Node)
    requires Chain(head, attrs)
    ensures cur in attrs <==> head == cur || exists i :: 0 <= i < |attrs| && attrs[i].next == cur
  {
    if cur in attrs {
      var k :| 0 <= k < |attrs| && attrs[k] == cur;
      if k > 0 {
        assert attrs[k - 1].next == cur;
      }
    }
  }

  /** In a sibling list, the first node whose next is kids[k] is kids[k - 1]. */
  lemma FirstPrev(p: Node, kids: seq<Node>, k: nat, j: nat)
    requires SiblingList(p, kids) && 0 < k < |kids| && j < |kids| && kids[j].next == kids[k]
    ensures j == k - 1
  {
    if j < |kids| - 1 {
      assert kids[j].next == kids[j + 1];
    }
  }

  /**
   * The unlinking step of xmlRemoveProp once the attribute before cur is
   * found: that attribute's next skips cur, and the one after cur points back
   * at it; then cur is freed. Removing attrs[k] this way leaves p's attribute
   * list.
   */
  method Bypass(mem: Memory, tmp: Node, cur: Node, ghost p: Node, ghost attrs: seq<Node>, ghost k: nat, ghost listed: bool)
    requires listed ==> 0 < k < |attrs| && attrs[k] == cur && tmp == attrs[k - 1] && ListOf(p, attrs, true)
    modifies mem, tmp, cur.next
    ensures mem.freed == old(mem.freed) + {cur}
    ensures tmp.next == old(cur.next)
    ensures old(cur.next) != null ==> old(cur.next).prev == tmp
    ensures listed ==> ListOf(p, Without(attrs, k), true)
  {
    if listed {
      assert cur.next == if k + 1 < |attrs| then attrs[k + 1] else null;
    }
    tmp.next := cur.next;
    if tmp.next != null {
      tmp.next.prev := tmp;
    }
    if listed {
      Unlinked(p, attrs, k, true);
    }
    FreeNode(mem, cur);
  }

  /**
   * The head case of xmlRemoveProp, with the new head's prev link cleared,
   * then cur freed: removing attrs[0] this way leaves p's attribute list.
   */
  method DropHead(mem: Memory, p: Node, cur: Node, ghost attrs: seq<Node>, ghost k: nat)
    requires p.properties == cur
    modifies mem, p, cur.next
    ensures mem.freed == old(mem.freed) + {cur}
    ensures p.properties == old(cur.next)
    ensures old(cur.next) != null ==> old(cur.next).prev == null
    ensures k < |attrs| && attrs[k] == cur && old(ListOf(p, attrs, true)) ==>
              ListOf(p, Without(attrs, k), true)
  {
    ghost var listed := k < |attrs| && attrs[k] == cur && ListOf(p, attrs, true);
    if listed {
      assert k == 0;
      assert cur.next == if 1 < |attrs| then attrs[1] else null;
    }
    p.properties := cur.next;
    if cur.next != null {
      cur.next.prev := null;
    }
    if listed {
      Unlinked(p, attrs, 0, true);
    }
    FreeNode(mem, cur);
  }

  /**
   * xmlRemoveProp: unlink the attribute cur from its element and free it;
   * 0 on success, -1 when cur is null, has no parent or is not in its
   * parent's attribute list (which is then left as it was). Removing the
   * head of the list also clears the new head's prev link (see
   * RemovePropAsWritten), so the attribute list is intact afterwards.
   */
  method RemoveProp(mem: Memory, cur: Node?, ghost attrs: seq<Node>, ghost k: nat) returns (r: int)
    requires cur != null && cur.parent != null ==> Chain(cur.parent.properties, attrs)
    modifies mem, if cur == null then {} else {cur.parent}, attrs
    ensures r == 0 || r == -1
    ensures r == 0 <==> cur != null && old(cur.parent) != null && cur in attrs
    ensures mem.freed == if r == 0 then old(mem.freed) + {cur} else old(mem.freed)
    ensures r == -1 ==> unchanged(attrs) && (cur != null && old(cur.parent) != null ==> unchanged(old(cur.parent)))
    ensures cur != null && old(cur.parent) != null && k < |attrs| && attrs[k] == cur &&
            old(AttrList(cur.parent, attrs)) ==>
              AttrList(old(cur.parent), Without(attrs, k))
  {
    if cur == null || cur.parent == null {
      return -1;
    }
    var p := cur.parent;
    ChainMember(p.properties, attrs, cur);
    ghost var listed := k < |attrs| && attrs[k] == cur && AttrList(p, attrs);
    if p.properties == cur {
      DropHead(mem, p, cur, attrs, k);
      return 0;
    }
    var tmp;
    ghost var j;
    tmp, j := FindPrevAttr(p.properties, cur, attrs);
    if tmp != null {
      if listed {
        assert k != 0;
        FirstPrev(p, attrs, k, j);
      }
      Bypass(mem, tmp, cur, p, attrs, k, listed);
      return 0;
    }
    return -1;
  }

  /**
   * xmlRemoveProp as the C code has it: removing the head attribute moves
   * p.properties on but leaves the new head's prev pointing at the freed
   * attribute, so the remaining list is not a well-formed attribute list.
   */
  method RemovePropAsWritten(mem: Memory, cur: Node?, ghost attrs: seq<Node>) returns (r: int)
    requires cur != null && cur.parent != null ==> Chain(cur.parent.properties, attrs)
    modifies mem, if cur == null then {} else {cur.parent}, attrs
    ensures r == 0 <==> cur != null && old(cur.parent) != null && cur in attrs
    ensures mem.freed == if r == 0 then old(mem.freed) + {cur} else old(mem.freed)
    ensures r == -1 ==> unchanged(attrs) && (cur != null && old(cur.parent) != null ==> unchanged(old(cur.parent)))
    ensures cur != null && old(cur.parent) != null && 1 < |attrs| && attrs[0] == cur &&
            old(AttrList(cur.parent, attrs)) ==>
              old(cur.parent).properties == attrs[1] && attrs[1].prev == cur && cur in mem.freed &&
              !AttrList(old(cur.parent), Without(attrs, 0))
  {
    if cur == null || cur.parent == null {
      return -1;
    }
    var p := cur.parent;
    ChainMember(p.properties, attrs, cur);
    if p.properties == cur {
      ghost var listed := 1 < |attrs| && attrs[0] == cur && AttrList(p, attrs);
      if listed {
        assert cur.next == attrs[1] && attrs[1].prev == cur;
      }
      p.properties := cur.next;
      FreeNode(mem, cur);
      if listed {
        assert Without(attrs, 0)[0] == attrs[1];
      }
      return 0;
    }
    var tmp;
    ghost var j;
    tmp, j := FindPrevAttr(p.properties, cur, attrs);
    if tmp != null {
      Bypass(mem, tmp, cur, p, attrs, 0, false);
      return 0;
    }
    return -1;
  }

  // ---------------------------------------------------------------------
  // xmlAddChild
  // ---------------------------------------------------------------------

  /** Appending cur after the last node of a sibling list gives a sibling list. */
  lemma AppendLinks(p: Node, s: seq<Node>, cur: Node)
    requires Distinct(s) && cur !in s && cur != p
    requires forall j :: 0 <= j < |s| ==> s[j] != p
    requires forall j {:trigger s[j].parent} :: 0 <= j < |s| ==> s[j].parent == p
    requires forall j {:trigger s[j].next} :: 0 <= j < |s| - 1 ==> s[j].next == s[j + 1]
    requires forall j {:trigger s[j].prev} :: 0 < j < |s| ==> s[j].prev == s[j - 1]
    requires s != [] ==> s[0].prev == null && s[|s| - 1].next == cur && cur.prev == s[|s| - 1]
    requires s == [] ==> cur.prev == null
    requires cur.parent == p && cur.next == null
    ensures SiblingList(p, s + [cur])
  {
    var t := s + [cur];
    assert forall j :: 0 <= j < |s| ==> t[j] == s[j];
    assert Distinct(t);
  }

  /**
   * The element branch of xmlAddChild: cur becomes the parent's last child,
   * after the old last child (or as the only child of an empty list).
   */
  method AppendChild(parent: Node, cur: Node, ghost kids: seq<Node>)
    requires parent.children != null ==> parent.last != null
    modifies parent, cur, parent.last
    ensures parent.last == cur
    ensures old(parent.children) == null ==> parent.children == cur
    ensures old(parent.children) != null && parent != cur ==>
              parent.children == old(parent.children) && cur.prev == old(parent.last) &&
              (old(parent.last) != cur ==> old(parent.last).next == cur)
    ensures cur.parent == old(cur.parent) && cur.doc == old(cur.doc)
    ensures cur != old(parent.last) && cur != parent ==> cur.next == old(cur.next)
    ensures old(ChildList(parent, kids)) && cur !in kids && cur != parent && cur.kind != AttributeNode &&
            cur.parent == parent && old(cur.next) == null && (kids == [] ==> old(cur.prev) == null) ==>
              ChildList(parent, kids + [cur])
  {
    ghost var listed := ChildList(parent, kids) && cur !in kids && cur != parent && cur.kind != AttributeNode &&
                        cur.parent == parent && cur.next == null && (kids == [] ==> cur.prev == null);
    if parent.children == null {
      parent.children := cur;
      parent.last := cur;
      if listed {
        AppendLinks(parent, kids, cur);
      }
    } else {
      var prev := parent.last;
      prev.next := cur;
      cur.prev := prev;
      parent.last := cur;
      if listed {
        AppendLinks(parent, kids, cur);
      }
    }
  }

  /** The "find the end" walk of xmlAddChild over a non-empty attribute list. */
  method LastAttr(head: Node, ghost attrs: seq<Node>) returns (last: Node)
    requires Chain(head, attrs)
    ensures last == attrs[|attrs| - 1] && last.next == null
  {
    last := head;
    ghost var n := 0;
    while last.next != null
      invariant n < |attrs| && last == attrs[n]
      decreases |attrs| - n
    {
      last := last.next;
      n := n + 1;
    }
  }

  /**
   * The last step of the attribute branch of xmlAddChild: cur becomes the
   * head of an empty attribute list or is hung after its last attribute.
   */
  method AppendAttr(parent: Node, cur: Node, ghost attrs: seq<Node>)
    requires parent.properties != null ==> Chain(parent.properties, attrs)
    modifies parent, cur, attrs
    ensures old(parent.properties) == null ==> parent.properties == cur
    ensures old(parent.properties) != null ==>
              parent.properties == old(parent.properties) && attrs[|attrs| - 1].next == cur && cur.prev == attrs[|attrs| - 1]
    ensures cur.parent == old(cur.parent) && cur.doc == old(cur.doc)
    ensures old(AttrList(parent, attrs)) && cur !in attrs && cur != parent && cur.kind == AttributeNode &&
            cur.parent == parent && old(cur.next) == null && (attrs == [] ==> old(cur.prev) == null) ==>
              AttrList(parent, attrs + [cur])
  {
    ghost var listed := AttrList(parent, attrs) && cur !in attrs && cur != parent && cur.kind == AttributeNode &&
                        cur.parent == parent && cur.next == null && (attrs == [] ==> cur.prev == null);
    if parent.properties == null {
      parent.properties := cur;
      if listed {
        AppendLinks(parent, attrs, cur);
      }
    } else {
      var last := LastAttr(parent.properties, attrs);
      last.next := cur;
      cur.prev := last;
      if listed {
        AppendLinks(parent, attrs, cur);
      }
    }
  }

  /** attrs once the attribute at k, if there is one and it is not cur, is taken out. */
  ghost function Dropped(attrs: seq<Node>, k: nat, cur: Node): (r: seq<Node>)
    ensures k < |attrs| && attrs[k] != cur ==> |r| == |attrs| - 1
    ensures !(k < |attrs| && attrs[k] != cur) ==> r == attrs
  {
    if k < |attrs| && attrs[k] != cur then Without(attrs, k) else attrs
  }

  /**
   * The duplicate check of the attribute branch of xmlAddChild, with the
   * other attribute of the same name unlinked before it is freed.
   */
  method DropDuplicate(mem: Memory, parent: Node, cur: Node, ghost attrs: seq<Node>) returns (ghost k: nat)
    requires AttrList(parent, attrs)
    modifies mem, parent, attrs
    ensures k == old(FirstMatch(attrs, cur.name, cur.ns))
    ensures k < |attrs| && attrs[k] != cur ==>
              AttrList(parent, Without(attrs, k)) && mem.freed == old(mem.freed) + {attrs[k]} && Detached(attrs[k])
    ensures !(k < |attrs| && attrs[k] != cur) ==> unchanged(mem, parent) && unchanged(attrs)
  {
    SiblingListIsChain(parent, attrs);
    var dup;
    dup, k := HasProp(parent, cur.name, cur.ns, attrs);
    if dup != null && dup != cur {
      DropAttr(mem, dup, parent, attrs, k);
    }
  }

  /**
   * The attribute branch of xmlAddChild as the C code has it: an attribute
   * of the same name is freed while it is still linked, so the freed node
   * stays in the element's attribute list, next to the new one.
   */
  method AppendAttrAsWritten(mem: Memory, parent: Node, cur: Node, ghost attrs: seq<Node>) returns (ghost k: nat)
    requires AttrList(parent, attrs)
    modifies mem, parent, cur, attrs
    ensures k == old(FirstMatch(attrs, cur.name, cur.ns))
    ensures k < |attrs| && attrs[k] != cur && cur !in attrs && cur != parent && cur.kind == AttributeNode &&
            cur.parent == parent && old(cur.next) == null && old(cur.prev) == null ==>
              attrs[k] in mem.freed && AttrList(parent, attrs + [cur])
  {
    SiblingListIsChain(parent, attrs);
    if parent.properties == null {
      k := 0;
      AppendAttr(parent, cur, attrs);
    } else {
      var dup;
      dup, k := HasProp(parent, cur.name, cur.ns, attrs);
      if dup != null && dup != cur {
        FreeNode(mem, dup);
      }
      AppendAttr(parent, cur, attrs);
    }
  }

  /** xmlNodeAddContent(target, cur->content) followed by xmlFreeNode(cur). */
  method MergeText(mem: Memory, target: Node, cur: Node)
    requires target.kind == TextNode
    modifies mem, target
    ensures target.content == Appended(old(target.content), old(cur.content))
    ensures mem.freed == old(mem.freed) + {cur}
    ensures target.parent == old(target.parent) && target.next == old(target.next) && target.prev == old(target.prev)
  {
    AddTextContent(target, cur.content);
    FreeNode(mem, cur);
  }

  /** cur takes parent as its parent and the parent's document; the lists of parent not holding cur stay as they were. */
  method Adopt(parent: Node, cur: Node, ghost kids: seq<Node>, ghost attrs: seq<Node>)
    modifies cur
    ensures cur.parent == parent && cur.doc == parent.doc
    ensures cur.next == old(cur.next) && cur.prev == old(cur.prev) && cur.content == old(cur.content)
    ensures cur.children == old(cur.children) && cur.last == old(cur.last) && cur.properties == old(cur.properties)
    ensures cur.name == old(cur.name) && cur.ns == old(cur.ns)
    ensures cur != parent ==> unchanged(parent)
    ensures cur !in attrs ==> FirstMatch(attrs, cur.name, cur.ns) == old(FirstMatch(attrs, cur.name, cur.ns))
    ensures old(ChildList(parent, kids)) && cur !in kids && cur != parent ==> ChildList(parent, kids)
    ensures old(AttrList(parent, attrs)) && cur !in attrs && cur != parent ==> AttrList(parent, attrs)
  {
    cur.parent := parent;
    if cur.doc != parent.doc {
      SetTreeDoc(cur, parent.doc);
    }
  }

  /** cur is merged into parent as text when the text branch of xmlAddChild applies. */
  ghost predicate MergesIntoParent(parent: Node, cur: Node)
    reads parent, cur
  {
    cur.kind == TextNode && parent.kind == TextNode && parent.content != None && parent.name == cur.name && parent != cur
  }

  /** cur is merged into the parent's last child when the text branch of xmlAddChild applies. */
  ghost predicate MergesIntoLast(parent: Node, cur: Node)
    reads parent, parent.last, cur
  {
    cur.kind == TextNode && parent.last != null && parent.last.kind == TextNode &&
    parent.last.name == cur.name && parent.last != cur
  }

  /** A text parent with content absorbs whatever node is added to it ("coalescing"). */
  ghost predicate Coalesces(parent: Node, cur: Node)
    reads parent
  {
    parent.kind == TextNode && parent.content != None && parent != cur
  }

  /**
   * The tail of xmlAddChild once cur is known to be new to parent: an
   * attribute goes at the end of the attribute list after any attribute of
   * the same name is removed, any other node at the end of the children.
   */
  method Attach(mem: Memory, parent: Node, cur: Node, ghost kids: seq<Node>, ghost attrs: seq<Node>)
    requires cur.kind == AttributeNode ==> AttrList(parent, attrs)
    requires cur.kind != AttributeNode && parent.children != null ==> parent.last != null
    modifies mem, parent, parent.last, cur, attrs
    ensures cur != parent && (cur.kind == AttributeNode ==> cur !in attrs) ==>
              cur.parent == old(cur.parent) && cur.doc == old(cur.doc)
    ensures cur.kind != AttributeNode ==> mem.freed == old(mem.freed) && parent.last == cur
    ensures cur.kind != AttributeNode && old(parent.children) == null ==> parent.children == cur
    ensures cur.kind != AttributeNode && old(parent.children) != null && parent != cur ==>
              parent.children == old(parent.children) && cur.prev == old(parent.last) &&
              (old(parent.last) != cur ==> old(parent.last).next == cur)
    ensures cur.kind != AttributeNode && old(ChildList(parent, kids)) && cur !in kids && cur != parent &&
            cur.parent == parent && old(cur.next) == null && old(cur.prev) == null ==>
              ChildList(parent, kids + [cur])
    ensures var k := old(FirstMatch(attrs, cur.name, cur.ns));
            cur.kind == AttributeNode ==>
              mem.freed == old(mem.freed) + (if k < |attrs| && attrs[k] != cur then {attrs[k]} else {})
    ensures var k := old(FirstMatch(attrs, cur.name, cur.ns));
            cur.kind == AttributeNode && cur !in attrs && cur != parent && cur.parent == parent &&
            old(cur.next) == null && old(cur.prev) == null ==>
              AttrList(parent, Dropped(attrs, k, cur) + [cur])
  {
    if cur.kind == AttributeNode {
      AttachAttr(mem, parent, cur, attrs);
    } else {
      AppendChild(parent, cur, kids);
    }
  }

  /** The attribute branch of Attach. */
  method AttachAttr(mem: Memory, parent: Node, cur: Node, ghost attrs: seq<Node>)
    requires AttrList(parent, attrs) && cur.kind == AttributeNode
    modifies mem, parent, cur, attrs
    ensures cur != parent && cur !in attrs ==> cur.parent == old(cur.parent) && cur.doc == old(cur.doc)
    ensures var k := old(FirstMatch(attrs, cur.name, cur.ns));
            mem.freed == old(mem.freed) + (if k < |attrs| && attrs[k] != cur then {attrs[k]} else {})
    ensures var k := old(FirstMatch(attrs, cur.name, cur.ns));
            cur !in attrs && cur != parent && cur.parent == parent && old(cur.next) == null && old(cur.prev) == null ==>
              AttrList(parent, Dropped(attrs, k, cur) + [cur])
  {
    ghost var k0 := FirstMatch(attrs, cur.name, cur.ns);
    ghost var rest := attrs;
    if parent.properties != null {
      var k := DropDuplicate(mem, parent, cur, attrs);
      rest := Dropped(attrs, k, cur);
    } else {
      assert attrs == [] && k0 == 0;
    }
    assert AttrList(parent, rest) && mem.freed == old(mem.freed) + (if k0 < |attrs| && attrs[k0] != cur then {attrs[k0]} else {});
    SiblingListIsChain(parent, rest);
    AppendAttr(parent, cur, rest);
  }

  /**
   * xmlAddChild: add cur at the end of parent's children (or, for an
   * attribute, of its attributes), merging text into an adjacent text node;
   * the result is the node that now holds cur's content. An attribute of the
   * same name is unlinked and freed first (see AppendAttrAsWritten for the
   * C code, which frees it in place).
   */
  method AddChild(mem: Memory, parent: Node?, cur: Node?, ghost kids: seq<Node>, ghost attrs: seq<Node>) returns (r: Node?)
    requires parent != null && cur != null && cur.kind == AttributeNode ==> AttrList(parent, attrs)
    requires parent != null && cur != null && cur.kind != AttributeNode && parent.children != null ==> parent.last != null
    modifies mem, if parent == null then {} else {parent, parent.last}, if cur == null then {} else {cur}, attrs
    ensures parent == null || cur == null ==> r == null && unchanged(mem)
    // text merged into a text parent, or into a text last child
    ensures parent != null && cur != null && old(MergesIntoParent(parent, cur)) ==>
              r == parent && parent.content == Appended(old(parent.content), old(cur.content)) &&
              mem.freed == old(mem.freed) + {cur}
    ensures parent != null && cur != null && !old(MergesIntoParent(parent, cur)) && old(MergesIntoLast(parent, cur)) ==>
              r == old(parent.last) && r.content == Appended(old(parent.last.content), old(cur.content)) &&
              mem.freed == old(mem.freed) + {cur}
    // otherwise cur is adopted, and added unless parent already was its parent
    ensures parent != null && cur != null && !old(MergesIntoParent(parent, cur)) && !old(MergesIntoLast(parent, cur)) &&
            cur != parent ==>
              cur.parent == parent && cur.doc == old(parent.doc)
    ensures parent != null && cur != null && !old(MergesIntoParent(parent, cur)) && !old(MergesIntoLast(parent, cur)) &&
            old(cur.parent) == parent ==>
              r == cur && unchanged(mem)
    ensures parent != null && cur != null && !old(MergesIntoParent(parent, cur)) && !old(MergesIntoLast(parent, cur)) &&
            old(cur.parent) != parent && old(Coalesces(parent, cur)) ==>
              r == parent && parent.content == Appended(old(parent.content), old(cur.content)) &&
              mem.freed == old(mem.freed) + {cur}
    // a new element (or other non-attribute) node becomes the last child
    ensures parent != null && cur != null && !old(MergesIntoParent(parent, cur)) && !old(MergesIntoLast(parent, cur)) &&
            old(cur.parent) != parent && !old(Coalesces(parent, cur)) && cur.kind != AttributeNode ==>
              r == cur && parent.last == cur && mem.freed == old(mem.freed) &&
              (old(parent.children) == null ==> parent.children == cur) &&
              (old(parent.children) != null && parent != cur ==>
                 parent.children == old(parent.children) && cur.prev == old(parent.last) &&
                 (old(parent.last) != cur ==> old(parent.last).next == cur))
    ensures parent != null && cur != null && !old(MergesIntoParent(parent, cur)) && !old(MergesIntoLast(parent, cur)) &&
            old(cur.parent) != parent && !old(Coalesces(parent, cur)) && cur.kind != AttributeNode &&
            old(ChildList(parent, kids)) && cur !in kids && cur != parent && old(cur.next) == null && old(cur.prev) == null ==>
              ChildList(parent, kids + [cur])
    // a new attribute replaces any attribute of the same name and comes last
    ensures parent != null && cur != null && old(cur.parent) != parent && !old(Coalesces(parent, cur)) &&
            cur.kind == AttributeNode ==>
              var k := old(FirstMatch(attrs, cur.name, cur.ns));
              r == cur && mem.freed == old(mem.freed) + (if k < |attrs| && attrs[k] != cur then {attrs[k]} else {})
    ensures parent != null && cur != null && old(cur.parent) != parent && !old(Coalesces(parent, cur)) &&
            cur.kind == AttributeNode && cur != parent && old(cur.next) == null && old(cur.prev) == null ==>
              var k := old(FirstMatch(attrs, cur.name, cur.ns));
              AttrList(parent, Dropped(attrs, k, cur) + [cur])
  {
    if parent == null || cur == null {
      return null;
    }
    if cur.kind == TextNode {
      if parent.kind == TextNode && parent.content != None && parent.name == cur.name && parent != cur {
        MergeText(mem, parent, cur);
        return parent;
      }
      if parent.last != null && parent.last.kind == TextNode && parent.last.name == cur.name && parent.last != cur {
        r := parent.last;
        MergeText(mem, r, cur);
        return r;
      }
    }
    var prev := cur.parent;
    Adopt(parent, cur, kids, attrs);
    if prev == parent {
      return cur;
    }
    if parent.kind == TextNode && parent.content != None && parent != cur {
      MergeText(mem, parent, cur);
      return parent;
    }
    if cur.kind == AttributeNode {
      assert cur !in attrs;
    }
    Attach(mem, parent, cur, kids, attrs);
    return cur;
  }

  // ---------------------------------------------------------------------
  // xmlAddNextSibling, xmlAddPrevSibling, xmlAddSibling
  // ---------------------------------------------------------------------

  /** s with x inserted at position i. */
  ghost function InsertAt(s: seq<Node>, i: nat, x: Node): (r: seq<Node>)
    requires i <= |s|
    ensures |r| == |s| + 1 && r[i] == x
    ensures forall j :: 0 <= j < i ==> r[j] == s[j]
    ensures forall j :: i < j < |r| ==> r[j] == s[j - 1]
    ensures forall y :: y in r ==> y == x || y in s
  {
    s[..i] + [x] + s[i..]
  }

  /**
   * x linked in between kids[i - 1] and kids[i] (each side possibly absent),
   * every other link as it was, turns a sibling list into one holding x.
   */
  lemma InsertedLinks(p: Node, kids: seq<Node>, i: nat, x: Node)
    requires i <= |kids| && Distinct(kids) && x !in kids && x != p
    requires forall j :: 0 <= j < |kids| ==> kids[j] != p
    requires forall j {:trigger kids[j].parent} :: 0 <= j < |kids| ==> kids[j].parent == p
    requires x.parent == p
    requires forall j {:trigger kids[j].next} :: 0 <= j < |kids| - 1 && j != i - 1 ==> kids[j].next == kids[j + 1]
    requires forall j {:trigger kids[j].prev} :: 0 < j < |kids| && j != i ==> kids[j].prev == kids[j - 1]
    requires 0 < i ==> kids[i - 1].next == x
    requires i < |kids| ==> kids[i].prev == x
    requires x.prev == (if 0 < i then kids[i - 1] else null)
    requires x.next == (if i < |kids| then kids[i] else null)
    requires 0 < i ==> kids[0].prev == null
    requires i < |kids| ==> kids[|kids| - 1].next == null
    ensures SiblingList(p, InsertAt(kids, i, x))
  {
    var t := InsertAt(kids, i, x);
    assert Distinct(t) by {
      forall a, b | 0 <= a < b < |t|
        ensures t[a] != t[b]
      {
        if a != i && b != i {
          assert t[a] == kids[if a < i then a else a - 1];
          assert t[b] == kids[if b < i then b else b - 1];
        }
      }
    }
    forall j | 0 <= j < |t| - 1
      ensures t[j].next == t[j + 1]
    {
      if j < i - 1 {
      } else if j == i - 1 {
      } else if j == i {
      } else {
        assert t[j] == kids[j - 1] && t[j + 1] == kids[j];
      }
    }
    forall j | 0 < j < |t|
      ensures t[j].prev == t[j - 1]
    {
      if j < i {
      } else if j == i {
      } else if j == i + 1 {
      } else {
        assert t[j] == kids[j - 1] && t[j - 1] == kids[j - 2];
      }
    }
  }

  /** What holds of kids around position i when it is a whole list of p, before x is put there. */
  ghost predicate Insertable(p: Node, kids: seq<Node>, i: nat, x: Node)
    reads p, kids
  {
    i <= |kids| && SiblingList(p, kids) && x !in kids && x != p
  }

  /**
   * The sibling links of xmlAddNextSibling: elem goes right after cur, and
   * cur's old next sibling points back at it.
   */
  method SpliceAfter(cur: Node, elem: Node, ghost p: Node, ghost kids: seq<Node>, ghost i: nat)
    modifies elem, cur, cur.next
    ensures elem.parent == old(cur.parent)
    ensures elem != cur && old(cur.next) != elem ==> elem.prev == cur && elem.next == old(cur.next) && cur.next == elem
    ensures old(cur.next) != null && elem != cur && old(cur.next) != cur && old(cur.next) != elem ==> old(cur.next).prev == elem
    ensures elem.doc == old(elem.doc) && elem.name == old(elem.name) && elem.content == old(elem.content)
    ensures p != elem && p != cur && p != old(cur.next) ==> unchanged(p)
    ensures i < |kids| && kids[i] == cur && old(cur.parent) == p && old(Insertable(p, kids, i + 1, elem)) ==>
              SiblingList(p, InsertAt(kids, i + 1, elem))
  {
    ghost var listed := i < |kids| && kids[i] == cur && cur.parent == p && Insertable(p, kids, i + 1, elem);
    if listed {
      assert cur.next == if i + 1 < |kids| then kids[i + 1] else null;
    }
    elem.parent := cur.parent;
    elem.prev := cur;
    elem.next := cur.next;
    cur.next := elem;
    if elem.next != null {
      elem.next.prev := elem;
    }
    if listed {
      InsertedLinks(p, kids, i + 1, elem);
    }
  }

  /**
   * The linking step of xmlAddNextSibling: elem goes right after cur, and
   * becomes the parent's last child if cur was.
   */
  method LinkAfter(cur: Node, elem: Node, ghost kids: seq<Node>, ghost i: nat, ghost attrs: bool)
    modifies elem, cur, cur.next, cur.parent
    ensures elem.parent == old(cur.parent)
    ensures elem != cur && old(cur.next) != elem ==> elem.prev == cur && elem.next == old(cur.next) && cur.next == elem
    ensures elem.doc == old(elem.doc) && elem.name == old(elem.name) && elem.content == old(elem.content)
    ensures var p := old(cur.parent);
            p != null && i < |kids| && kids[i] == cur && elem !in kids && elem != p &&
            (elem.kind == AttributeNode <==> attrs) && old(ListOf(p, kids, attrs)) ==>
              ListOf(p, InsertAt(kids, i + 1, elem), attrs)
  {
    ghost var p := cur.parent;
    ghost var listed := p != null && i < |kids| && kids[i] == cur && elem !in kids && elem != p &&
                        (elem.kind == AttributeNode <==> attrs) && ListOf(p, kids, attrs);
    if listed {
      assert Insertable(p, kids, i + 1, elem) && Kinds(kids, attrs) && Ends(p, kids, attrs);
      assert p != cur && p != elem;
      assert p != cur.next by {
        assert cur.next == if i + 1 < |kids| then kids[i + 1] else null;
      }
    }
    SpliceAfter(cur, elem, if listed then p else elem, if listed then kids else [], i);
    if listed {
      assert SiblingList(p, InsertAt(kids, i + 1, elem));
      assert elem.parent == p;
    }
    FixLast(elem.parent, cur, elem, kids, i + 1, attrs, listed);
  }

  /** The last step of xmlAddNextSibling: the parent's last child moves on to elem if it was cur. */
  method FixLast(p: Node?, cur: Node, elem: Node, ghost kids: seq<Node>, ghost n: nat, ghost attrs: bool, ghost listed: bool)
    requires listed ==>
               p != null && 0 < n <= |kids| && kids[n - 1] == cur && SiblingList(p, InsertAt(kids, n, elem)) &&
               Kinds(kids, attrs) && (elem.kind == AttributeNode <==> attrs) && Ends(p, kids, attrs)
    modifies p
    ensures p != null ==> p.last == (if old(p.last) == cur && elem.kind != AttributeNode then elem else old(p.last))
    ensures p != null ==>
              p.parent == old(p.parent) && p.next == old(p.next) && p.prev == old(p.prev) &&
              p.children == old(p.children) && p.properties == old(p.properties) &&
              p.doc == old(p.doc) && p.name == old(p.name) && p.content == old(p.content)
    ensures listed ==> ListOf(p, InsertAt(kids, n, elem), attrs)
  {
    if p != null && p.last == cur && elem.kind != AttributeNode {
      p.last := elem;
    }
  }

  /**
   * The sibling links of xmlAddPrevSibling: elem goes right before cur, and
   * cur's old previous sibling points on to it.
   */
  method SpliceBefore(cur: Node, elem: Node, ghost p: Node, ghost kids: seq<Node>, ghost i: nat)
    modifies elem, cur, cur.prev
    ensures elem.parent == old(cur.parent)
    ensures elem != cur && old(cur.prev) != elem ==> elem.next == cur && elem.prev == old(cur.prev) && cur.prev == elem
    ensures old(cur.prev) != null && elem != cur && old(cur.prev) != cur && old(cur.prev) != elem ==> old(cur.prev).next == elem
    ensures elem.doc == old(elem.doc) && elem.name == old(elem.name) && elem.content == old(elem.content)
    ensures p != elem && p != cur && p != old(cur.prev) ==> unchanged(p)
    ensures i < |kids| && kids[i] == cur && old(cur.parent) == p && old(Insertable(p, kids, i, elem)) ==>
              SiblingList(p, InsertAt(kids, i, elem))
  {
    ghost var listed := i < |kids| && kids[i] == cur && cur.parent == p && Insertable(p, kids, i, elem);
    if listed {
      assert cur.prev == if 0 < i then kids[i - 1] else null;
    }
    elem.parent := cur.parent;
    elem.next := cur;
    elem.prev := cur.prev;
    cur.prev := elem;
    if elem.prev != null {
      elem.prev.next := elem;
    }
    if listed {
      InsertedLinks(p, kids, i, elem);
    }
  }

  /**
   * The linking step of xmlAddPrevSibling: elem goes right before cur, and
   * becomes the parent's first attribute or first child if cur was.
   */
  method LinkBefore(cur: Node, elem: Node, ghost kids: seq<Node>, ghost i: nat, ghost attrs: bool)
    modifies elem, cur, cur.prev, cur.parent
    ensures elem.parent == old(cur.parent)
    ensures elem != cur && old(cur.prev) != elem ==> elem.next == cur && elem.prev == old(cur.prev) && cur.prev == elem
    ensures elem.doc == old(elem.doc) && elem.name == old(elem.name) && elem.content == old(elem.content)
    ensures var p := old(cur.parent);
            p != null && i < |kids| && kids[i] == cur && elem !in kids && elem != p &&
            (elem.kind == AttributeNode <==> attrs) && old(ListOf(p, kids, attrs)) ==>
              ListOf(p, InsertAt(kids, i, elem), attrs)
  {
    ghost var p := cur.parent;
    ghost var listed := p != null && i < |kids| && kids[i] == cur && elem !in kids && elem != p &&
                        (elem.kind == AttributeNode <==> attrs) && ListOf(p, kids, attrs);
    if listed {
      assert Insertable(p, kids, i, elem) && Kinds(kids, attrs) && Ends(p, kids, attrs);
      assert p != cur && p != elem;
      assert p != cur.prev by {
        assert cur.prev == if 0 < i then kids[i - 1] else null;
      }
    }
    SpliceBefore(cur, elem, if listed then p else elem, if listed then kids else [], i);
    if listed {
      assert SiblingList(p, InsertAt(kids, i, elem));
      assert elem.parent == p;
    }
    FixHead(elem.parent, cur, elem, kids, i, attrs, listed);
  }

  /**
   * The last step of xmlAddPrevSibling: the parent's first attribute (for an
   * attribute) or first child (otherwise) moves back to elem if it was cur.
   */
  method FixHead(p: Node?, cur: Node, elem: Node, ghost kids: seq<Node>, ghost n: nat, ghost attrs: bool, ghost listed: bool)
    requires listed ==>
               p != null && n < |kids| && kids[n] == cur && SiblingList(p, InsertAt(kids, n, elem)) &&
               Kinds(kids, attrs) && (elem.kind == AttributeNode <==> attrs) && Ends(p, kids, attrs)
    modifies p
    ensures p != null ==>
              p.properties == (if elem.kind == AttributeNode && old(p.properties) == cur then elem else old(p.properties)) &&
              p.children == (if elem.kind != AttributeNode && old(p.children) == cur then elem else old(p.children))
    ensures p != null ==>
              p.parent == old(p.parent) && p.next == old(p.next) && p.prev == old(p.prev) && p.last == old(p.last) &&
              p.doc == old(p.doc) && p.name == old(p.name) && p.content == old(p.content)
    ensures listed ==> ListOf(p, InsertAt(kids, n, elem), attrs)
  {
    if p != null {
      if elem.kind == AttributeNode {
        if p.properties == cur {
          p.properties := elem;
        }
      } else if p.children == cur {
        p.children := elem;
      }
    }
    if listed {
      ghost var t := InsertAt(kids, n, elem);
      assert t[0] == if n == 0 then elem else kids[0];
      assert 0 < n ==> kids[0] != cur by {
        if 0 < n {
          assert t[0] == kids[0] && t[n + 1] == cur;
        }
      }
      assert t[|t| - 1] == kids[|kids| - 1];
    }
  }

  /**
   * The outcome of adding attribute elem at position pos of attrs: elem sits
   * there and, when attrs[k] had the same name and namespace, that attribute
   * is gone from the list, detached and freed (freed0 is the freed set
   * before, freed1 after); otherwise nothing was freed.
   */
  ghost predicate AttrPlaced(p: Node, attrs: seq<Node>, pos: nat, elem: Node, k: nat, freed0: set<Node>, freed1: set<Node>)
    requires pos <= |attrs|
    reads p, attrs, elem
  {
    var added := InsertAt(attrs, pos, elem);
    (k < |attrs| ==>
       AttrList(p, Without(added, if k < pos then k else k + 1)) &&
       freed1 == freed0 + {attrs[k]} && Detached(attrs[k])) &&
    (k == |attrs| ==> AttrList(p, added) && freed1 == freed0)
  }

  /**
   * The attribute branch of xmlAddNextSibling (after) and xmlAddPrevSibling
   * (!after), with the duplicate removed once the new attribute is in place:
   * an attribute of the parent with the same name and namespace is looked up
   * first, the new one is linked beside cur, and the old one is then
   * unlinked and freed.
   */
  method InsertAttr(mem: Memory, cur: Node, elem: Node, ghost attrs: seq<Node>, ghost ci: nat, ghost p: Node, ghost k: nat, after: bool)
    requires cur.parent == p && p != elem && AttrList(p, attrs) && ci < |attrs| && attrs[ci] == cur
    requires Detached(elem) && elem.kind == AttributeNode && k == FirstMatch(attrs, elem.name, elem.ns)
    modifies mem, elem, p, attrs
    ensures AttrPlaced(p, attrs, if after then ci + 1 else ci, elem, k, old(mem.freed), mem.freed)
  {
    ghost var pos := if after then ci + 1 else ci;
    var dup;
    ghost var found;
    dup, found := LinkAttr(cur, elem, attrs, ci, after);
    assert found == k;
    if dup != null {
      ghost var added := InsertAt(attrs, pos, elem);
      DropAttr(mem, dup, p, added, if k < pos then k else k + 1);
    }
  }

  /** xmlUnlinkNode then xmlFreeProp on the d-th attribute of p. */
  method DropAttr(mem: Memory, dup: Node, ghost p: Node, ghost attrs: seq<Node>, ghost d: nat)
    requires AttrList(p, attrs) && d < |attrs| && attrs[d] == dup
    modifies mem, p, attrs
    ensures AttrList(p, Without(attrs, d)) && Detached(dup)
    ensures mem.freed == old(mem.freed) + {dup}
  {
    assert dup.next == (if d + 1 < |attrs| then attrs[d + 1] else null);
    assert dup.prev == (if 0 < d then attrs[d - 1] else null);
    UnlinkNode(dup, attrs, d);
    FreeNode(mem, dup);
  }

  /**
   * The attribute branch of xmlAddNextSibling (after) and xmlAddPrevSibling
   * (!after) as the C code has it: an attribute of the same name is freed with
   * xmlFreeProp, which does not unlink it, and elem is then linked beside cur.
   * The freed attribute stays in p's attribute list next to the new one.
   */
  method InsertAttrAsWritten(mem: Memory, cur: Node, elem: Node, ghost attrs: seq<Node>, ghost ci: nat, after: bool)
    returns (ghost k: nat)
    requires cur.parent != null && cur.parent != elem && AttrList(cur.parent, attrs) && ci < |attrs| && attrs[ci] == cur
    requires Detached(elem) && elem.kind == AttributeNode
    modifies mem, elem, cur, cur.next, cur.prev, cur.parent
    ensures k == old(FirstMatch(attrs, elem.name, elem.ns))
    ensures mem.freed == old(mem.freed) + (if k < |attrs| then {attrs[k]} else {})
    ensures AttrList(old(cur.parent), InsertAt(attrs, if after then ci + 1 else ci, elem))
    ensures k < |attrs| ==> attrs[k] in InsertAt(attrs, if after then ci + 1 else ci, elem) && attrs[k] in mem.freed
  {
    // Freeing only marks memory, so marking the duplicate after the linking
    // leaves the same links as the C order (free, then link).
    ghost var p := cur.parent;
    ghost var pos := if after then ci + 1 else ci;
    ghost var added := InsertAt(attrs, pos, elem);
    var attr;
    attr, k := LinkAttr(cur, elem, attrs, ci, after);
    if attr != null {
      FreeAttr(mem, attr, p, added);
    }
    if k < |attrs| {
      assert attrs[k] == added[if k < pos then k else k + 1];
    }
  }

  /** xmlFreeProp on an attribute of p's list s: only memory changes, the list stays as it is. */
  method FreeAttr(mem: Memory, attr: Node, ghost p: Node, ghost s: seq<Node>)
    requires AttrList(p, s)
    modifies mem
    ensures mem.freed == old(mem.freed) + {attr}
    ensures AttrList(p, s)
  {
    FreeNode(mem, attr);
  }

  /** The lookup and the linking of InsertAttr: dup is the attribute the new one replaces. */
  method LinkAttr(cur: Node, elem: Node, ghost attrs: seq<Node>, ghost ci: nat, after: bool) returns (dup: Node?, ghost k: nat)
    requires cur.parent != null && cur.parent != elem && AttrList(cur.parent, attrs) && ci < |attrs| && attrs[ci] == cur
    requires Detached(elem) && elem.kind == AttributeNode
    modifies elem, cur, cur.next, cur.prev, cur.parent
    ensures k == old(FirstMatch(attrs, elem.name, elem.ns))
    ensures dup == if k < |attrs| then attrs[k] else null
    ensures AttrList(old(cur.parent), InsertAt(attrs, if after then ci + 1 else ci, elem))
  {
    var p := cur.parent;
    SiblingListIsChain(p, attrs);
    dup, k := HasProp(p, elem.name, elem.ns, attrs);
    assert elem !in attrs;
    if elem.doc != cur.doc {
      SetTreeDoc(elem, cur.doc);
    }
    if after {
      LinkAfter(cur, elem, attrs, ci, true);
    } else {
      LinkBefore(cur, elem, attrs, ci, true);
    }
  }

  /** Whether xmlAddNextSibling merges a text node elem into cur or into cur's next sibling. */
  ghost predicate MergesAfter(cur: Node, elem: Node)
    reads cur, cur.next
  {
    elem.kind == TextNode &&
    (cur.kind == TextNode || (cur.next != null && cur.next.kind == TextNode && cur.name == cur.next.name))
  }

  /**
   * xmlAddNextSibling: elem, unlinked first, becomes cur's next sibling, or
   * is merged into a neighbouring text node; sibs is the list cur is in (its
   * parent's attributes when elem is an attribute, its children otherwise),
   * cur being sibs[ci].
   */
  method AddNextSibling(mem: Memory, cur: Node?, elem: Node?, ghost sibs: seq<Node>, ghost ci: nat) returns (r: Node?)
    requires cur != null && elem != null && elem.kind == AttributeNode && cur.parent != null ==>
               Detached(elem) && cur.parent != elem && AttrList(cur.parent, sibs) && ci < |sibs| && sibs[ci] == cur
    modifies mem, sibs
    modifies if cur == null then {} else {cur, cur.next, cur.parent}
    modifies if elem == null then {} else {elem, elem.parent, elem.next, elem.prev}
    ensures cur == null || elem == null ==> r == null && mem.freed == old(mem.freed)
    ensures cur != null && elem != null && elem.kind == TextNode && cur.kind == TextNode ==>
              r == cur && cur.content == Appended(old(cur.content), old(elem.content)) &&
              mem.freed == old(mem.freed) + {elem} && Detached(elem)
    ensures cur != null && elem != null && old(Detached(elem)) && old(MergesAfter(cur, elem)) && cur.kind != TextNode ==>
              r == old(cur.next) && r.content == Joined(old(elem.content), old(cur.next.content)) &&
              mem.freed == old(mem.freed) + {elem} && Detached(elem)
    ensures cur != null && elem != null && old(Detached(elem)) && !old(MergesAfter(cur, elem)) &&
            elem != cur && old(cur.next) != elem && elem.kind != AttributeNode ==>
              r == elem && elem.parent == old(cur.parent) && elem.prev == cur && cur.next == elem &&
              elem.next == old(cur.next) && elem.doc == old(cur.doc) && mem.freed == old(mem.freed)
    ensures cur != null && elem != null && old(Detached(elem)) && !old(MergesAfter(cur, elem)) && elem.kind != AttributeNode &&
            old(cur.parent) != null && old(cur.parent) != elem && ci < |sibs| && sibs[ci] == cur && old(ChildList(cur.parent, sibs)) ==>
              ChildList(old(cur.parent), InsertAt(sibs, ci + 1, elem))
    ensures cur != null && elem != null && elem.kind == AttributeNode && old(cur.parent) != null ==>
              r == elem &&
              AttrPlaced(old(cur.parent), sibs, ci + 1, elem, old(FirstMatch(sibs, elem.name, elem.ns)), old(mem.freed), mem.freed)
  {
    if cur == null || elem == null {
      return null;
    }
    ghost var detached := Detached(elem);
    ghost var b := Before(
      detached, cur.parent, cur.next, cur.doc, MergesAfter(cur, elem),
      detached && elem.kind != AttributeNode && cur.parent != null && cur.parent != elem &&
        ci < |sibs| && sibs[ci] == cur && ChildList(cur.parent, sibs),
      FirstMatch(sibs, elem.name, elem.ns), mem.freed,
      cur.content, elem.content, if cur.next != null then cur.next.content else None);
    UnlinkBeside(elem, cur);
    r := PlaceAfter(mem, cur, elem, sibs, ci, b);
  }

  /** xmlUnlinkNode(elem) as seen from a node cur that xmlAddNextSibling or xmlAddPrevSibling goes on to use. */
  method UnlinkBeside(elem: Node, ghost cur: Node)
    modifies elem, elem.parent, elem.next, elem.prev
    ensures Detached(elem) && elem.name == old(elem.name) && elem.ns == old(elem.ns)
    ensures elem.content == old(elem.content) && elem.doc == old(elem.doc)
    ensures old(Detached(elem)) ==> unchanged(elem)
    ensures cur.content == old(cur.content) && cur.name == old(cur.name)
    ensures cur != elem ==> cur.parent == old(cur.parent) && cur.doc == old(cur.doc)
    ensures cur.parent == old(cur.parent) || cur.parent == null
    ensures cur.next == old(cur.next) || cur.next == old(elem.next) || cur.next == null
    ensures cur.prev == old(cur.prev) || cur.prev == old(elem.prev) || cur.prev == null
  {
    UnlinkNode(elem, [], 0);
  }

  /**
   * What xmlAddNextSibling or xmlAddPrevSibling reads before it unlinks elem,
   * for PlaceAfter or PlaceBefore to refer to; beside is cur's neighbour on
   * the side elem goes to.
   */
  datatype Before = Before(
    detached: bool, parent: Node?, beside: Node?, doc: Doc?, merges: bool, listed: bool,
    k: nat, freed: set<Node>, curText: Option<XmlStr>, elemText: Option<XmlStr>, besideText: Option<XmlStr>)

  /** xmlAddNextSibling once elem is unlinked: the merges, the attribute case, the plain insertion. */
  method PlaceAfter(mem: Memory, cur: Node, elem: Node, ghost sibs: seq<Node>, ghost ci: nat, ghost b: Before)
    returns (r: Node)
    requires Detached(elem) && mem.freed == b.freed && cur.content == b.curText && elem.content == b.elemText
    requires b.detached ==>
               cur.parent == b.parent && cur.next == b.beside && cur.doc == b.doc && MergesAfter(cur, elem) == b.merges &&
               (b.beside != null ==> b.beside.content == b.besideText)
    requires b.listed ==>
               b.detached && b.parent != null && b.parent != elem && elem.kind != AttributeNode &&
               ci < |sibs| && sibs[ci] == cur && ChildList(b.parent, sibs)
    requires elem.kind == AttributeNode ==> cur.parent == b.parent
    requires elem.kind == AttributeNode && b.parent != null ==>
               b.k == FirstMatch(sibs, elem.name, elem.ns) &&
               b.parent != elem && AttrList(b.parent, sibs) && ci < |sibs| && sibs[ci] == cur
    modifies mem, sibs, elem, cur, cur.next, cur.parent
    ensures elem.kind == TextNode && cur.kind == TextNode ==>
              r == cur && cur.content == Appended(b.curText, b.elemText) &&
              mem.freed == b.freed + {elem} && Detached(elem)
    ensures b.detached && b.merges && cur.kind != TextNode ==>
              r == b.beside && r.content == Joined(b.elemText, b.besideText) &&
              mem.freed == b.freed + {elem} && Detached(elem)
    ensures b.detached && !b.merges && elem != cur && b.beside != elem && elem.kind != AttributeNode ==>
              r == elem && elem.parent == b.parent && elem.prev == cur && cur.next == elem &&
              elem.next == b.beside && elem.doc == b.doc && mem.freed == b.freed
    ensures b.listed && !b.merges ==> ChildList(b.parent, InsertAt(sibs, ci + 1, elem))
    ensures elem.kind == AttributeNode && b.parent != null ==>
              r == elem && AttrPlaced(b.parent, sibs, ci + 1, elem, b.k, b.freed, mem.freed)
  {
    if elem.kind == TextNode {
      if cur.kind == TextNode {
        MergeText(mem, cur, elem);
        return cur;
      }
      if cur.next != null && cur.next.kind == TextNode && cur.name == cur.next.name {
        r := cur.next;
        SetTextContent(r, Joined(elem.content, r.content));
        FreeNode(mem, elem);
        return r;
      }
    } else if elem.kind == AttributeNode && cur.parent != null {
      InsertAttr(mem, cur, elem, sibs, ci, b.parent, b.k, true);
      return elem;
    }
    InsertAfter(cur, elem, sibs, ci);
    return elem;
  }

  /** The common tail of xmlAddNextSibling: elem takes cur's document and is linked after cur. */
  method InsertAfter(cur: Node, elem: Node, ghost sibs: seq<Node>, ghost ci: nat)
    modifies elem, cur, cur.next, cur.parent
    ensures elem.parent == old(cur.parent) && elem.doc == old(cur.doc)
    ensures elem != cur && old(cur.next) != elem ==> elem.prev == cur && elem.next == old(cur.next) && cur.next == elem
    ensures var p := old(cur.parent);
            p != null && p != elem && ci < |sibs| && sibs[ci] == cur && elem.kind != AttributeNode &&
            old(Detached(elem)) && old(ChildList(p, sibs)) ==>
              ChildList(p, InsertAt(sibs, ci + 1, elem))
  {
    ghost var p := cur.parent;
    ghost var listed := p != null && p != elem && ci < |sibs| && sibs[ci] == cur && elem.kind != AttributeNode &&
                        Detached(elem) && ChildList(p, sibs);
    assert listed ==> elem !in sibs;
    if elem.doc != cur.doc {
      SetTreeDoc(elem, cur.doc);
    }
    LinkAfter(cur, elem, sibs, ci, elem.kind == AttributeNode);
  }

  /** Whether xmlAddPrevSibling merges a text node elem into cur or into cur's previous sibling. */
  ghost predicate MergesBefore(cur: Node, elem: Node)
    reads cur, cur.prev
  {
    elem.kind == TextNode &&
    (cur.kind == TextNode || (cur.prev != null && cur.prev.kind == TextNode && cur.name == cur.prev.name))
  }

  /**
   * xmlAddPrevSibling: elem, unlinked first, becomes cur's previous sibling,
   * or is merged into a neighbouring text node; sibs is the list cur is in
   * (its parent's attributes when elem is an attribute, its children
   * otherwise), cur being sibs[ci].
   */
  method AddPrevSibling(mem: Memory, cur: Node?, elem: Node?, ghost sibs: seq<Node>, ghost ci: nat) returns (r: Node?)
    requires cur != null && elem != null && elem.kind == AttributeNode && cur.parent != null ==>
               Detached(elem) && cur.parent != elem && AttrList(cur.parent, sibs) && ci < |sibs| && sibs[ci] == cur
    modifies mem, sibs
    modifies if cur == null then {} else {cur, cur.prev, cur.parent}
    modifies if elem == null then {} else {elem, elem.parent, elem.next, elem.prev}
    ensures cur == null || elem == null ==> r == null && mem.freed == old(mem.freed)
    ensures cur != null && elem != null && elem.kind == TextNode && cur.kind == TextNode ==>
              r == cur && cur.content == Joined(old(elem.content), old(cur.content)) &&
              mem.freed == old(mem.freed) + {elem} && Detached(elem)
    ensures cur != null && elem != null && old(Detached(elem)) && old(MergesBefore(cur, elem)) && cur.kind != TextNode ==>
              r == old(cur.prev) && r.content == Appended(old(cur.prev.content), old(elem.content)) &&
              mem.freed == old(mem.freed) + {elem} && Detached(elem)
    ensures cur != null && elem != null && old(Detached(elem)) && !old(MergesBefore(cur, elem)) &&
            elem != cur && old(cur.prev) != elem && elem.kind != AttributeNode ==>
              r == elem && elem.parent == old(cur.parent) && elem.next == cur && cur.prev == elem &&
              elem.prev == old(cur.prev) && elem.doc == old(cur.doc) && mem.freed == old(mem.freed)
    ensures cur != null && elem != null && old(Detached(elem)) && !old(MergesBefore(cur, elem)) && elem.kind != AttributeNode &&
            old(cur.parent) != null && old(cur.parent) != elem && ci < |sibs| && sibs[ci] == cur && old(ChildList(cur.parent, sibs)) ==>
              ChildList(old(cur.parent), InsertAt(sibs, ci, elem))
    ensures cur != null && elem != null && elem.kind == AttributeNode && old(cur.parent) != null ==>
              r == elem &&
              AttrPlaced(old(cur.parent), sibs, ci, elem, old(FirstMatch(sibs, elem.name, elem.ns)), old(mem.freed), mem.freed)
  {
    if cur == null || elem == null {
      return null;
    }
    ghost var detached := Detached(elem);
    ghost var b := Before(
      detached, cur.parent, cur.prev, cur.doc, MergesBefore(cur, elem),
      detached && elem.kind != AttributeNode && cur.parent != null && cur.parent != elem &&
        ci < |sibs| && sibs[ci] == cur && ChildList(cur.parent, sibs),
      FirstMatch(sibs, elem.name, elem.ns), mem.freed,
      cur.content, elem.content, if cur.prev != null then cur.prev.content else None);
    UnlinkBeside(elem, cur);
    r := PlaceBefore(mem, cur, elem, sibs, ci, b);
  }

  /** xmlAddPrevSibling once elem is unlinked: the merges, the attribute case, the plain insertion. */
  method PlaceBefore(mem: Memory, cur: Node, elem: Node, ghost sibs: seq<Node>, ghost ci: nat, ghost b: Before)
    returns (r: Node)
    requires Detached(elem) && mem.freed == b.freed && cur.content == b.curText && elem.content == b.elemText
    requires b.detached ==>
               cur.parent == b.parent && cur.prev == b.beside && cur.doc == b.doc && MergesBefore(cur, elem) == b.merges &&
               (b.beside != null ==> b.beside.content == b.besideText)
    requires b.listed ==>
               b.detached && b.parent != null && b.parent != elem && elem.kind != AttributeNode &&
               ci < |sibs| && sibs[ci] == cur && ChildList(b.parent, sibs)
    requires elem.kind == AttributeNode ==> cur.parent == b.parent
    requires elem.kind == AttributeNode && b.parent != null ==>
               b.k == FirstMatch(sibs, elem.name, elem.ns) &&
               b.parent != elem && AttrList(b.parent, sibs) && ci < |sibs| && sibs[ci] == cur
    modifies mem, sibs, elem, cur, cur.prev, cur.parent
    ensures elem.kind == TextNode && cur.kind == TextNode ==>
              r == cur && cur.content == Joined(b.elemText, b.curText) &&
              mem.freed == b.freed + {elem} && Detached(elem)
    ensures b.detached && b.merges && cur.kind != TextNode ==>
              r == b.beside && r.content == Appended(b.besideText, b.elemText) &&
              mem.freed == b.freed + {elem} && Detached(elem)
    ensures b.detached && !b.merges && elem != cur && b.beside != elem && elem.kind != AttributeNode ==>
              r == elem && elem.parent == b.parent && elem.next == cur && cur.prev == elem &&
              elem.prev == b.beside && elem.doc == b.doc && mem.freed == b.freed
    ensures b.listed && !b.merges ==> ChildList(b.parent, InsertAt(sibs, ci, elem))
    ensures elem.kind == AttributeNode && b.parent != null ==>
              r == elem && AttrPlaced(b.parent, sibs, ci, elem, b.k, b.freed, mem.freed)
  {
    if elem.kind == TextNode {
      if cur.kind == TextNode {
        SetTextContent(cur, Joined(elem.content, cur.content));
        FreeNode(mem, elem);
        return cur;
      }
      if cur.prev != null && cur.prev.kind == TextNode && cur.name == cur.prev.name {
        r := cur.prev;
        MergeText(mem, r, elem);
        return r;
      }
    } else if elem.kind == AttributeNode && cur.parent != null {
      InsertAttr(mem, cur, elem, sibs, ci, b.parent, b.k, false);
      return elem;
    }
    InsertBefore(cur, elem, sibs, ci);
    return elem;
  }

  /** The common tail of xmlAddPrevSibling: elem takes cur's document and is linked before cur. */
  method InsertBefore(cur: Node, elem: Node, ghost sibs: seq<Node>, ghost ci: nat)
    modifies elem, cur, cur.prev, cur.parent
    ensures elem.parent == old(cur.parent) && elem.doc == old(cur.doc)
    ensures elem != cur && old(cur.prev) != elem ==> elem.next == cur && elem.prev == old(cur.prev) && cur.prev == elem
    ensures var p := old(cur.parent);
            p != null && p != elem && ci < |sibs| && sibs[ci] == cur && elem.kind != AttributeNode &&
            old(Detached(elem)) && old(ChildList(p, sibs)) ==>
              ChildList(p, InsertAt(sibs, ci, elem))
  {
    ghost var p := cur.parent;
    ghost var listed := p != null && p != elem && ci < |sibs| && sibs[ci] == cur && elem.kind != AttributeNode &&
                        Detached(elem) && ChildList(p, sibs);
    assert listed ==> elem !in sibs;
    if elem.doc != cur.doc {
      SetTreeDoc(elem, cur.doc);
    }
    LinkBefore(cur, elem, sibs, ci, elem.kind == AttributeNode);
  }

  /** xmlAddSibling can go straight to the last sibling through the parent's last pointer. */
  ghost predicate LastKnown(cur: Node)
    reads cur, cur.parent, if cur.parent != null then {cur.parent.last} else {}
  {
    cur.parent != null && cur.parent.children != null && cur.parent.last != null && cur.parent.last.next == null
  }

  /** cur is sibs[ci] and sibs runs, through next links, to a node with no next sibling. */
  ghost predicate Walkable(cur: Node, sibs: seq<Node>, ci: nat)
    reads sibs
  {
    ci < |sibs| && sibs[ci] == cur && Chain(sibs[0], sibs)
  }

  /** The node xmlAddSibling appends after. */
  ghost function LastSibling(cur: Node, sibs: seq<Node>, ci: nat): (last: Node)
    requires LastKnown(cur) || Walkable(cur, sibs, ci)
    reads cur, cur.parent, if cur.parent != null then {cur.parent.last} else {}, sibs
    ensures last.next == null
  {
    if LastKnown(cur) then cur.parent.last else sibs[|sibs| - 1]
  }

  /** The first step of xmlAddSibling: the parent's last child when it can be trusted, else a walk along next. */
  method FindLast(cur: Node, ghost sibs: seq<Node>, ghost ci: nat) returns (last: Node)
    requires LastKnown(cur) || Walkable(cur, sibs, ci)
    ensures LastKnown(cur) ==> last == cur.parent.last
    ensures !LastKnown(cur) ==> last == sibs[|sibs| - 1]
    ensures last.next == null
  {
    if cur.parent != null && cur.parent.children != null && cur.parent.last != null && cur.parent.last.next == null {
      return cur.parent.last;
    }
    last := cur;
    ghost var n := ci;
    while last.next != null
      invariant n < |sibs| && last == sibs[n]
      decreases |sibs| - n
    {
      last := last.next;
      n := n + 1;
    }
  }

  /** In a well-formed child list the parent's last pointer is trusted, and it is the list's last node. */
  lemma ChildListLast(p: Node, sibs: seq<Node>, ci: nat)
    requires ChildList(p, sibs) && ci < |sibs|
    ensures LastKnown(sibs[ci]) && LastSibling(sibs[ci], sibs, ci) == sibs[|sibs| - 1]
  {
  }

  /** Whether xmlAddSibling merges a text node elem into the last sibling. */
  ghost predicate MergesAtEnd(last: Node, elem: Node)
    reads last, elem
  {
    last.kind == TextNode && elem.kind == TextNode && last.name == elem.name
  }

  /**
   * xmlAddSibling: elem, unlinked first, is added after the last of cur's
   * siblings, or merged into it when both are text nodes of the same name;
   * sibs is the list cur is in, cur being sibs[ci], which the C code walks
   * when the parent's last pointer cannot be used.
   */
  method AddSibling(mem: Memory, cur: Node?, elem: Node?, ghost sibs: seq<Node>, ghost ci: nat) returns (r: Node?)
    requires cur != null ==> LastKnown(cur) || Walkable(cur, sibs, ci)
    modifies mem
    modifies if cur == null then {} else {LastSibling(cur, sibs, ci), LastSibling(cur, sibs, ci).parent}
    modifies if elem == null then {} else {elem, elem.parent, elem.next, elem.prev}
    ensures cur == null || elem == null ==> r == null && mem.freed == old(mem.freed)
    ensures cur != null && elem != null && elem != old(LastSibling(cur, sibs, ci)) &&
            old(MergesAtEnd(LastSibling(cur, sibs, ci), elem)) ==>
              var last := old(LastSibling(cur, sibs, ci));
              r == last && last.content == Appended(old(last.content), old(elem.content)) &&
              mem.freed == old(mem.freed) + {elem} && Detached(elem)
    ensures cur != null && elem != null && old(Detached(elem)) && elem != old(LastSibling(cur, sibs, ci)) &&
            !old(MergesAtEnd(LastSibling(cur, sibs, ci), elem)) ==>
              var last := old(LastSibling(cur, sibs, ci));
              r == elem && elem.prev == last && elem.next == null && last.next == elem &&
              elem.parent == old(last.parent) && elem.doc == old(last.doc) &&
              (old(last.parent) != null && old(last.parent) != elem ==> old(last.parent).last == elem) &&
              mem.freed == old(mem.freed)
    ensures cur != null && elem != null && old(Detached(elem)) && elem.kind != AttributeNode &&
            old(cur.parent) != null && old(cur.parent) != elem && ci < |sibs| && sibs[ci] == cur &&
            old(ChildList(cur.parent, sibs)) && !old(MergesAtEnd(sibs[|sibs| - 1], elem)) ==>
              ChildList(old(cur.parent), sibs + [elem])
  {
    if cur == null || elem == null {
      return null;
    }
    ghost var p := cur.parent;
    ghost var listed := Detached(elem) && elem.kind != AttributeNode && p != null && p != elem &&
                        ci < |sibs| && sibs[ci] == cur && ChildList(p, sibs);
    if listed {
      ChildListLast(p, sibs, ci);
    }
    var last := FindLast(cur, sibs, ci);
    UnlinkBeside(elem, last);
    if last.kind == TextNode && elem.kind == TextNode && last.name == elem.name {
      MergeText(mem, last, elem);
      return last;
    }
    LinkLast(last, elem, if listed then p else elem, sibs, listed);
    return elem;
  }

  /** The end of xmlAddSibling: elem takes cur's document, follows cur, and is its parent's last child. */
  method LinkLast(cur: Node, elem: Node, ghost p: Node, ghost sibs: seq<Node>, ghost listed: bool)
    requires listed ==>
               sibs != [] && sibs[|sibs| - 1] == cur && cur.parent == p && ChildList(p, sibs) &&
               Detached(elem) && elem != p && elem.kind != AttributeNode
    modifies elem, cur, cur.parent
    ensures elem.prev == cur && elem.parent == old(cur.parent) && elem.doc == old(cur.doc)
    ensures elem != cur ==> elem.next == null && cur.next == elem
    ensures elem == cur ==> elem.next == elem
    ensures old(cur.parent) != null && old(cur.parent) != elem ==> old(cur.parent).last == elem
    ensures listed ==> ChildList(p, sibs + [elem])
  {
    if listed {
      assert elem !in sibs;
    }
    if elem.doc != cur.doc {
      SetTreeDoc(elem, cur.doc);
    }
    var parent := cur.parent;
    elem.prev := cur;
    elem.next := null;
    elem.parent := parent;
    cur.next := elem;
    if parent != null {
      parent.last := elem;
    }
    if listed {
      AppendLinks(p, sibs, elem);
    }
  }

  // ---------------------------------------------------------------------
  // xmlReplaceNode, xmlTextMerge
  // ---------------------------------------------------------------------

  /** x put in place of kids[i], with the links around it set as for kids[i], gives a sibling list. */
  lemma ReplacedLinks(p: Node, kids: seq<Node>, i: nat, x: Node)
    requires i < |kids| && Distinct(kids) && x !in kids && x != p
    requires forall j :: 0 <= j < |kids| ==> kids[j] != p
    requires forall j :: 0 <= j < |kids| && j != i ==> kids[j].parent == p
    requires x.parent == p
    requires forall j {:trigger kids[j].next} :: 0 <= j < |kids| - 1 && j != i && j != i - 1 ==> kids[j].next == kids[j + 1]
    requires forall j {:trigger kids[j].prev} :: 0 < j < |kids| && j != i && j != i + 1 ==> kids[j].prev == kids[j - 1]
    requires 0 < i ==> kids[i - 1].next == x
    requires i + 1 < |kids| ==> kids[i + 1].prev == x
    requires x.prev == (if 0 < i then kids[i - 1] else null)
    requires x.next == (if i + 1 < |kids| then kids[i + 1] else null)
    requires 0 < i ==> kids[0].prev == null
    requires i + 1 < |kids| ==> kids[|kids| - 1].next == null
    ensures SiblingList(p, kids[i := x])
  {
    var t := kids[i := x];
    assert Distinct(t) by {
      forall a, b | 0 <= a < b < |t|
        ensures t[a] != t[b]
      {
        if a != i && b != i {
          assert t[a] == kids[a] && t[b] == kids[b];
        }
      }
    }
  }

  /**
   * The relinking of xmlReplaceNode: cur takes orig's document, parent and
   * neighbours, the parent's first (and, for children, last) pointer moves
   * from orig to cur, and orig is left with no parent and no siblings.
   */
  method Substitute(orig: Node, cur: Node, ghost p: Node, ghost kids: seq<Node>, ghost i: nat, ghost attrs: bool)
    requires orig != cur
    modifies orig, cur, orig.next, orig.prev, orig.parent
    ensures Detached(orig) && cur.doc == old(orig.doc) && cur.parent == old(orig.parent)
    ensures cur != old(orig.next) && cur != old(orig.prev) && cur != old(orig.parent) && old(orig.next) != orig ==>
              cur.next == old(orig.next) && cur.prev == old(orig.prev)
    ensures i < |kids| && kids[i] == orig && old(orig.parent) == p && cur != p && cur !in kids &&
            (cur.kind == AttributeNode <==> attrs) && old(ListOf(p, kids, attrs)) ==>
              ListOf(p, kids[i := cur], attrs)
  {
    ghost var listed := i < |kids| && kids[i] == orig && orig.parent == p && cur != p && cur !in kids &&
                        (cur.kind == AttributeNode <==> attrs) && ListOf(p, kids, attrs);
    if listed {
      assert orig.kind == AttributeNode <==> attrs;
      assert p != orig.next && p != orig.prev by {
        assert orig.next == if i + 1 < |kids| then kids[i + 1] else null;
        assert orig.prev == if 0 < i then kids[i - 1] else null;
      }
    }
    SpliceOver(orig, cur, if listed then p else orig, if listed then kids else [], i);
    FixEnds(cur.parent, orig, cur, if listed then kids else [orig], i, attrs);
    if listed {
      assert orig !in kids[i := cur] && orig != p;
    }
    orig.next, orig.prev := null, null;
    orig.parent := null;
  }

  /** The sibling links of xmlReplaceNode: cur between orig's neighbours, which point at it. */
  method SpliceOver(orig: Node, cur: Node, ghost p: Node, ghost kids: seq<Node>, ghost i: nat)
    requires orig != cur
    modifies cur, orig.next, orig.prev
    ensures cur.doc == old(orig.doc) && cur.parent == old(orig.parent)
    ensures cur != old(orig.next) && cur != old(orig.prev) && old(orig.next) != orig ==>
              cur.next == old(orig.next) && cur.prev == old(orig.prev)
    ensures p != cur && p != old(orig.next) && p != old(orig.prev) ==> unchanged(p)
    ensures i < |kids| && kids[i] == orig && old(orig.parent) == p && cur != p && cur !in kids && old(SiblingList(p, kids)) ==>
              SiblingList(p, kids[i := cur])
  {
    ghost var listed := i < |kids| && kids[i] == orig && orig.parent == p && cur != p && cur !in kids && SiblingList(p, kids);
    if listed {
      assert orig.next == if i + 1 < |kids| then kids[i + 1] else null;
      assert orig.prev == if 0 < i then kids[i - 1] else null;
    }
    cur.doc := orig.doc;
    cur.parent := orig.parent;
    cur.next := orig.next;
    if cur.next != null {
      cur.next.prev := cur;
    }
    cur.prev := orig.prev;
    if cur.prev != null {
      cur.prev.next := cur;
    }
    if listed {
      ReplacedLinks(p, kids, i, cur);
    }
  }

  /** The parent's end pointers in xmlReplaceNode: whichever of them held orig now holds cur. */
  method FixEnds(p: Node?, orig: Node, cur: Node, ghost kids: seq<Node>, ghost i: nat, ghost attrs: bool)
    modifies p
    ensures p != null ==>
              p.properties == (if cur.kind == AttributeNode && old(p.properties) == orig then cur else old(p.properties)) &&
              p.children == (if cur.kind != AttributeNode && old(p.children) == orig then cur else old(p.children)) &&
              p.last == (if cur.kind != AttributeNode && old(p.last) == orig then cur else old(p.last))
    ensures p != null ==> p.parent == old(p.parent) && p.next == old(p.next) && p.prev == old(p.prev) && p.doc == old(p.doc)
    ensures p != null && i < |kids| && kids[i] == orig && old(SiblingList(p, kids[i := cur])) && Distinct(kids) &&
            (forall j :: 0 <= j < |kids| ==> (kids[j].kind == AttributeNode <==> attrs)) &&
            (cur.kind == AttributeNode <==> attrs) &&
            (attrs ==> old(p.properties) == kids[0]) &&
            (!attrs ==> old(p.children) == kids[0] && old(p.last) == kids[|kids| - 1]) ==>
              ListOf(p, kids[i := cur], attrs)
  {
    if p != null {
      if cur.kind == AttributeNode {
        if p.properties == orig {
          p.properties := cur;
        }
      } else {
        if p.children == orig {
          p.children := cur;
        }
        if p.last == orig {
          p.last := cur;
        }
      }
    }
    if p != null && i < |kids| && kids[i] == orig && SiblingList(p, kids[i := cur]) && Distinct(kids) {
      ghost var t := kids[i := cur];
      assert 0 < i ==> kids[0] != orig;
      assert i < |kids| - 1 ==> kids[|kids| - 1] != orig;
      assert t[0] == if i == 0 then cur else kids[0];
      assert t[|t| - 1] == if i == |kids| - 1 then cur else kids[|kids| - 1];
    }
  }

  /**
   * xmlReplaceNode: cur, unlinked first, takes the place of orig (the C
   * code's `old`) in its parent's list; orig leaves the tree and is
   * returned. Nothing happens when orig and cur are the same node, when orig
   * has no parent, or when exactly one of them is an attribute. kids is
   * orig's list, orig being kids[i].
   */
  method ReplaceNode(orig: Node?, cur: Node?, ghost kids: seq<Node>, ghost i: nat) returns (r: Node?)
    modifies if orig == null then {} else {orig, orig.parent, orig.next, orig.prev}
    modifies if cur == null then {} else {cur, cur.parent, cur.next, cur.prev}
    ensures orig == cur || orig == null || old(orig.parent) == null ==> r == null
    ensures orig != null && old(orig.parent) != null && cur == null ==>
              r == orig && Detached(orig) &&
              (i < |kids| && kids[i] == orig && old(ListOf(orig.parent, kids, orig.kind == AttributeNode)) ==>
                 ListOf(old(orig.parent), Without(kids, i), orig.kind == AttributeNode))
    ensures orig != null && cur != null && orig != cur && old(orig.parent) != null &&
            (orig.kind == AttributeNode) != (cur.kind == AttributeNode) ==>
              r == orig && unchanged(orig, cur)
    ensures orig != null && cur != null && orig != cur && old(orig.parent) != null &&
            (orig.kind == AttributeNode) == (cur.kind == AttributeNode) ==>
              r == orig && Detached(orig) && cur.doc == old(orig.doc) && cur.parent == old(orig.parent)
    ensures orig != null && cur != null && orig != cur && old(orig.parent) != null &&
            (orig.kind == AttributeNode) == (cur.kind == AttributeNode) && old(Detached(cur)) &&
            cur != old(orig.parent) && cur != old(orig.next) && cur != old(orig.prev) && old(orig.next) != orig ==>
              cur.next == old(orig.next) && cur.prev == old(orig.prev)
    ensures orig != null && cur != null && orig != cur && old(orig.parent) != null &&
            (orig.kind == AttributeNode) == (cur.kind == AttributeNode) && old(Detached(cur)) &&
            cur != old(orig.parent) && i < |kids| && kids[i] == orig &&
            old(ListOf(orig.parent, kids, orig.kind == AttributeNode)) ==>
              ListOf(old(orig.parent), kids[i := cur], orig.kind == AttributeNode)
  {
    if orig == cur {
      return null;
    }
    if orig == null || orig.parent == null {
      return null;
    }
    if cur == null {
      UnlinkNode(orig, kids, i);
      return orig;
    }
    if orig.kind == AttributeNode && cur.kind != AttributeNode {
      return orig;
    }
    if cur.kind == AttributeNode && orig.kind != AttributeNode {
      return orig;
    }
    ghost var p := orig.parent;
    ghost var listed := Detached(cur) && cur != p && i < |kids| && kids[i] == orig && ListOf(p, kids, orig.kind == AttributeNode);
    if listed {
      assert cur !in kids;
    }
    UnlinkBeside(cur, orig);
    Substitute(orig, cur, if listed then p else orig, if listed then kids else [], i, orig.kind == AttributeNode);
    return orig;
  }

  /** Whether xmlTextMerge merges second into first. */
  ghost predicate TextMergeable(first: Node, second: Node)
    reads first, second
  {
    first.kind == TextNode && second.kind == TextNode && second.name == first.name
  }

  /**
   * xmlTextMerge: two text nodes of the same name become one, second's
   * content appended to first's and second unlinked and freed; otherwise
   * first (or, when first is NULL, second) comes back untouched. kids is
   * second's list, second being kids[i].
   */
  method TextMerge(mem: Memory, first: Node?, second: Node?, ghost kids: seq<Node>, ghost i: nat) returns (r: Node?)
    modifies mem
    modifies if first == null || second == null then {} else {first, second, second.parent, second.next, second.prev}
    ensures first == null ==> r == second && mem.freed == old(mem.freed)
    ensures first != null && second == null ==> r == first && mem.freed == old(mem.freed)
    ensures first != null && second != null && !old(TextMergeable(first, second)) ==>
              r == first && mem.freed == old(mem.freed) && unchanged(first, second)
    ensures first != null && second != null && old(TextMergeable(first, second)) ==>
              r == first && Detached(second) && mem.freed == old(mem.freed) + {second}
    ensures first != null && second != null && first != second && old(TextMergeable(first, second)) ==>
              first.content == Appended(old(first.content), old(second.content))
    ensures first != null && second != null && old(TextMergeable(first, second)) && old(second.parent) != null &&
            i < |kids| && kids[i] == second && old(ChildList(second.parent, kids)) ==>
              ChildList(old(second.parent), Without(kids, i))
  {
    if first == null {
      return second;
    }
    if second == null {
      return first;
    }
    if first.kind != TextNode || second.kind != TextNode || second.name != first.name {
      return first;
    }
    ghost var p := second.parent;
    ghost var listed := p != null && i < |kids| && kids[i] == second && ChildList(p, kids);
    AddTextContent(first, second.content);
    if listed {
      assert Linked(kids) && ChildList(p, kids);
    }
    UnlinkMerged(second, first, kids, i);
    FreeNode(mem, second);
    return first;
  }

  /** xmlUnlinkNode(second) as seen from the text node first that xmlTextMerge returns. */
  method UnlinkMerged(second: Node, ghost first: Node, ghost kids: seq<Node>, ghost i: nat)
    modifies second, second.parent, second.next, second.prev
    ensures Detached(second)
    ensures first != second ==> first.content == old(first.content)
    ensures old(second.parent) != null && i < |kids| && kids[i] == second && old(ChildList(second.parent, kids)) ==>
              ChildList(old(second.parent), Without(kids, i))
  {
    UnlinkNode(second, kids, i);
  }
}
