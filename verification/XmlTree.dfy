/** createXML of xml_helper.js: a list of slash-separated keys grown into a document. */
module XmlTree {
  import opened Basics

  /** What an element carries besides its children. */
  datatype Content = Bare | Text(text: string) | Index(index: nat) | Delete(text: string)

  datatype Node = Node(tag: string, content: Content, children: seq<Node>)

  /** A map entry; the key is given by its pieces between slashes. */
  datatype Entry = Entry(tokens: seq<string>, value: Option<string>)

  type Path = seq<string>

  const ROOT := "RGW"

  // ---- The DOM operations.

  predicate HasTag(n: Node, tag: string) { n.tag == tag || AnyTag(n.children, tag) }

  predicate AnyTag(ns: seq<Node>, tag: string) { ns != [] && (HasTag(ns[0], tag) || AnyTag(ns[1..], tag)) }

  /** `getElementsByTagName(tag)[0].appendChild(leaf)`: the first element in document order. */
  function AppendFirst(n: Node, tag: string, leaf: Node): Node {
    if n.tag == tag then n.(children := n.children + [leaf])
    else n.(children := AppendIn(n.children, tag, leaf))
  }

  function AppendIn(ns: seq<Node>, tag: string, leaf: Node): seq<Node> {
    if ns == [] then []
    else if HasTag(ns[0], tag) then [AppendFirst(ns[0], tag, leaf)] + ns[1..]
    else [ns[0]] + AppendIn(ns[1..], tag, leaf)
  }

  /** Without a parent element the source's `_element[0]` is undefined and it throws. */
  function CreateNode(doc: Node, parent: string, tag: string, content: Content): Option<Node> {
    if HasTag(doc, parent) then Some(AppendFirst(doc, parent, Node(tag, content, []))) else None
  }

  /** `t.indexOf(p)`, with |t| standing for -1. */
  function IndexOf(t: string, p: string): (r: nat)
    ensures r <= |t|
  {
    if p <= t && t != [] then 0 else if t == [] then 0 else 1 + IndexOf(t[1..], p)
  }

  function LeafTag(last: string): string {
    if IndexOf(last, "#index") < |last| then last[..IndexOf(last, "#index")]
    else if IndexOf(last, "#delete") < |last| then last[..IndexOf(last, "#delete")]
    else last
  }

  function LeafContent(last: string, value: Option<string>, i: nat): Content {
    if value.None? then Bare
    else if IndexOf(last, "#index") < |last| then Index(i)
    else if IndexOf(last, "#delete") < |last| then Delete(value.value)
    else Text(value.value)
  }

  /** A pattern is not found where its first character does not occur. */
  lemma {:induction false} FoundLater(t: string, rest: string, p: string)
    requires p != [] && p[0] !in t
    ensures IndexOf(t + rest, p) == |t| + IndexOf(rest, p)
    decreases |t|
  {
    if t == [] {
      assert t + rest == rest;
    } else {
      var s := t + rest;
      assert s[0] == t[0] && s[1..] == t[1..] + rest;
      FoundLater(t[1..], rest, p);
    }
  }

  /**
   What the last piece of a key makes of its leaf, for a name without "#": the plain name carries the value as text,
   "#index" the number of the entry, "#delete" the value and the Delete mark, and a null value nothing at all.
   "#index" is sought first.
   */
  lemma LeafForms(name: string, value: string, i: nat)
    requires '#' !in name
    ensures LeafTag(name) == name && LeafContent(name, Some(value), i) == Text(value)
    ensures LeafTag(name + "#index") == name && LeafContent(name + "#index", Some(value), i) == Index(i)
    ensures LeafTag(name + "#delete") == name && LeafContent(name + "#delete", Some(value), i) == Delete(value)
    ensures var both := name + "#delete#index";
      LeafTag(both) == name + "#delete" && LeafContent(both, Some(value), i) == Index(i)
    ensures forall last :: LeafContent(last, None, i) == Bare
  {
    hide IndexOf;
    FoundHere("#index");
    FoundHere("#delete");
    NoIndexInDelete("");
    NoIndexInDelete("#index");
    FoundLater(name, "", "#index");
    FoundLater(name, "", "#delete");
    assert name + "" == name && "#delete" + "" == "#delete" && "#delete" + "#index" == "#delete#index";
    FoundLater(name, "#index", "#index");
    FoundLater(name, "#delete", "#index");
    FoundLater(name, "#delete", "#delete");
    FoundLater(name, "#delete#index", "#index");
    assert (name + "#delete#index")[..|name| + 7] == name + "#delete";
  }

  lemma IndexStep(t: string, p: string)
    requires t != []
    ensures IndexOf(t, p) == if p <= t then 0 else 1 + IndexOf(t[1..], p)
  {
  }

  /** A pattern is found at once where it stands. */
  lemma FoundHere(p: string)
    ensures IndexOf(p, p) == 0 && IndexOf("", p) == 0
  {
  }

  lemma NoIndexInDelete(rest: string)
    ensures IndexOf("#delete" + rest, "#index") == 7 + IndexOf(rest, "#index")
  {
    hide IndexOf;
    var t := "#delete" + rest;
    assert t[1] == 'd' && "#index"[1] == 'i';
    assert t[1..] == "delete" + rest;
    IndexStep(t, "#index");
    FoundLater("delete", rest, "#index");
  }

  /** The interior elements for tokens j and up, created where their names are not in use. */
  function Interior(doc: Node, tokens: seq<string>, j: nat): Option<Node>
    decreases |tokens| - j
  {
    if j + 1 >= |tokens| then Some(doc)
    else if HasTag(doc, tokens[j]) then Interior(doc, tokens, j + 1)
    else if j == 0 then None
    else match CreateNode(doc, tokens[j - 1], tokens[j], Bare)
      case None => None
      case Some(d) => Interior(d, tokens, j + 1)
  }

  function AddEntry(doc: Node, e: Entry, i: nat): Option<Node> {
    match Interior(doc, e.tokens, 0)
    case None => None
    case Some(d) =>
      var n := |e.tokens|;
      if n < 2 then None
      else CreateNode(d, e.tokens[n - 2], LeafTag(e.tokens[n - 1]), LeafContent(e.tokens[n - 1], e.value, i))
  }

  function Build(es: seq<Entry>): Option<Node> {
    if es == [] then Some(Node(ROOT, Bare, [])) else
    var n := |es| - 1;
    match Build(es[..n]) case None => None case Some(d) => AddEntry(d, es[n], n)
  }

  method CreateXML(controlMap: seq<Entry>) returns (doc: Option<Node>)
    ensures doc == Build(controlMap)
  {
    hide HasTag, CreateNode, LeafTag, LeafContent;
    var xmlDoc := Node(ROOT, Bare, []);
    var i := 0;
    while i < |controlMap|
      invariant 0 <= i <= |controlMap| && Build(controlMap[..i]) == Some(xmlDoc)
    {
      BuildNext(controlMap, i);
      var token := controlMap[i].tokens;
      ghost var before := xmlDoc;
      var j := 0;
      while j + 1 < |token|
        invariant 0 <= j && Interior(before, token, 0) == Interior(xmlDoc, token, j)
        invariant j + 1 <= |token| || j == 0
      {
        if !HasTag(xmlDoc, token[j]) {
          if j == 0 {
            BuildStops(controlMap, i);
            return None;
          }
          var created := CreateNode(xmlDoc, token[j - 1], token[j], Bare);
          if created == None {
            BuildStops(controlMap, i);
            return None;
          }
          xmlDoc := created.value;
        }
        j := j + 1;
      }
      if |token| < 2 {
        BuildStops(controlMap, i);
        return None;
      }
      var created := CreateNode(xmlDoc, token[j - 1], LeafTag(token[j]), LeafContent(token[j], controlMap[i].value, i));
      if created == None {
        BuildStops(controlMap, i);
        return None;
      }
      xmlDoc := created.value;
      i := i + 1;
    }
    assert controlMap[..i] == controlMap;
    doc := Some(xmlDoc);
  }

  lemma BuildNext(es: seq<Entry>, i: nat)
    requires i < |es|
    ensures Build(es[..i + 1]) == match Build(es[..i]) case None => None case Some(d) => AddEntry(d, es[i], i)
  {
    assert es[..i + 1][..i] == es[..i];
  }

  lemma {:induction false} BuildStops(es: seq<Entry>, i: nat)
    requires i < |es| && Build(es[..i + 1]) == None
    ensures Build(es) == None
    decreases |es|
  {
    if i + 1 == |es| {
      assert es[..i + 1] == es;
    } else {
      assert es[..|es| - 1][..i + 1] == es[..i + 1];
      BuildStops(es[..|es| - 1], i);
    }
  }

  // ---- Elements by path.

  /** The contents of the elements with path p, in document order. */
  function At(n: Node, above: Path, p: Path): seq<Content> {
    (if above + [n.tag] == p then [n.content] else []) + AtAll(n.children, above + [n.tag], p)
  }

  function AtAll(ns: seq<Node>, above: Path, p: Path): seq<Content> {
    if ns == [] then [] else At(ns[0], above, p) + AtAll(ns[1..], above, p)
  }

  function Count(n: Node, tag: string): nat { (if n.tag == tag then 1 else 0) + CountAll(n.children, tag) }

  function CountAll(ns: seq<Node>, tag: string): nat {
    if ns == [] then 0 else Count(ns[0], tag) + CountAll(ns[1..], tag)
  }

  /** The path of the first element with a tag. */
  function FirstPath(n: Node, above: Path, tag: string): (r: Path)
    requires HasTag(n, tag)
    ensures r != [] && r[|r| - 1] == tag
  {
    if n.tag == tag then above + [tag] else FirstPathIn(n.children, above + [n.tag], tag)
  }

  function FirstPathIn(ns: seq<Node>, above: Path, tag: string): (r: Path)
    requires AnyTag(ns, tag)
    ensures r != [] && r[|r| - 1] == tag
  {
    if HasTag(ns[0], tag) then FirstPath(ns[0], above, tag) else FirstPathIn(ns[1..], above, tag)
  }

  lemma {:induction false} CountPositive(n: Node, tag: string)
    ensures HasTag(n, tag) <==> Count(n, tag) > 0
  {
    CountAllPositive(n.children, tag);
  }

  lemma {:induction false} CountAllPositive(ns: seq<Node>, tag: string)
    ensures AnyTag(ns, tag) <==> CountAll(ns, tag) > 0
  {
    if ns != [] {
      CountPositive(ns[0], tag);
      CountAllPositive(ns[1..], tag);
    }
  }

  lemma {:induction false} AtAllJoin(ms: seq<Node>, ns: seq<Node>, above: Path, p: Path)
    ensures AtAll(ms + ns, above, p) == AtAll(ms, above, p) + AtAll(ns, above, p)
  {
    if ms == [] {
      assert ms + ns == ns;
    } else {
      assert (ms + ns)[1..] == ms[1..] + ns;
      AtAllJoin(ms[1..], ns, above, p);
    }
  }

  lemma {:induction false} CountAllJoin(ms: seq<Node>, ns: seq<Node>, tag: string)
    ensures CountAll(ms + ns, tag) == CountAll(ms, tag) + CountAll(ns, tag)
  {
    if ms == [] {
      assert ms + ns == ns;
    } else {
      assert (ms + ns)[1..] == ms[1..] + ns;
      CountAllJoin(ms[1..], ns, tag);
    }
  }

  lemma SnocInjective(a: Path, s: string, b: Path, t: string)
    ensures a + [s] == b + [t] <==> a == b && s == t
  {
    if a + [s] == b + [t] {
      assert a == (a + [s])[..|a|] == (b + [t])[..|a|] == b && s == (a + [s])[|a|] == t;
    }
  }

  /** Only an element with the parent's tag can hold an element whose path goes through it. */
  lemma {:induction false} NothingBelow(n: Node, above: Path, q: Path, x: string)
    requires above != [] && q != [] && above[|above| - 1] != q[|q| - 1] && !HasTag(n, q[|q| - 1])
    ensures At(n, above, q + [x]) == []
  {
    SnocInjective(above, n.tag, q, x);
    NothingBelowAll(n.children, above + [n.tag], q, x);
  }

  lemma {:induction false} NothingBelowAll(ns: seq<Node>, above: Path, q: Path, x: string)
    requires above != [] && q != [] && above[|above| - 1] != q[|q| - 1] && !AnyTag(ns, q[|q| - 1])
    ensures AtAll(ns, above, q + [x]) == []
  {
    if ns != [] {
      NothingBelow(ns[0], above, q, x);
      NothingBelowAll(ns[1..], above, q, x);
    }
  }

  /** Appending below the only element with a tag adds one element at that path, after all others there. */
  lemma {:induction false} AppendAtEnd(n: Node, above: Path, tag: string, leaf: Node, p: Path)
    requires leaf.children == [] && Count(n, tag) == 1 && HasTag(n, tag)
    ensures At(AppendFirst(n, tag, leaf), above, p)
         == At(n, above, p) + (if p == FirstPath(n, above, tag) + [leaf.tag] then [leaf.content] else [])
  {
    if n.tag == tag {
      AtAllJoin(n.children, [leaf], above + [tag], p);
      AtLeaf(leaf, above + [tag], p);
    } else {
      AppendInAtEnd(n.children, above + [n.tag], tag, leaf, p);
    }
  }

  lemma AtAllHead(n: Node, rest: seq<Node>, above: Path, p: Path)
    ensures AtAll([n] + rest, above, p) == At(n, above, p) + AtAll(rest, above, p)
  {
    hide At;
    assert ([n] + rest)[1..] == rest;
  }

  lemma AnyTagHead(ns: seq<Node>, tag: string)
    ensures AnyTag(ns, tag) <==> ns != [] && (HasTag(ns[0], tag) || AnyTag(ns[1..], tag))
  {
    hide HasTag;
  }

  lemma AtLeaf(leaf: Node, above: Path, p: Path)
    requires leaf.children == []
    ensures AtAll([leaf], above, p) == if p == above + [leaf.tag] then [leaf.content] else []
  {
    assert AtAll([], above, p) == [] && AtAll([], above + [leaf.tag], p) == [];
    assert AtAll([leaf], above, p) == At(leaf, above, p) + AtAll([leaf][1..], above, p);
  }

  lemma {:induction false} AppendInAtEnd(ns: seq<Node>, above: Path, tag: string, leaf: Node, p: Path)
    requires leaf.children == [] && CountAll(ns, tag) == 1 && AnyTag(ns, tag)
    requires above != [] && above[|above| - 1] != tag
    ensures AtAll(AppendIn(ns, tag, leaf), above, p)
         == AtAll(ns, above, p) + (if p == FirstPathIn(ns, above, tag) + [leaf.tag] then [leaf.content] else [])
  {
    hide At, AtAll, AppendFirst, FirstPath, HasTag;
    CountPositive(ns[0], tag);
    CountAllPositive(ns[1..], tag);
    AtAllHead(ns[0], ns[1..], above, p);
    assert [ns[0]] + ns[1..] == ns;
    if HasTag(ns[0], tag) {
      AppendAtEnd(ns[0], above, tag, leaf, p);
      NothingBelowAll(ns[1..], above, FirstPath(ns[0], above, tag), leaf.tag);
      AtAllHead(AppendFirst(ns[0], tag, leaf), ns[1..], above, p);
    } else {
      AppendInAtEnd(ns[1..], above, tag, leaf, p);
      AtAllHead(ns[0], AppendIn(ns[1..], tag, leaf), above, p);
    }
  }

  /** Appending below the first element with a tag adds one element, below that element, and nothing else. */
  lemma {:induction false} AppendAt(n: Node, above: Path, tag: string, leaf: Node, p: Path)
    requires leaf.children == [] && HasTag(n, tag)
    ensures multiset(At(AppendFirst(n, tag, leaf), above, p))
         == multiset(At(n, above, p))
          + (if p == FirstPath(n, above, tag) + [leaf.tag] then multiset{leaf.content} else multiset{})
  {
    if n.tag == tag {
      AtAllJoin(n.children, [leaf], above + [tag], p);
      AtLeaf(leaf, above + [tag], p);
    } else {
      AppendInAt(n.children, above + [n.tag], tag, leaf, p);
    }
  }

  lemma {:induction false} AppendInAt(ns: seq<Node>, above: Path, tag: string, leaf: Node, p: Path)
    requires leaf.children == [] && AnyTag(ns, tag)
    ensures multiset(AtAll(AppendIn(ns, tag, leaf), above, p))
         == multiset(AtAll(ns, above, p))
          + (if p == FirstPathIn(ns, above, tag) + [leaf.tag] then multiset{leaf.content} else multiset{})
  {
    hide At, AtAll, AppendFirst, FirstPath, HasTag;
    AnyTagHead(ns, tag);
    AtAllHead(ns[0], ns[1..], above, p);
    assert [ns[0]] + ns[1..] == ns;
    if HasTag(ns[0], tag) {
      AppendAt(ns[0], above, tag, leaf, p);
      AtAllHead(AppendFirst(ns[0], tag, leaf), ns[1..], above, p);
    } else {
      AppendInAt(ns[1..], above, tag, leaf, p);
      AtAllHead(ns[0], AppendIn(ns[1..], tag, leaf), above, p);
    }
  }

  /** A leaf lands below a path exactly when the first element with the parent's tag is the one at that path. */
  lemma LeafLandsIff(doc: Node, parent: string, leaf: Node, path: Path)
    requires leaf.children == [] && HasTag(doc, parent)
    ensures var p := path + [leaf.tag];
      (multiset(At(AppendFirst(doc, parent, leaf), [], p)) == multiset(At(doc, [], p)) + multiset{leaf.content})
      <==> FirstPath(doc, [], parent) == path
  {
    hide At, AppendFirst, FirstPath;
    var p := path + [leaf.tag];
    AppendAt(doc, [], parent, leaf, p);
    SnocInjective(path, leaf.tag, FirstPath(doc, [], parent), leaf.tag);
    var m := multiset(At(doc, [], p));
    assert (m + multiset{leaf.content})[leaf.content] == m[leaf.content] + 1;
  }

  lemma {:induction false} AppendCounts(n: Node, tag: string, leaf: Node, t: string)
    requires leaf.children == [] && HasTag(n, tag)
    ensures Count(AppendFirst(n, tag, leaf), t) == Count(n, t) + (if leaf.tag == t then 1 else 0)
  {
    if n.tag == tag {
      CountAllJoin(n.children, [leaf], t);
      assert [leaf][1..] == [] && CountAll([leaf], t) == Count(leaf, t) + CountAll([], t);
    } else {
      AppendInCounts(n.children, tag, leaf, t);
    }
  }

  lemma {:induction false} AppendInCounts(ns: seq<Node>, tag: string, leaf: Node, t: string)
    requires leaf.children == [] && AnyTag(ns, tag)
    ensures CountAll(AppendIn(ns, tag, leaf), t) == CountAll(ns, t) + (if leaf.tag == t then 1 else 0)
  {
    if HasTag(ns[0], tag) {
      AppendCounts(ns[0], tag, leaf, t);
      assert ([AppendFirst(ns[0], tag, leaf)] + ns[1..])[1..] == ns[1..];
    } else {
      AppendInCounts(ns[1..], tag, leaf, t);
      assert ([ns[0]] + AppendIn(ns[1..], tag, leaf))[1..] == AppendIn(ns[1..], tag, leaf);
    }
  }

  /** Where another tag is found first does not change. */
  lemma {:induction false} AppendKeepsFirst(n: Node, above: Path, tag: string, leaf: Node, t: string)
    requires leaf.children == [] && HasTag(n, tag) && HasTag(n, t) && leaf.tag != t
    ensures HasTag(AppendFirst(n, tag, leaf), t)
    ensures FirstPath(AppendFirst(n, tag, leaf), above, t) == FirstPath(n, above, t)
  {
    AppendCounts(n, tag, leaf, t);
    CountPositive(n, t);
    CountPositive(AppendFirst(n, tag, leaf), t);
    if n.tag == t {
    } else if n.tag == tag {
      FirstInJoin(n.children, leaf, above + [n.tag], t);
    } else {
      AppendInKeepsFirst(n.children, above + [n.tag], tag, leaf, t);
    }
  }

  lemma {:induction false} FirstInJoin(ns: seq<Node>, leaf: Node, above: Path, t: string)
    requires AnyTag(ns, t)
    ensures AnyTag(ns + [leaf], t) && FirstPathIn(ns + [leaf], above, t) == FirstPathIn(ns, above, t)
  {
    assert (ns + [leaf])[0] == ns[0] && (ns + [leaf])[1..] == ns[1..] + [leaf];
    if !HasTag(ns[0], t) {
      FirstInJoin(ns[1..], leaf, above, t);
    }
  }

  lemma {:induction false} AppendInKeepsFirst(ns: seq<Node>, above: Path, tag: string, leaf: Node, t: string)
    requires leaf.children == [] && AnyTag(ns, tag) && AnyTag(ns, t) && leaf.tag != t
    ensures AnyTag(AppendIn(ns, tag, leaf), t)
    ensures FirstPathIn(AppendIn(ns, tag, leaf), above, t) == FirstPathIn(ns, above, t)
  {
    var ms := AppendIn(ns, tag, leaf);
    if HasTag(ns[0], tag) {
      var m := AppendFirst(ns[0], tag, leaf);
      assert ms == [m] + ns[1..] && ms[1..] == ns[1..];
      AppendCounts(ns[0], tag, leaf, t);
      CountPositive(ns[0], t);
      CountPositive(m, t);
      if HasTag(ns[0], t) {
        AppendKeepsFirst(ns[0], above, tag, leaf, t);
      }
    } else {
      assert ms == [ns[0]] + AppendIn(ns[1..], tag, leaf) && ms[1..] == AppendIn(ns[1..], tag, leaf);
      if !HasTag(ns[0], t) {
        AppendInKeepsFirst(ns[1..], above, tag, leaf, t);
      }
    }
  }

  /** A tag that is new is found below the parent. */
  lemma {:induction false} AppendSetsFirst(n: Node, above: Path, tag: string, leaf: Node)
    requires leaf.children == [] && HasTag(n, tag) && !HasTag(n, leaf.tag)
    ensures HasTag(AppendFirst(n, tag, leaf), leaf.tag)
    ensures FirstPath(AppendFirst(n, tag, leaf), above, leaf.tag) == FirstPath(n, above, tag) + [leaf.tag]
  {
    if n.tag == tag {
      NewInJoin(n.children, leaf, above + [n.tag]);
    } else {
      AppendInSetsFirst(n.children, above + [n.tag], tag, leaf);
    }
  }

  lemma {:induction false} NewInJoin(ns: seq<Node>, leaf: Node, above: Path)
    requires !AnyTag(ns, leaf.tag)
    ensures AnyTag(ns + [leaf], leaf.tag) && FirstPathIn(ns + [leaf], above, leaf.tag) == above + [leaf.tag]
  {
    if ns == [] {
      assert ns + [leaf] == [leaf];
    } else {
      assert (ns + [leaf])[0] == ns[0] && (ns + [leaf])[1..] == ns[1..] + [leaf];
      NewInJoin(ns[1..], leaf, above);
    }
  }

  lemma {:induction false} AppendInSetsFirst(ns: seq<Node>, above: Path, tag: string, leaf: Node)
    requires leaf.children == [] && AnyTag(ns, tag) && !AnyTag(ns, leaf.tag)
    ensures AnyTag(AppendIn(ns, tag, leaf), leaf.tag)
    ensures FirstPathIn(AppendIn(ns, tag, leaf), above, leaf.tag) == FirstPathIn(ns, above, tag) + [leaf.tag]
  {
    if HasTag(ns[0], tag) {
      AppendSetsFirst(ns[0], above, tag, leaf);
    } else {
      AppendInSetsFirst(ns[1..], above, tag, leaf);
      var ms := AppendIn(ns, tag, leaf);
      assert ms == [ns[0]] + AppendIn(ns[1..], tag, leaf) && ms[1..] == AppendIn(ns[1..], tag, leaf);
    }
  }

  lemma {:induction false} AtHasTag(n: Node, above: Path, p: Path)
    requires At(n, above, p) != []
    ensures p != [] && HasTag(n, p[|p| - 1])
  {
    if above + [n.tag] != p {
      AtAllHasTag(n.children, above + [n.tag], p);
    }
  }

  lemma {:induction false} AtAllHasTag(ns: seq<Node>, above: Path, p: Path)
    requires AtAll(ns, above, p) != []
    ensures p != [] && AnyTag(ns, p[|p| - 1])
  {
    if At(ns[0], above, p) != [] {
      AtHasTag(ns[0], above, p);
    } else {
      AtAllHasTag(ns[1..], above, p);
    }
  }

  lemma {:induction false} FirstPathAt(n: Node, above: Path, tag: string)
    requires HasTag(n, tag)
    ensures At(n, above, FirstPath(n, above, tag)) != []
  {
    if n.tag != tag {
      FirstPathAtAll(n.children, above + [n.tag], tag);
    }
  }

  lemma {:induction false} FirstPathAtAll(ns: seq<Node>, above: Path, tag: string)
    requires AnyTag(ns, tag)
    ensures AtAll(ns, above, FirstPathIn(ns, above, tag)) != []
  {
    if HasTag(ns[0], tag) {
      FirstPathAt(ns[0], above, tag);
    } else {
      FirstPathAtAll(ns[1..], above, tag);
    }
  }

  // ---- What the document should hold.

  function LeafPath(e: Entry): Path
    requires e.tokens != []
  {
    e.tokens[..|e.tokens| - 1] + [LeafTag(e.tokens[|e.tokens| - 1])]
  }

  /** The contents for path p, in map order. */
  function LeafValues(es: seq<Entry>, p: Path): seq<Content> {
    if es == [] then [] else
    var n := |es| - 1;
    var e := es[n];
    LeafValues(es[..n], p)
      + (if e.tokens != [] && LeafPath(e) == p then [LeafContent(e.tokens[|e.tokens| - 1], e.value, n)] else [])
  }

  /** p leads to an interior element of some key. */
  ghost predicate InteriorPath(es: seq<Entry>, p: Path) {
    exists i: nat :: i < |es| && Leads(es[i].tokens, p)
  }

  predicate Leads(tokens: seq<string>, p: Path) { 0 < |p| < |tokens| && tokens[..|p|] == p }

  /** One bare element for every interior path, the values for every other path, nothing else. */
  ghost function Wanted(es: seq<Entry>, built: Path, p: Path): seq<Content> {
    if p == [ROOT] || InteriorPath(es, p) || (0 < |p| <= |built| && built[..|p|] == p) then [Bare]
    else LeafValues(es, p)
  }

  type Homes = map<string, Path>

  /** Each interior name has one path, and leaf names are not interior names. */
  ghost predicate WellNamed(es: seq<Entry>, homes: Homes) {
    && ROOT in homes && homes[ROOT] == [ROOT]
    && forall i: nat | i < |es| :: WellNamedEntry(es[i], homes)
  }

  predicate WellNamedEntry(e: Entry, homes: Homes) {
    && |e.tokens| >= 2 && e.tokens[0] == ROOT
    && (forall j: nat | j + 1 < |e.tokens| :: e.tokens[j] in homes && homes[e.tokens[j]] == e.tokens[..j + 1])
    && LeafTag(e.tokens[|e.tokens| - 1]) !in homes
  }

  /** The document so far: contents as wanted, and interior names used once, at home. */
  ghost predicate Holds(doc: Node, homes: Homes, es: seq<Entry>, built: Path) {
    && (forall p: Path :: At(doc, [], p) == Wanted(es, built, p))
    && (forall t <- homes :: Count(doc, t) <= 1 && (HasTag(doc, t) ==> FirstPath(doc, [], t) == homes[t]))
  }

  /** Leaves never sit on a path that ends in an interior name. */
  lemma {:induction false} NoLeafAtHome(es: seq<Entry>, homes: Homes, p: Path)
    requires WellNamed(es, homes) && p != [] && p[|p| - 1] in homes
    ensures LeafValues(es, p) == []
  {
    if es != [] {
      var n := |es| - 1;
      NoLeafAtHome(es[..n], homes, p);
      assert WellNamedEntry(es[n], homes);
    }
  }

  lemma InteriorNotLeaf(es: seq<Entry>, homes: Homes, p: Path)
    requires WellNamed(es, homes) && p != [] && p[|p| - 1] !in homes
    ensures !InteriorPath(es, p)
  {
    forall i: nat | i < |es|
      ensures !Leads(es[i].tokens, p)
    {
      assert WellNamedEntry(es[i], homes);
      assert |p| < |es[i].tokens| ==> es[i].tokens[..|p|][|p| - 1] == es[i].tokens[|p| - 1];
    }
  }

  /** Passing interior token j: the element at its home is there or is created. */
  lemma InteriorStep(doc: Node, homes: Homes, es: seq<Entry>, e: Entry, j: nat) returns (d: Node)
    requires WellNamed(es, homes) && WellNamedEntry(e, homes) && j + 1 < |e.tokens|
    requires Holds(doc, homes, es, e.tokens[..j])
    ensures Holds(d, homes, es, e.tokens[..j + 1])
    ensures Interior(doc, e.tokens, j) == Interior(d, e.tokens, j + 1)
  {
    hide At, Count, LeafTag, LeafContent, Holds, WellNamed, AppendFirst;
    var t, home := e.tokens[j], e.tokens[..j + 1];
    if HasTag(doc, t) {
      d := doc;
      TokenFound(doc, homes, es, e, j);
    } else {
      RootThere(doc, homes, es, e.tokens[..j]);
      d := AppendFirst(doc, e.tokens[j - 1], Node(t, Bare, []));
      TokenCreated(doc, homes, es, e, j);
    }
  }

  lemma TokenFound(doc: Node, homes: Homes, es: seq<Entry>, e: Entry, j: nat)
    requires WellNamed(es, homes) && WellNamedEntry(e, homes) && j + 1 < |e.tokens| && HasTag(doc, e.tokens[j])
    requires Holds(doc, homes, es, e.tokens[..j])
    ensures Holds(doc, homes, es, e.tokens[..j + 1])
  {
    hide At, Count, LeafValues, InteriorPath, LeafTag;
    NoLeafAtHome(es, homes, e.tokens[..j + 1]);
    WantedExtends(es, e.tokens, j);
    FirstPathAt(doc, [], e.tokens[j]);
    assert homes[e.tokens[j]] == e.tokens[..j + 1];
    assert Wanted(es, e.tokens[..j], e.tokens[..j + 1]) == [Bare];
  }

  lemma TokenCreated(doc: Node, homes: Homes, es: seq<Entry>, e: Entry, j: nat)
    requires WellNamed(es, homes) && WellNamedEntry(e, homes) && 0 < j && j + 1 < |e.tokens|
    requires !HasTag(doc, e.tokens[j])
    requires Holds(doc, homes, es, e.tokens[..j])
    ensures HasTag(doc, e.tokens[j - 1])
    ensures Holds(AppendFirst(doc, e.tokens[j - 1], Node(e.tokens[j], Bare, [])), homes, es, e.tokens[..j + 1])
  {
    hide At, Count, LeafValues, InteriorPath, LeafTag, AppendFirst;
    var t, home, parent, above := e.tokens[j], e.tokens[..j + 1], e.tokens[j - 1], e.tokens[..j];
    NoLeafAtHome(es, homes, home);
    WantedExtends(es, e.tokens, j);
    ParentThere(doc, homes, es, e, j);
    var leaf := Node(t, Bare, []);
    AbsentAt(doc, home);
    assert homes[t] == home == above + [t];
    AppendKeepsHomes(doc, homes, parent, leaf);
    forall p: Path
      ensures At(AppendFirst(doc, parent, leaf), [], p) == Wanted(es, home, p)
    {
      AppendAtEnd(doc, [], parent, leaf, p);
    }
  }

  lemma AbsentAt(doc: Node, p: Path)
    requires p != [] && !HasTag(doc, p[|p| - 1])
    ensures At(doc, [], p) == []
  {
    hide At, HasTag;
    if At(doc, [], p) != [] {
      AtHasTag(doc, [], p);
    }
  }

  lemma RootThere(doc: Node, homes: Homes, es: seq<Entry>, built: Path)
    requires Holds(doc, homes, es, built)
    ensures HasTag(doc, ROOT)
  {
    hide At;
    assert Wanted(es, built, [ROOT]) == [Bare];
    AtHasTag(doc, [], [ROOT]);
  }

  /** What is wanted changes at one path only. */
  lemma WantedExtends(es: seq<Entry>, tokens: seq<string>, j: nat)
    requires j < |tokens| && LeafValues(es, tokens[..j + 1]) == []
    ensures forall p: Path ::
      Wanted(es, tokens[..j + 1], p) == if p == tokens[..j + 1] then [Bare] else Wanted(es, tokens[..j], p)
  {
    forall p: Path
      ensures Wanted(es, tokens[..j + 1], p) == if p == tokens[..j + 1] then [Bare] else Wanted(es, tokens[..j], p)
    {
      if 0 < |p| <= j {
        assert tokens[..j + 1][..|p|] == tokens[..|p|] == tokens[..j][..|p|];
      }
      if |p| == j + 1 {
        assert tokens[..j + 1][..|p|] == tokens[..j + 1];
      }
    }
  }

  lemma AppendKeepsHomes(doc: Node, homes: Homes, parent: string, leaf: Node)
    requires leaf.children == [] && HasTag(doc, parent) && parent in homes
    requires forall t <- homes :: Count(doc, t) <= 1 && (HasTag(doc, t) ==> FirstPath(doc, [], t) == homes[t])
    requires leaf.tag in homes ==> !HasTag(doc, leaf.tag) && homes[leaf.tag] == homes[parent] + [leaf.tag]
    ensures var d := AppendFirst(doc, parent, leaf);
      forall t <- homes :: Count(d, t) <= 1 && (HasTag(d, t) ==> FirstPath(d, [], t) == homes[t])
  {
    hide Count, HasTag, AppendFirst, FirstPath;
    var d := AppendFirst(doc, parent, leaf);
    forall t <- homes
      ensures Count(d, t) <= 1 && (HasTag(d, t) ==> FirstPath(d, [], t) == homes[t])
    {
      AppendCounts(doc, parent, leaf, t);
      CountPositive(doc, t);
      CountPositive(d, t);
      if t == leaf.tag {
        AppendSetsFirst(doc, [], parent, leaf);
      } else if HasTag(doc, t) {
        AppendKeepsFirst(doc, [], parent, leaf, t);
      }
    }
  }

  lemma {:induction false} InteriorAll(doc: Node, homes: Homes, es: seq<Entry>, e: Entry, j: nat) returns (d: Node)
    requires WellNamed(es, homes) && WellNamedEntry(e, homes) && j < |e.tokens|
    requires Holds(doc, homes, es, e.tokens[..j])
    ensures Holds(d, homes, es, e.tokens[..|e.tokens| - 1]) && Interior(doc, e.tokens, j) == Some(d)
    decreases |e.tokens| - j
  {
    hide Holds, WellNamed, WellNamedEntry;
    if j + 1 >= |e.tokens| {
      d := doc;
    } else {
      var next := InteriorStep(doc, homes, es, e, j);
      d := InteriorAll(next, homes, es, e, j + 1);
    }
  }

  /** The leaf goes below its parent, and the entry is done. */
  lemma LeafStep(doc: Node, homes: Homes, es: seq<Entry>, e: Entry) returns (d: Node)
    requires WellNamed(es, homes) && WellNamedEntry(e, homes)
    requires Holds(doc, homes, es, e.tokens[..|e.tokens| - 1])
    ensures var n := |e.tokens|;
      CreateNode(doc, e.tokens[n - 2], LeafTag(e.tokens[n - 1]), LeafContent(e.tokens[n - 1], e.value, |es|)) == Some(d)
    ensures Holds(d, homes, es + [e], [])
  {
    hide At, Count, LeafTag, LeafContent, Wanted, WellNamed, FirstPath, HasTag, AppendFirst;
    var n := |e.tokens|;
    var parent := e.tokens[n - 2];
    ParentThere(doc, homes, es, e, n - 1);
    var leaf := Node(LeafTag(e.tokens[n - 1]), LeafContent(e.tokens[n - 1], e.value, |es|), []);
    d := AppendFirst(doc, parent, leaf);
    AppendKeepsHomes(doc, homes, parent, leaf);
    forall p: Path
      ensures At(d, [], p) == Wanted(es + [e], [], p)
    {
      AppendAtEnd(doc, [], parent, leaf, p);
      WantedEntry(es, homes, e, p);
    }
  }

  /** The element above token n is there once, at home. */
  lemma ParentThere(doc: Node, homes: Homes, es: seq<Entry>, e: Entry, n: nat)
    requires WellNamedEntry(e, homes) && 0 < n < |e.tokens| && Holds(doc, homes, es, e.tokens[..n])
    ensures var parent := e.tokens[n - 1];
      parent in homes && HasTag(doc, parent) && Count(doc, parent) == 1 && FirstPath(doc, [], parent) == e.tokens[..n]
  {
    hide At, Count, LeafTag, FirstPath, HasTag, InteriorPath, LeafValues;
    var above, parent := e.tokens[..n], e.tokens[n - 1];
    assert above[..n] == above && above[n - 1] == parent && homes[parent] == e.tokens[..n - 1 + 1];
    assert Wanted(es, above, above) == [Bare];
    AtHasTag(doc, [], above);
    CountPositive(doc, parent);
  }

  lemma WantedEntry(es: seq<Entry>, homes: Homes, e: Entry, p: Path)
    requires WellNamed(es, homes) && WellNamedEntry(e, homes)
    ensures var n := |e.tokens|;
      Wanted(es + [e], [], p) == Wanted(es, e.tokens[..n - 1], p)
        + (if p == LeafPath(e) then [LeafContent(e.tokens[n - 1], e.value, |es|)] else [])
  {
    hide LeafTag, LeafContent;
    var all, built := es + [e], e.tokens[..|e.tokens| - 1];
    assert all[..|es|] == es && all[|es|] == e;
    assert InteriorPath(all, p) <==> InteriorPath(es, p) || Leads(e.tokens, p) by {
      if InteriorPath(es, p) {
        var i: nat :| i < |es| && Leads(es[i].tokens, p);
        assert all[i] == es[i];
      }
    }
    assert Leads(e.tokens, p) <==> 0 < |p| <= |built| && built[..|p|] == p by {
      if 0 < |p| <= |built| { assert built[..|p|] == e.tokens[..|p|]; }
    }
    if p == LeafPath(e) {
      InteriorNotLeaf(es, homes, p);
      assert !Leads(e.tokens, p);
    }
  }

  lemma {:induction false} BuildHolds(es: seq<Entry>, homes: Homes) returns (doc: Node)
    requires WellNamed(es, homes)
    ensures Build(es) == Some(doc) && Holds(doc, homes, es, [])
  {
    hide Holds, Interior, CreateNode;
    if es == [] {
      doc := Node(ROOT, Bare, []);
      StartHolds(homes);
    } else {
      var n := |es| - 1;
      var front, e := es[..n], es[n];
      assert WellNamed(front, homes);
      var d := BuildHolds(front, homes);
      assert e.tokens[..0] == [];
      var inner := InteriorAll(d, homes, front, e, 0);
      doc := LeafStep(inner, homes, front, e);
      assert es == front + [e];
    }
  }

  lemma StartHolds(homes: Homes)
    requires ROOT in homes && homes[ROOT] == [ROOT]
    ensures Holds(Node(ROOT, Bare, []), homes, [], [])
  {
    var doc := Node(ROOT, Bare, []);
    forall p: Path
      ensures At(doc, [], p) == Wanted([], [], p)
    {
      assert [] + [ROOT] == [ROOT];
    }
  }

  /** Every entry is placed: interior paths hold one bare element, other paths their values in map order. */
  lemma EveryEntryIsPlaced(es: seq<Entry>, homes: Homes)
    requires WellNamed(es, homes)
    ensures Build(es).Some?
    ensures forall p: Path ::
      At(Build(es).value, [], p) == if p == ["RGW"] || InteriorPath(es, p) then [Bare] else LeafValues(es, p)
  {
    hide At, Build, WellNamed;
    var doc := BuildHolds(es, homes);
  }

  /** After the interior loop an element with the parent's name exists. */
  lemma {:induction false} InteriorHasParent(doc: Node, tokens: seq<string>, j: nat, d: Node)
    requires j + 1 < |tokens| && Interior(doc, tokens, j) == Some(d)
    ensures HasTag(d, tokens[|tokens| - 2])
    decreases |tokens| - j
  {
    hide HasTag, AppendFirst;
    var next := if HasTag(doc, tokens[j]) then doc else AppendFirst(doc, tokens[j - 1], Node(tokens[j], Bare, []));
    if !HasTag(doc, tokens[j]) {
      AppendSetsFirst(doc, [], tokens[j - 1], Node(tokens[j], Bare, []));
    }
    if j + 2 < |tokens| {
      InteriorHasParent(next, tokens, j + 1, d);
    }
  }

  /**
   For any document and key: the leaf lands at the key's own path exactly when the first element with its
   parent's name, once the interior elements are there, is the one on that path.
   */
  lemma EntryLandsIff(doc: Node, e: Entry, i: nat, d: Node)
    requires |e.tokens| >= 2 && Interior(doc, e.tokens, 0) == Some(d)
    ensures AddEntry(doc, e, i).Some? && HasTag(d, e.tokens[|e.tokens| - 2])
    ensures var n, p := |e.tokens|, LeafPath(e);
      (multiset(At(AddEntry(doc, e, i).value, [], p))
          == multiset(At(d, [], p)) + multiset{LeafContent(e.tokens[n - 1], e.value, i)})
      <==> FirstPath(d, [], e.tokens[n - 2]) == e.tokens[..n - 1]
  {
    hide At, HasTag, AppendFirst, LeafTag, LeafContent, FirstPath, Interior;
    var n := |e.tokens|;
    InteriorHasParent(doc, e.tokens, 0, d);
    LeafLandsIff(d, e.tokens[n - 2], Node(LeafTag(e.tokens[n - 1]), LeafContent(e.tokens[n - 1], e.value, i), []),
        e.tokens[..n - 1]);
  }

  /** The document of LeafNameCaptures, from its innermost element outwards. */
  function Captured(u: string, v: string): Node {
    Node(ROOT, Bare, [Node("b", Bare, [Node("a", Text(u), [Node("x", Text(v), [])])])])
  }

  lemma CapturedIsBuilt(u: string, v: string)
    ensures Build([Entry([ROOT, "b", "a"], Some(u)), Entry([ROOT, "a", "x"], Some(v))]) == Some(Captured(u, v))
  {
    hide AppendFirst, LeafTag, LeafContent, Build;
    var e1, e2 := Entry([ROOT, "b", "a"], Some(u)), Entry([ROOT, "a", "x"], Some(v));
    var a, x := Node("a", Text(u), []), Node("x", Text(v), []);
    var b0, b1 := Node("b", Bare, []), Node("b", Bare, [a]);
    var d0, d1, d2 := Node(ROOT, Bare, []), Node(ROOT, Bare, [b0]), Node(ROOT, Bare, [b1]);
    ShortNames(u, v);
    AppendHere(ROOT, Bare, b0);
    AppendHere("b", Bare, a);
    AppendHere("a", Text(u), x);
    OneChild(ROOT, Bare, b0, "b", a);
    OneChild("b", Bare, a, "a", x);
    OneChild(ROOT, Bare, b1, "a", x);
    assert Interior(d0, e1.tokens, 1) == Some(d1);
    assert AddEntry(d0, e1, 0) == Some(d2);
    assert Interior(d2, e2.tokens, 1) == Some(d2);
    assert AddEntry(d2, e2, 1) == Some(Captured(u, v));
    BuildTwo(e1, e2);
  }

  lemma AppendHere(tag: string, content: Content, leaf: Node)
    ensures AppendFirst(Node(tag, content, []), tag, leaf) == Node(tag, content, [leaf])
  {
    assert [] + [leaf] == [leaf];
  }

  lemma BuildTwo(e1: Entry, e2: Entry)
    requires AddEntry(Node(ROOT, Bare, []), e1, 0).Some?
    ensures Build([e1, e2]) == AddEntry(AddEntry(Node(ROOT, Bare, []), e1, 0).value, e2, 1)
  {
    hide AddEntry;
    assert [e1, e2][..1] == [e1] && [e1][..0] == [];
    assert Build([]) == Some(Node(ROOT, Bare, []));
    assert Build([e1]) == AddEntry(Node(ROOT, Bare, []), e1, 0);
  }

  /** A leaf that shares an interior name captures the later entry. */
  lemma LeafNameCaptures(u: string, v: string)
    ensures var es := [Entry([ROOT, "b", "a"], Some(u)), Entry([ROOT, "a", "x"], Some(v))];
      && Build(es).Some?
      && At(Build(es).value, [], [ROOT, "b", "a", "x"]) == [Text(v)]
      && At(Build(es).value, [], [ROOT, "a", "x"]) == []
  {
    hide Build, At;
    CapturedIsBuilt(u, v);
    var x := Node("x", Text(v), []);
    var a1 := Node("a", Text(u), [x]);
    assert [] + [ROOT] == [ROOT] && [ROOT] + ["b"] == [ROOT, "b"] && [ROOT, "b"] + ["a"] == [ROOT, "b", "a"];
    forall p: Path
      ensures At(Captured(u, v), [], p) == (if [ROOT] == p then [Bare] else [])
        + ((if [ROOT, "b"] == p then [Bare] else [])
        + ((if [ROOT, "b", "a"] == p then [Text(u)] else []) + (if [ROOT, "b", "a", "x"] == p then [Text(v)] else [])))
    {
      AtOneChild(ROOT, Bare, Node("b", Bare, [a1]), [], p);
      AtOneChild("b", Bare, a1, [ROOT], p);
      AtOneChild("a", Text(u), x, [ROOT, "b"], p);
      AtBody(x, [ROOT, "b", "a"], p);
      assert [ROOT, "b", "a"] + ["x"] == [ROOT, "b", "a", "x"];
    }
    assert [ROOT, "b", "a", "x"][1] != [ROOT, "a", "x"][1];
  }

  lemma OneChild(tag: string, content: Content, child: Node, t: string, leaf: Node)
    requires tag != t && HasTag(child, t)
    ensures HasTag(Node(tag, content, [child]), t)
    ensures AppendFirst(Node(tag, content, [child]), t, leaf) == Node(tag, content, [AppendFirst(child, t, leaf)])
  {
    assert [AppendFirst(child, t, leaf)] + [child][1..] == [AppendFirst(child, t, leaf)];
  }

  lemma AtOneChild(tag: string, content: Content, child: Node, above: Path, p: Path)
    ensures At(Node(tag, content, [child]), above, p)
         == (if above + [tag] == p then [content] else []) + At(child, above + [tag], p)
  {
    hide At;
    AtBody(Node(tag, content, [child]), above, p);
    assert AtAll([child], above + [tag], p) == At(child, above + [tag], p) + AtAll([child][1..], above + [tag], p);
  }

  lemma AtBody(n: Node, above: Path, p: Path)
    ensures At(n, above, p)
        == (if above + [n.tag] == p then [n.content] else []) + AtAll(n.children, above + [n.tag], p)
  {
  }

  lemma ShortNames(u: string, v: string)
    ensures LeafTag("a") == "a" && LeafTag("x") == "x"
    ensures forall i: nat :: LeafContent("a", Some(u), i) == Text(u) && LeafContent("x", Some(v), i) == Text(v)
  {
  }
}
