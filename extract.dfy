/**
  `extractTextNodesFromContent`: for every record with truthy `content`, parse
  it, (in services/translateService.js only) strip `<style>` elements and
  unwrap `html`/`head`/`body`, then walk the element roots in pre-order,
  pushing every non-blank text leaf onto `allTextNodes` and a parallel
  `{itemIdx, nodeIdx}` onto `nodeRefs`, `nodeIdx` counting per record.
*/
module Extract {
  import opened Wrappers
  import opened Dom

  /** One record of the dataset: `{ title, content }`; `None` is a missing
      or null `content`. */
  datatype Record = Record(title: string, content: Option<string>)

  /** `item.content` is truthy: present and not the empty string. */
  predicate HasContent(r: Record) {
    r.content.Some? && r.content.value != ""
  }

  /** Which copy of the extractor runs: services/translateService.js strips
      styles, unwraps html/head/body and keeps `cheerioObjs`; translate.js
      has all of that commented out. */
  datatype Variant = Service(html: seq<Node> -> string) | Standalone

  /** `{ itemIdx, nodeIdx }`: the record a collected text came from and its
      position among that record's collected texts. */
  datatype NodeRef = NodeRef(itemIdx: nat, nodeIdx: nat)

  /** `cheerioObjs[itemIdx]`: the prepared tree and the text of its styles. */
  datatype Prepared = Prepared(roots: seq<Node>, style: string)

  /** `$('style').each(... remove())`: every style element leaves the tree,
      wherever it is. */
  function StripStyles(ns: seq<Node>): seq<Node>
  {
    if ns == [] then []
    else
      var head := match ns[0]
        case Element(nm, cs) => if nm == "style" then [] else [Element(nm, StripStyles(cs))]
        case _ => [ns[0]];
      head + StripStyles(ns[1..])
  }

  /** `styleContent += $(this).html()` for each style element, in document
      order; `html` is the serializer. */
  function StyleText(ns: seq<Node>, html: seq<Node> -> string): string {
    if ns == [] then ""
    else
      (match ns[0]
         case Element(nm, cs) => (if nm == "style" then html(cs) else "") + StyleText(cs, html)
         case _ => "")
      + StyleText(ns[1..], html)
  }

  /** `$(name).each(... replaceWith($(this).html()))`: every element called
      `name` that is not inside another one is replaced by its own children.
      The selection is made before the first replacement, and each
      replacement is a fresh copy of the children, so an element nested in
      one already replaced is replaced only inside the detached original
      and survives in the copy. */
  function Unwrap(ns: seq<Node>, name: string): seq<Node>
  {
    if ns == [] then []
    else
      var head := match ns[0]
        case Element(nm, cs) => if nm == name then cs else [Element(nm, Unwrap(cs, name))]
        case _ => [ns[0]];
      head + Unwrap(ns[1..], name)
  }

  /** Lines 69-88 of services/translateService.js: the tree the walk sees and
      the style text kept for the output. */
  function Prepare(roots: seq<Node>, html: seq<Node> -> string): Prepared
  {
    var noBody := Unwrap(Unwrap(Unwrap(StripStyles(roots), "html"), "head"), "body");
    Prepared(noBody, StyleText(roots, html))
  }

  /** The roots the walk starts from for one record, or `None` when its
      content is falsy and the record is skipped. */
  function Traversed(r: Record, variant: Variant, parse: string -> seq<Node>): Option<seq<Node>>
  {
    if !HasContent(r) then None
    else if variant.Service? then Some(ObjOf(r, parse, variant.html).value.roots)
    else Some(parse(r.content.value))
  }

  /** The texts one record contributes. */
  function ItemLeaves(d: Option<seq<Node>>): seq<string> {
    if d.None? then [] else DocLeaves(d.value)
  }

  /** The texts of each record of a dataset, record by record. */
  function Items(data: seq<Record>, variant: Variant, parse: string -> seq<Node>): (items: seq<seq<string>>)
    ensures |items| == |data|
  {
    if data == [] then [] else [ItemLeaves(Traversed(data[0], variant, parse))] + Items(data[1..], variant, parse)
  }

  /** Record `i` contributes nothing when its content is falsy; otherwise
      the texts of its prepared tree in services/translateService.js, and of
      the tree exactly as parsed in translate.js. */
  lemma {:induction false} ItemsAt(data: seq<Record>, variant: Variant, parse: string -> seq<Node>, i: nat)
    requires i < |data|
    ensures Items(data, variant, parse)[i] == ItemLeaves(Traversed(data[i], variant, parse))
    ensures !HasContent(data[i]) ==> Items(data, variant, parse)[i] == []
    ensures HasContent(data[i]) && variant.Service? ==>
      Items(data, variant, parse)[i] == DocLeaves(Prepare(parse(data[i].content.value), variant.html).roots)
    ensures HasContent(data[i]) && variant.Standalone? ==>
      Items(data, variant, parse)[i] == DocLeaves(parse(data[i].content.value))
  {
    if i > 0 {
      ItemsAt(data[1..], variant, parse, i - 1);
    }
  }

  /** `allTextNodes` after the first `n` records. */
  function TextsUpTo(items: seq<seq<string>>, n: nat): seq<string>
    requires n <= |items|
  {
    if n == 0 then [] else TextsUpTo(items, n - 1) + items[n - 1]
  }

  /** `nodeIdx` values `from`, `from + 1`, ... for `count` texts of one record. */
  function RefSpan(itemIdx: nat, from: nat, count: nat): (span: seq<NodeRef>)
    ensures |span| == count
    decreases count
  {
    if count == 0 then [] else [NodeRef(itemIdx, from)] + RefSpan(itemIdx, from + 1, count - 1)
  }

  /** `nodeRefs` after the first `n` records. */
  function RefsUpTo(items: seq<seq<string>>, n: nat): seq<NodeRef>
    requires n <= |items|
  {
    if n == 0 then [] else RefsUpTo(items, n - 1) + RefSpan(n - 1, 0, |items[n - 1]|)
  }

  function AllTexts(items: seq<seq<string>>): seq<string> {
    TextsUpTo(items, |items|)
  }

  function AllRefs(items: seq<seq<string>>): seq<NodeRef> {
    RefsUpTo(items, |items|)
  }

  /** Where record `i`'s texts start in `allTextNodes`. */
  function Offset(items: seq<seq<string>>, i: nat): nat
    requires i <= |items|
  {
    |TextsUpTo(items, i)|
  }

  /** `collectTextNodes(node)`: the recursive walk over one tree, pushing
      onto `allTextNodes` and `nodeRefs` and bumping `nodeIdx`. */
  method CollectTextNodes(node: Node, itemIdx: nat, nodeIdx: nat,
                          texts: seq<string>, refs: seq<NodeRef>)
    returns (nodeIdx': nat, texts': seq<string>, refs': seq<NodeRef>)
    ensures texts' == texts + NodeLeaves(node)
    ensures refs' == refs + RefSpan(itemIdx, nodeIdx, |NodeLeaves(node)|)
    ensures nodeIdx' == nodeIdx + |NodeLeaves(node)|
    decreases node
  {
    nodeIdx', texts', refs' := nodeIdx, texts, refs;
    if node.Text? && node.data.Some? && !IsBlank(node.data.value) {
      texts' := texts' + [node.data.value];
      refs' := refs' + [NodeRef(itemIdx, nodeIdx')];
      nodeIdx' := nodeIdx' + 1;
      assert RefSpan(itemIdx, nodeIdx, 1) == [NodeRef(itemIdx, nodeIdx)];
    } else if node.Element? && |node.children| > 0 {
      var children := node.children;
      var i := 0;
      while i < |children|
        invariant 0 <= i <= |children|
        invariant texts' == texts + ForestLeaves(children[..i])
        invariant nodeIdx' == nodeIdx + |ForestLeaves(children[..i])|
        invariant refs' == refs + RefSpan(itemIdx, nodeIdx, |ForestLeaves(children[..i])|)
      {
        ForestLeavesStep(children, i);
        RefSpanSplit(itemIdx, nodeIdx, |ForestLeaves(children[..i])|, |NodeLeaves(children[i])|);
        nodeIdx', texts', refs' := CollectTextNodes(children[i], itemIdx, nodeIdx', texts', refs');
        i := i + 1;
      }
      assert children[..i] == children;
    } else {
      assert NodeLeaves(node) == [];
    }
  }

  /** `for (let node of $.root().children()) collectTextNodes(node)`: the
      walk over one record's element roots, `nodeIdx` starting at 0. */
  method CollectDocument(roots: seq<Node>, itemIdx: nat, texts: seq<string>, refs: seq<NodeRef>)
    returns (texts': seq<string>, refs': seq<NodeRef>)
    ensures texts' == texts + DocLeaves(roots)
    ensures refs' == refs + RefSpan(itemIdx, 0, |DocLeaves(roots)|)
  {
    texts', refs' := texts, refs;
    var nodeIdx := 0;
    var j := 0;
    while j < |roots|
      invariant 0 <= j <= |roots|
      invariant texts' == texts + DocLeaves(roots[..j])
      invariant nodeIdx == |DocLeaves(roots[..j])|
      invariant refs' == refs + RefSpan(itemIdx, 0, nodeIdx)
    {
      ghost var before := nodeIdx;
      assert roots[..j + 1] == roots[..j] + [roots[j]];
      DocLeavesAppend(roots[..j], [roots[j]]);
      if roots[j].Element? {
        nodeIdx, texts', refs' := CollectTextNodes(roots[j], itemIdx, nodeIdx, texts', refs');
        RefSpanSplit(itemIdx, 0, before, |NodeLeaves(roots[j])|);
      }
      j := j + 1;
    }
    assert roots[..j] == roots;
  }

  /** The `data.forEach` callback of `extractTextNodesFromContent` for
      record `itemIdx`: parse, prepare (services/translateService.js only),
      walk. */
  method ExtractItem(data: seq<Record>, itemIdx: nat, variant: Variant, parse: string -> seq<Node>,
                     texts: seq<string>, refs: seq<NodeRef>)
    returns (texts': seq<string>, refs': seq<NodeRef>, obj: Option<Prepared>)
    requires itemIdx < |data|
    ensures texts' == texts + ItemLeaves(Traversed(data[itemIdx], variant, parse))
    ensures refs' == refs + RefSpan(itemIdx, 0, |ItemLeaves(Traversed(data[itemIdx], variant, parse))|)
    ensures obj == if variant.Service? then ObjOf(data[itemIdx], parse, variant.html) else None
  {
    var item := data[itemIdx];
    texts', refs', obj := texts, refs, None;
    if item.content.Some? && item.content.value != "" {
      var roots := parse(item.content.value);
      if variant.Service? {
        var prepared := Prepare(roots, variant.html);
        obj := Some(prepared);
        roots := prepared.roots;
      }
      texts', refs' := CollectDocument(roots, itemIdx, texts', refs');
    } else {
      assert RefSpan(itemIdx, 0, 0) == [];
    }
  }

  /** `extractTextNodesFromContent(data)` of services/translateService.js,
      `html` being the serializer. `cheerioObjs` is the sparse array indexed
      by record: `None` marks a hole. */
  method ExtractTextNodes(data: seq<Record>, parse: string -> seq<Node>, html: seq<Node> -> string)
    returns (allTextNodes: seq<string>, nodeRefs: seq<NodeRef>, cheerioObjs: seq<Option<Prepared>>)
    ensures allTextNodes == AllTexts(Items(data, Service(html), parse))
    ensures nodeRefs == AllRefs(Items(data, Service(html), parse))
    ensures cheerioObjs == ServiceObjs(data, parse, html)
  {
    ghost var items := Items(data, Service(html), parse);
    allTextNodes, nodeRefs, cheerioObjs := [], [], [];
    var itemIdx := 0;
    while itemIdx < |data|
      invariant 0 <= itemIdx <= |data|
      invariant allTextNodes == TextsUpTo(items, itemIdx)
      invariant nodeRefs == RefsUpTo(items, itemIdx)
      invariant cheerioObjs == ObjsUpTo(data, parse, html, itemIdx)
    {
      ItemsAt(data, Service(html), parse, itemIdx);
      var obj;
      allTextNodes, nodeRefs, obj := ExtractItem(data, itemIdx, Service(html), parse, allTextNodes, nodeRefs);
      cheerioObjs := cheerioObjs + [obj];
      itemIdx := itemIdx + 1;
    }
  }

  /** `extractTextNodesFromContent(data)` of translate.js: no preparation,
      and `cheerioObjs` stays empty. */
  method ExtractTextNodesStandalone(data: seq<Record>, parse: string -> seq<Node>)
    returns (allTextNodes: seq<string>, nodeRefs: seq<NodeRef>, cheerioObjs: seq<Option<Prepared>>)
    ensures allTextNodes == AllTexts(Items(data, Standalone, parse))
    ensures nodeRefs == AllRefs(Items(data, Standalone, parse))
    ensures cheerioObjs == []
  {
    ghost var items := Items(data, Standalone, parse);
    allTextNodes, nodeRefs, cheerioObjs := [], [], [];
    var itemIdx := 0;
    while itemIdx < |data|
      invariant 0 <= itemIdx <= |data|
      invariant allTextNodes == TextsUpTo(items, itemIdx)
      invariant nodeRefs == RefsUpTo(items, itemIdx)
    {
      ItemsAt(data, Standalone, parse, itemIdx);
      var unused;
      allTextNodes, nodeRefs, unused := ExtractItem(data, itemIdx, Standalone, parse, allTextNodes, nodeRefs);
      itemIdx := itemIdx + 1;
    }
  }

  /** `cheerioObjs[itemIdx]` in services/translateService.js: set for a
      record with truthy content, a hole otherwise. */
  function ObjOf(r: Record, parse: string -> seq<Node>, html: seq<Node> -> string): Option<Prepared> {
    if HasContent(r) then Some(Prepare(parse(r.content.value), html)) else None
  }

  /** `cheerioObjs` after the first `n` records. */
  function ObjsUpTo(data: seq<Record>, parse: string -> seq<Node>, html: seq<Node> -> string,
                    n: nat): seq<Option<Prepared>>
    requires n <= |data|
  {
    if n == 0 then [] else ObjsUpTo(data, parse, html, n - 1) + [ObjOf(data[n - 1], parse, html)]
  }

  function ServiceObjs(data: seq<Record>, parse: string -> seq<Node>,
                       html: seq<Node> -> string): seq<Option<Prepared>>
  {
    ObjsUpTo(data, parse, html, |data|)
  }

  /** Slot `i` of `cheerioObjs` belongs to record `i`: there is one slot per
      record, in record order. */
  lemma {:induction false} ObjsAt(data: seq<Record>, parse: string -> seq<Node>,
                                  html: seq<Node> -> string, n: nat)
    requires n <= |data|
    ensures |ObjsUpTo(data, parse, html, n)| == n
    ensures forall i | 0 <= i < n :: ObjsUpTo(data, parse, html, n)[i] == ObjOf(data[i], parse, html)
  {
    if n > 0 {
      ObjsAt(data, parse, html, n - 1);
    }
  }

  /** Walking one more child appends that child's leaves. */
  lemma ForestLeavesStep(ns: seq<Node>, i: nat)
    requires i < |ns|
    ensures ForestLeaves(ns[..i + 1]) == ForestLeaves(ns[..i]) + NodeLeaves(ns[i])
  {
    assert ns[..i + 1] == ns[..i] + [ns[i]];
    ForestLeavesAppend(ns[..i], [ns[i]]);
    assert ForestLeaves([ns[i]]) == NodeLeaves(ns[i]);
  }

  /** Ref `k` of a span counts `k` on from its start. */
  lemma {:induction false} RefSpanIndex(itemIdx: nat, from: nat, count: nat)
    ensures forall k | 0 <= k < count :: RefSpan(itemIdx, from, count)[k] == NodeRef(itemIdx, from + k)
    decreases count
  {
    if count > 0 {
      RefSpanIndex(itemIdx, from + 1, count - 1);
    }
  }

  /** Two adjacent spans of one record form one span. */
  lemma {:induction false} RefSpanSplit(itemIdx: nat, from: nat, n: nat, m: nat)
    ensures RefSpan(itemIdx, from, n) + RefSpan(itemIdx, from + n, m) == RefSpan(itemIdx, from, n + m)
    decreases n
  {
    if n > 0 {
      RefSpanSplit(itemIdx, from + 1, n - 1, m);
      assert RefSpan(itemIdx, from, n) == [NodeRef(itemIdx, from)] + RefSpan(itemIdx, from + 1, n - 1);
    }
  }

  lemma {:induction false} FreeOfConcat(a: seq<Node>, b: seq<Node>, name: string)
    requires AllFreeOf(a, name) && AllFreeOf(b, name)
    ensures AllFreeOf(a + b, name)
  {
    forall i | 0 <= i < |a + b| ensures FreeOf((a + b)[i], name) {
      if i < |a| { assert (a + b)[i] == a[i]; } else { assert (a + b)[i] == b[i - |a|]; }
    }
  }

  /** No style element survives stripping, at any depth. */
  lemma {:induction false} StripStylesFree(ns: seq<Node>)
    ensures AllFreeOf(StripStyles(ns), "style")
    decreases ns
  {
    if ns != [] {
      var head := match ns[0]
        case Element(nm, cs) => if nm == "style" then [] else [Element(nm, StripStyles(cs))]
        case _ => [ns[0]];
      StripStylesFree(ns[1..]);
      match ns[0] {
        case Element(nm, cs) =>
          StripStylesFree(cs);
          if nm != "style" {
            assert FreeOf(Element(nm, StripStyles(cs)), "style");
          }
        case _ =>
      }
      FreeOfConcat(head, StripStyles(ns[1..]), "style");
    }
  }

  /** No element called `name` sits inside another element called `name`. */
  predicate NotNested(n: Node, name: string) {
    match n
    case Element(nm, cs) =>
      if nm == name then AllFreeOf(cs, name) else forall i | 0 <= i < |cs| :: NotNested(cs[i], name)
    case _ => true
  }

  predicate AllNotNested(ns: seq<Node>, name: string) {
    forall i | 0 <= i < |ns| :: NotNested(ns[i], name)
  }

  lemma AllNotNestedTail(ns: seq<Node>, name: string)
    requires ns != [] && AllNotNested(ns, name)
    ensures NotNested(ns[0], name) && AllNotNested(ns[1..], name)
  {
    forall i | 0 <= i < |ns[1..]| ensures NotNested(ns[1..][i], name) {
      assert ns[1..][i] == ns[i + 1];
    }
  }

  lemma NotNestedConcat(a: seq<Node>, b: seq<Node>, name: string)
    requires AllNotNested(a, name) && AllNotNested(b, name)
    ensures AllNotNested(a + b, name)
  {
    forall i | 0 <= i < |a + b| ensures NotNested((a + b)[i], name) {
      if i >= |a| { assert (a + b)[i] == b[i - |a|]; }
    }
  }

  /** Where no element called `name` is nested in another, none survives
      unwrapping `name`, at any depth. */
  lemma {:induction false} UnwrapFree(ns: seq<Node>, name: string)
    requires AllNotNested(ns, name)
    ensures AllFreeOf(Unwrap(ns, name), name)
    decreases ns
  {
    if ns != [] {
      var head := match ns[0]
        case Element(nm, cs) => if nm == name then cs else [Element(nm, Unwrap(cs, name))]
        case _ => [ns[0]];
      AllNotNestedTail(ns, name);
      UnwrapFree(ns[1..], name);
      match ns[0] {
        case Element(nm, cs) =>
          if nm != name {
            UnwrapFree(cs, name);
            assert FreeOf(Element(nm, Unwrap(cs, name)), name);
          }
        case _ =>
      }
      FreeOfConcat(head, Unwrap(ns[1..], name), name);
    }
  }

  /** An element called `name` nested in another one is kept: unwrapping
      `<body><body>t</body></body>` leaves `<body>t</body>`, whose text the
      walk collects. */
  lemma NestedWrapperKept(t: string, html: seq<Node> -> string)
    requires !IsBlank(t)
    ensures var inner := Element("body", [Text(Some(t))]);
      && Prepare([Element("body", [inner])], html).roots == [inner]
      && DocLeaves([inner]) == [t]
  {
    var leaf := [Text(Some(t))];
    var inner := Element("body", leaf);
    var roots := [Element("body", [inner])];
    assert StripStyles(leaf) == leaf by { assert leaf[1..] == []; }
    assert StripStyles([inner]) == [inner] by { assert [inner][1..] == []; }
    assert StripStyles(roots) == roots by { assert roots[1..] == []; }
    assert "body" != "html" by { assert "body"[1] != "html"[1]; }
    assert "body" != "head" by { assert "body"[1] != "head"[1]; }
    UnwrapText(t, "html");
    UnwrapText(t, "head");
    assert Unwrap([inner], "html") == [inner] by { assert [inner][1..] == []; }
    assert Unwrap([inner], "head") == [inner] by { assert [inner][1..] == []; }
    assert Unwrap(roots, "html") == roots by { assert roots[1..] == []; }
    assert Unwrap(roots, "head") == roots by { assert roots[1..] == []; }
    assert Unwrap(roots, "body") == [inner] by { assert roots[1..] == []; }
    assert ForestLeaves(leaf) == [t] by { assert leaf[1..] == []; }
    assert DocLeaves([inner]) == [t] by { assert [inner][1..] == []; }
  }

  lemma UnwrapText(t: string, name: string)
    ensures Unwrap([Text(Some(t))], name) == [Text(Some(t))]
  {
    assert [Text(Some(t))][1..] == [];
  }

  /** Removing styles keeps a tree free of any name it was free of. */
  lemma {:induction false} StripKeepsFree(ns: seq<Node>, name: string)
    requires AllFreeOf(ns, name)
    ensures AllFreeOf(StripStyles(ns), name)
    decreases ns
  {
    if ns != [] {
      assert FreeOf(ns[0], name);
      assert AllFreeOf(ns[1..], name) by {
        forall i | 0 <= i < |ns[1..]| ensures FreeOf(ns[1..][i], name) {
          assert ns[1..][i] == ns[i + 1];
        }
      }
      StripKeepsFree(ns[1..], name);
      var head := match ns[0]
        case Element(nm, cs) => if nm == "style" then [] else [Element(nm, StripStyles(cs))]
        case _ => [ns[0]];
      match ns[0] {
        case Element(nm, cs) =>
          if nm != "style" {
            StripKeepsFree(cs, name);
            assert FreeOf(Element(nm, StripStyles(cs)), name);
          }
        case _ =>
      }
      FreeOfConcat(head, StripStyles(ns[1..]), name);
    }
  }

  /** Removing styles nests no element in another of its name. */
  lemma {:induction false} StripKeepsNotNested(ns: seq<Node>, name: string)
    requires AllNotNested(ns, name)
    ensures AllNotNested(StripStyles(ns), name)
    decreases ns
  {
    if ns != [] {
      AllNotNestedTail(ns, name);
      StripKeepsNotNested(ns[1..], name);
      var head := match ns[0]
        case Element(nm, cs) => if nm == "style" then [] else [Element(nm, StripStyles(cs))]
        case _ => [ns[0]];
      match ns[0] {
        case Element(nm, cs) =>
          if nm != "style" {
            if nm == name {
              StripKeepsFree(cs, name);
            } else {
              StripKeepsNotNested(cs, name);
            }
            assert NotNested(Element(nm, StripStyles(cs)), name);
          }
        case _ =>
      }
      NotNestedConcat(head, StripStyles(ns[1..]), name);
    }
  }

  /** Unwrapping one name nests no element of another name in another of
      its name. */
  lemma {:induction false} UnwrapKeepsNotNested(ns: seq<Node>, name: string, other: string)
    requires name != other && AllNotNested(ns, other)
    ensures AllNotNested(Unwrap(ns, name), other)
    decreases ns
  {
    if ns != [] {
      AllNotNestedTail(ns, other);
      UnwrapKeepsNotNested(ns[1..], name, other);
      var head := match ns[0]
        case Element(nm, cs) => if nm == name then cs else [Element(nm, Unwrap(cs, name))]
        case _ => [ns[0]];
      match ns[0] {
        case Element(nm, cs) =>
          if nm != name {
            if nm == other {
              UnwrapKeepsFree(cs, name, other);
            } else {
              UnwrapKeepsNotNested(cs, name, other);
            }
            assert NotNested(Element(nm, Unwrap(cs, name)), other);
          }
        case _ =>
      }
      NotNestedConcat(head, Unwrap(ns[1..], name), other);
    }
  }

  /** What lines 69-83 of services/translateService.js achieve: no style
      element is left; no html, head or body element is left unless it sat
      inside another of its name; the tree's text leaves, top-level text
      included, are those of the tree with only its styles removed; and a
      tree without styles keeps no style text. */
  lemma PrepareSound(roots: seq<Node>, html: seq<Node> -> string)
    ensures var p := Prepare(roots, html);
      && AllFreeOf(p.roots, "style")
      && (AllNotNested(roots, "html") ==> AllFreeOf(p.roots, "html"))
      && (AllNotNested(roots, "head") ==> AllFreeOf(p.roots, "head"))
      && (AllNotNested(roots, "body") ==> AllFreeOf(p.roots, "body"))
      && ForestLeaves(p.roots) == ForestLeaves(StripStyles(roots))
      && (AllFreeOf(roots, "style") ==> p.style == "")
  {
    var stripped := StripStyles(roots);
    var noHtml := Unwrap(stripped, "html");
    var noHead := Unwrap(noHtml, "head");
    StripStylesFree(roots);
    if AllNotNested(roots, "html") {
      StripKeepsNotNested(roots, "html");
      UnwrapFree(stripped, "html");
      UnwrapKeepsFree(noHtml, "head", "html");
      UnwrapKeepsFree(noHead, "body", "html");
    }
    if AllNotNested(roots, "head") {
      StripKeepsNotNested(roots, "head");
      UnwrapKeepsNotNested(stripped, "html", "head");
      UnwrapFree(noHtml, "head");
      UnwrapKeepsFree(noHead, "body", "head");
    }
    if AllNotNested(roots, "body") {
      StripKeepsNotNested(roots, "body");
      UnwrapKeepsNotNested(stripped, "html", "body");
      UnwrapKeepsNotNested(noHtml, "head", "body");
      UnwrapFree(noHead, "body");
    }
    UnwrapKeepsFree(stripped, "html", "style");
    UnwrapKeepsFree(noHtml, "head", "style");
    UnwrapKeepsFree(noHead, "body", "style");
    UnwrapKeepsLeaves(stripped, "html");
    UnwrapKeepsLeaves(noHtml, "head");
    UnwrapKeepsLeaves(noHead, "body");
    StyleTextWithoutStyles(roots, html);
  }

  /** Unwrapping one tag name introduces no element of any other name. */
  lemma {:induction false} UnwrapKeepsFree(ns: seq<Node>, name: string, other: string)
    requires AllFreeOf(ns, other)
    ensures AllFreeOf(Unwrap(ns, name), other)
    decreases ns
  {
    if ns != [] {
      assert FreeOf(ns[0], other);
      assert AllFreeOf(ns[1..], other) by {
        forall i | 0 <= i < |ns[1..]| ensures FreeOf(ns[1..][i], other) {
          assert ns[1..][i] == ns[i + 1];
        }
      }
      UnwrapKeepsFree(ns[1..], name, other);
      var head := match ns[0]
        case Element(nm, cs) => if nm == name then cs else [Element(nm, Unwrap(cs, name))]
        case _ => [ns[0]];
      match ns[0] {
        case Element(nm, cs) =>
          UnwrapKeepsFree(cs, name, other);
          if nm != name {
            assert FreeOf(Element(nm, Unwrap(cs, name)), other);
          }
        case _ =>
      }
      FreeOfConcat(head, Unwrap(ns[1..], name), other);
    }
  }

  /** Unwrapping moves children up without reordering or losing text leaves. */
  lemma {:induction false} UnwrapKeepsLeaves(ns: seq<Node>, name: string)
    ensures ForestLeaves(Unwrap(ns, name)) == ForestLeaves(ns)
    decreases ns
  {
    if ns != [] {
      var head := match ns[0]
        case Element(nm, cs) => if nm == name then cs else [Element(nm, Unwrap(cs, name))]
        case _ => [ns[0]];
      UnwrapKeepsLeaves(ns[1..], name);
      ForestLeavesAppend(head, Unwrap(ns[1..], name));
      match ns[0]
      case Element(nm, cs) =>
        UnwrapKeepsLeaves(cs, name);
        if nm != name {
          assert ForestLeaves([Element(nm, Unwrap(cs, name))]) == NodeLeaves(Element(nm, Unwrap(cs, name)));
        }
      case _ =>
        assert ForestLeaves([ns[0]]) == NodeLeaves(ns[0]);
    }
  }

  /** With no style element in the tree, stripping changes nothing. */
  lemma {:induction false} StripStylesWithoutStyles(ns: seq<Node>)
    requires AllFreeOf(ns, "style")
    ensures StripStyles(ns) == ns
    decreases ns
  {
    if ns != [] {
      assert FreeOf(ns[0], "style");
      assert AllFreeOf(ns[1..], "style") by {
        forall i | 0 <= i < |ns[1..]| ensures FreeOf(ns[1..][i], "style") {
          assert ns[1..][i] == ns[i + 1];
        }
      }
      StripStylesWithoutStyles(ns[1..]);
      match ns[0] {
        case Element(nm, cs) =>
          StripStylesWithoutStyles(cs);
        case _ =>
      }
      assert ns == [ns[0]] + ns[1..];
    }
  }

  /** With no element called `name` in the tree, unwrapping `name` changes
      nothing. */
  lemma {:induction false} UnwrapWithoutName(ns: seq<Node>, name: string)
    requires AllFreeOf(ns, name)
    ensures Unwrap(ns, name) == ns
    decreases ns
  {
    if ns != [] {
      assert FreeOf(ns[0], name);
      assert AllFreeOf(ns[1..], name) by {
        forall i | 0 <= i < |ns[1..]| ensures FreeOf(ns[1..][i], name) {
          assert ns[1..][i] == ns[i + 1];
        }
      }
      UnwrapWithoutName(ns[1..], name);
      match ns[0] {
        case Element(nm, cs) =>
          UnwrapWithoutName(cs, name);
        case _ =>
      }
      assert ns == [ns[0]] + ns[1..];
    }
  }

  /** Content with no style, html, head or body element is walked exactly as
      parsed, and keeps no style text. */
  lemma PrepareWithoutWrappers(roots: seq<Node>, html: seq<Node> -> string)
    requires AllFreeOf(roots, "style") && AllFreeOf(roots, "html")
    requires AllFreeOf(roots, "head") && AllFreeOf(roots, "body")
    ensures Prepare(roots, html) == Prepared(roots, "")
  {
    StripStylesWithoutStyles(roots);
    UnwrapWithoutName(roots, "html");
    UnwrapWithoutName(roots, "head");
    UnwrapWithoutName(roots, "body");
    StyleTextWithoutStyles(roots, html);
  }

  /** Text sitting directly inside `<body>` (or `<html>`, `<head>`) ends up
      at the top level once the wrapper is unwrapped, where the walk over
      `$.root().children()` never reaches it: it is not collected, so it is
      never translated, although the style-stripped tree holds it. */
  lemma BodyTextHidden(t: string, html: seq<Node> -> string)
    requires !IsBlank(t)
    ensures var roots := [Element("body", [Text(Some(t))])];
      && ForestLeaves(StripStyles(roots)) == [t]
      && Prepare(roots, html).roots == [Text(Some(t))]
      && DocLeaves(Prepare(roots, html).roots) == []
  {
    var leaf := [Text(Some(t))];
    var roots := [Element("body", leaf)];
    assert StripStyles(leaf) == leaf by {
      assert leaf[1..] == [];
    }
    assert StripStyles(roots) == roots by {
      assert roots[1..] == [];
    }
    assert ForestLeaves(roots) == [t] by {
      assert ForestLeaves(leaf) == [t] by { assert leaf[1..] == []; }
      assert roots[1..] == [];
    }
    assert Unwrap(roots, "html") == roots by {
      assert Unwrap(leaf, "html") == leaf by { assert leaf[1..] == []; }
      assert roots[1..] == [];
    }
    assert Unwrap(roots, "head") == roots by {
      assert Unwrap(leaf, "head") == leaf by { assert leaf[1..] == []; }
      assert roots[1..] == [];
    }
    assert Unwrap(roots, "body") == leaf by {
      assert Unwrap(leaf, "body") == leaf by { assert leaf[1..] == []; }
      assert roots[1..] == [];
    }
    assert DocLeaves(leaf) == [] by { assert leaf[1..] == []; }
  }

  lemma {:induction false} StyleTextWithoutStyles(ns: seq<Node>, html: seq<Node> -> string)
    ensures AllFreeOf(ns, "style") ==> StyleText(ns, html) == ""
    decreases ns
  {
    if ns != [] && AllFreeOf(ns, "style") {
      assert FreeOf(ns[0], "style");
      assert AllFreeOf(ns[1..], "style") by {
        forall i | 0 <= i < |ns[1..]| ensures FreeOf(ns[1..][i], "style") {
          assert ns[1..][i] == ns[i + 1];
        }
      }
      StyleTextWithoutStyles(ns[1..], html);
      match ns[0]
      case Element(nm, cs) =>
        StyleTextWithoutStyles(cs, html);
      case _ =>
    }
  }

  /** `allTextNodes` and `nodeRefs` grow in lockstep, and ref `j` names the
      record and the position within it of text `j`. */
  lemma {:induction false} RefsDescribeTexts(items: seq<seq<string>>, n: nat)
    requires n <= |items|
    ensures |RefsUpTo(items, n)| == |TextsUpTo(items, n)|
    ensures forall j | 0 <= j < |RefsUpTo(items, n)| ::
      RefsUpTo(items, n)[j].itemIdx < n &&
      RefsUpTo(items, n)[j].nodeIdx < |items[RefsUpTo(items, n)[j].itemIdx]| &&
      TextsUpTo(items, n)[j] == items[RefsUpTo(items, n)[j].itemIdx][RefsUpTo(items, n)[j].nodeIdx]
  {
    if n > 0 {
      RefsDescribeTexts(items, n - 1);
      var prevRefs, prevTexts := RefsUpTo(items, n - 1), TextsUpTo(items, n - 1);
      var refs, texts := RefsUpTo(items, n), TextsUpTo(items, n);
      assert refs == prevRefs + RefSpan(n - 1, 0, |items[n - 1]|);
      RefSpanIndex(n - 1, 0, |items[n - 1]|);
      assert texts == prevTexts + items[n - 1];
      forall j | 0 <= j < |refs|
        ensures refs[j].itemIdx < n && refs[j].nodeIdx < |items[refs[j].itemIdx]|
        ensures texts[j] == items[refs[j].itemIdx][refs[j].nodeIdx]
      {
        if j < |prevRefs| {
          assert refs[j] == prevRefs[j] && texts[j] == prevTexts[j];
        } else {
          var k := j - |prevRefs|;
          assert refs[j] == NodeRef(n - 1, k);
          assert texts[j] == items[n - 1][k];
        }
      }
    }
  }

  /** `itemIdx` never decreases along `nodeRefs`. */
  lemma {:induction false} RefsOrdered(items: seq<seq<string>>, n: nat)
    requires n <= |items|
    ensures forall a, b | 0 <= a < b < |RefsUpTo(items, n)| ::
      RefsUpTo(items, n)[a].itemIdx <= RefsUpTo(items, n)[b].itemIdx
  {
    if n > 0 {
      RefsOrdered(items, n - 1);
      RefsBelow(items, n - 1);
      var prev := RefsUpTo(items, n - 1);
      var span := RefSpan(n - 1, 0, |items[n - 1]|);
      RefSpanIndex(n - 1, 0, |items[n - 1]|);
      var refs := RefsUpTo(items, n);
      assert refs == prev + span;
      forall a, b | 0 <= a < b < |refs| ensures refs[a].itemIdx <= refs[b].itemIdx {
        if b >= |prev| {
          assert refs[b] == span[b - |prev|];
          if a < |prev| { assert refs[a] == prev[a]; } else { assert refs[a] == span[a - |prev|]; }
        } else {
          assert refs[a] == prev[a] && refs[b] == prev[b];
        }
      }
    }
  }

  /** `nodeIdx` restarts at 0 with each record and counts up by one within it. */
  lemma {:induction false} RefsNumbered(items: seq<seq<string>>, n: nat)
    requires n <= |items|
    ensures forall j | 0 <= j < |RefsUpTo(items, n)| ::
      RefsUpTo(items, n)[j].nodeIdx ==
        if j == 0 || RefsUpTo(items, n)[j - 1].itemIdx != RefsUpTo(items, n)[j].itemIdx then 0
        else RefsUpTo(items, n)[j - 1].nodeIdx + 1
  {
    if n > 0 {
      RefsNumbered(items, n - 1);
      RefsBelow(items, n - 1);
      var prev := RefsUpTo(items, n - 1);
      var span := RefSpan(n - 1, 0, |items[n - 1]|);
      RefSpanIndex(n - 1, 0, |items[n - 1]|);
      var refs := RefsUpTo(items, n);
      assert refs == prev + span;
      forall j | 0 <= j < |refs|
        ensures refs[j].nodeIdx ==
          if j == 0 || refs[j - 1].itemIdx != refs[j].itemIdx then 0 else refs[j - 1].nodeIdx + 1
      {
        if j < |prev| {
          assert refs[j] == prev[j];
          if j > 0 { assert refs[j - 1] == prev[j - 1]; }
        } else if j > |prev| {
          assert refs[j] == span[j - |prev|] == NodeRef(n - 1, j - |prev|);
          assert refs[j - 1] == span[j - 1 - |prev|] == NodeRef(n - 1, j - 1 - |prev|);
        } else {
          assert refs[j] == NodeRef(n - 1, 0);
          if j > 0 {
            assert refs[j - 1] == prev[j - 1];
            assert prev[j - 1].itemIdx < n - 1;
          }
        }
      }
    }
  }


  /** The refs after `n` records all name one of those records. */
  lemma {:induction false} RefsBelow(items: seq<seq<string>>, n: nat)
    requires n <= |items|
    ensures forall j | 0 <= j < |RefsUpTo(items, n)| :: RefsUpTo(items, n)[j].itemIdx < n
  {
    if n > 0 {
      RefsBelow(items, n - 1);
      var prev := RefsUpTo(items, n - 1);
      var refs := RefsUpTo(items, n);
      assert refs == prev + RefSpan(n - 1, 0, |items[n - 1]|);
      RefSpanIndex(n - 1, 0, |items[n - 1]|);
      forall j | 0 <= j < |refs| ensures refs[j].itemIdx < n {
        if j < |prev| { assert refs[j] == prev[j]; }
      }
    }
  }

  lemma {:induction false} RefsLength(items: seq<seq<string>>, n: nat)
    requires n <= |items|
    ensures |RefsUpTo(items, n)| == |TextsUpTo(items, n)|
  {
    if n > 0 {
      RefsLength(items, n - 1);
    }
  }

  /** Text `k` of record `i` sits at `Offset(items, i) + k` of the flat list,
      and its ref says so. */
  lemma {:induction false} RefsLocate(items: seq<seq<string>>, i: nat, k: nat, n: nat)
    requires i < n <= |items| && k < |items[i]|
    ensures Offset(items, i) + k < |TextsUpTo(items, n)| == |RefsUpTo(items, n)|
    ensures RefsUpTo(items, n)[Offset(items, i) + k] == NodeRef(i, k)
    ensures TextsUpTo(items, n)[Offset(items, i) + k] == items[i][k]
  {
    RefsLength(items, n);
    RefsLength(items, n - 1);
    var j := Offset(items, i) + k;
    assert TextsUpTo(items, n) == TextsUpTo(items, n - 1) + items[n - 1];
    assert RefsUpTo(items, n) == RefsUpTo(items, n - 1) + RefSpan(n - 1, 0, |items[n - 1]|);
    if n - 1 == i {
      RefSpanIndex(i, 0, |items[i]|);
      assert RefsUpTo(items, n)[j] == RefSpan(i, 0, |items[i]|)[k];
    } else {
      RefsLocate(items, i, k, n - 1);
      assert RefsUpTo(items, n)[j] == RefsUpTo(items, n - 1)[j];
      assert TextsUpTo(items, n)[j] == TextsUpTo(items, n - 1)[j];
    }
  }
}
