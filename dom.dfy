/**
  The parsed markup tree of one record's content, and the text leaves a
  walk over it collects.

  The walk in `collectTextNodes` (services/translateService.js and
  translate.js) tests `node.type === 'text' && node.data.trim()` first and
  only otherwise descends into `node.children`; the walk starts from
  `$.root().children()`, which yields the root's ELEMENT children only.
*/
module Dom {
  import opened Wrappers

  /** A node of the parsed tree. `Text(None)` is a text node whose `data`
      reinsertion has set to `undefined`; a freshly parsed tree holds
      `Some` everywhere. `Comment` stands for every childless non-text node. */
  datatype Node =
    | Text(data: Option<string>)
    | Comment(note: string)
    | Element(name: string, children: seq<Node>)

  /** The characters `String.prototype.trim` removes: ECMAScript WhiteSpace
      and LineTerminator code points. */
  predicate IsJsWhitespace(c: char) {
    || c == '\t' || c == '\n' || c == '\U{000B}' || c == '\U{000C}' || c == '\r'
    || c == ' ' || c == '\U{00A0}' || c == '\U{1680}'
    || ('\U{2000}' <= c <= '\U{200A}')
    || c == '\U{2028}' || c == '\U{2029}' || c == '\U{202F}' || c == '\U{205F}'
    || c == '\U{3000}' || c == '\U{FEFF}'
  }

  /** `s.trim()` is the empty string, i.e. falsy. */
  predicate IsBlank(s: string) {
    forall i | 0 <= i < |s| :: IsJsWhitespace(s[i])
  }

  /** The test `node.type === 'text' && node.data.trim()`. */
  predicate IsTextLeaf(n: Node) {
    n.Text? && n.data.Some? && !IsBlank(n.data.value)
  }

  /** The raw (untrimmed) data of the text leaves of `n`, in pre-order. */
  function NodeLeaves(n: Node): seq<string>
  {
    match n
    case Text(d) => if d.Some? && !IsBlank(d.value) then [d.value] else []
    case Comment(_) => []
    case Element(_, cs) => ForestLeaves(cs)
  }

  /** The text leaves of a sequence of sibling trees, in pre-order. */
  function ForestLeaves(ns: seq<Node>): seq<string>
  {
    if ns == [] then [] else NodeLeaves(ns[0]) + ForestLeaves(ns[1..])
  }

  /** The text leaves the walk over one document collects: only the element
      roots are visited (`$.root().children()`), each in pre-order. */
  function DocLeaves(roots: seq<Node>): seq<string>
  {
    if roots == [] then []
    else (if roots[0].Element? then NodeLeaves(roots[0]) else []) + DocLeaves(roots[1..])
  }

  /** `s` is the data of some text leaf inside `n` (an independent,
      order-free description of what the walk must find). */
  ghost predicate HasLeaf(n: Node, s: string) {
    match n
    case Text(d) => d == Some(s) && !IsBlank(s)
    case Comment(_) => false
    case Element(_, cs) => exists i | 0 <= i < |cs| :: HasLeaf(cs[i], s)
  }

  /** No element called `name` occurs anywhere in `n`. */
  predicate FreeOf(n: Node, name: string) {
    match n
    case Element(nm, cs) => nm != name && forall i | 0 <= i < |cs| :: FreeOf(cs[i], name)
    case _ => true
  }

  predicate AllFreeOf(ns: seq<Node>, name: string) {
    forall i | 0 <= i < |ns| :: FreeOf(ns[i], name)
  }

  lemma {:induction false} ForestLeavesAppend(a: seq<Node>, b: seq<Node>)
    ensures ForestLeaves(a + b) == ForestLeaves(a) + ForestLeaves(b)
    decreases |a|
  {
    if a == [] {
      assert a + b == b;
    } else {
      assert (a + b)[0] == a[0] && (a + b)[1..] == a[1..] + b;
      ForestLeavesAppend(a[1..], b);
      assert ForestLeaves(a + b) == NodeLeaves(a[0]) + ForestLeaves(a[1..] + b);
    }
  }

  lemma {:induction false} DocLeavesAppend(a: seq<Node>, b: seq<Node>)
    ensures DocLeaves(a + b) == DocLeaves(a) + DocLeaves(b)
    decreases |a|
  {
    if a == [] {
      assert a + b == b;
    } else {
      assert (a + b)[0] == a[0] && (a + b)[1..] == a[1..] + b;
      DocLeavesAppend(a[1..], b);
    }
  }

  /** Every string the walk collects is the data of a non-blank text leaf,
      and every non-blank text leaf's data is collected. */
  lemma {:induction false} NodeLeavesComplete(n: Node, s: string)
    ensures s in NodeLeaves(n) <==> HasLeaf(n, s)
    decreases n
  {
    match n
    case Text(_) =>
    case Comment(_) =>
    case Element(_, cs) =>
      ForestLeavesComplete(cs, s);
  }

  lemma {:induction false} ForestLeavesComplete(ns: seq<Node>, s: string)
    ensures s in ForestLeaves(ns) <==> exists i | 0 <= i < |ns| :: HasLeaf(ns[i], s)
    decreases ns
  {
    if ns != [] {
      NodeLeavesComplete(ns[0], s);
      ForestLeavesComplete(ns[1..], s);
      if exists i | 0 <= i < |ns| :: HasLeaf(ns[i], s) {
        var i :| 0 <= i < |ns| && HasLeaf(ns[i], s);
        if i > 0 {
          assert ns[1..][i - 1] == ns[i];
        }
      }
      if exists i | 0 <= i < |ns[1..]| :: HasLeaf(ns[1..][i], s) {
        var i :| 0 <= i < |ns[1..]| && HasLeaf(ns[1..][i], s);
        assert ns[i + 1] == ns[1..][i];
      }
    }
  }

  /** Whitespace-only text nodes are never collected. */
  lemma {:induction false} NodeLeavesNonBlank(n: Node)
    ensures forall k | 0 <= k < |NodeLeaves(n)| :: !IsBlank(NodeLeaves(n)[k])
    decreases n
  {
    if n.Element? {
      ForestLeavesNonBlank(n.children);
    }
  }

  lemma {:induction false} ForestLeavesNonBlank(ns: seq<Node>)
    ensures forall k | 0 <= k < |ForestLeaves(ns)| :: !IsBlank(ForestLeaves(ns)[k])
    decreases ns
  {
    if ns != [] {
      NodeLeavesNonBlank(ns[0]);
      ForestLeavesNonBlank(ns[1..]);
      var a, b := NodeLeaves(ns[0]), ForestLeaves(ns[1..]);
      assert ForestLeaves(ns) == a + b;
      forall k | 0 <= k < |a + b| ensures !IsBlank((a + b)[k]) {
        if k < |a| { assert (a + b)[k] == a[k]; } else { assert (a + b)[k] == b[k - |a|]; }
      }
    }
  }

  lemma {:induction false} DocLeavesNonBlank(roots: seq<Node>)
    ensures forall k | 0 <= k < |DocLeaves(roots)| :: !IsBlank(DocLeaves(roots)[k])
    decreases roots
  {
    if roots != [] {
      NodeLeavesNonBlank(roots[0]);
      DocLeavesNonBlank(roots[1..]);
      var a := if roots[0].Element? then NodeLeaves(roots[0]) else [];
      var b := DocLeaves(roots[1..]);
      assert DocLeaves(roots) == a + b;
      forall k | 0 <= k < |a + b| ensures !IsBlank((a + b)[k]) {
        if k < |a| { assert (a + b)[k] == a[k]; } else { assert (a + b)[k] == b[k - |a|]; }
      }
    }
  }
}
