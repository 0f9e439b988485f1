/**
  `replaceTextNodes`: the second walk over a record's prepared tree, which
  writes entry `k` of the record's `nodeIdxMap` list into its `k`-th
  non-blank text leaf (lines 146-161 of services/translateService.js, 321-335
  of the same file, 132-149 of translate.js).
*/
module Reinsert {
  import opened Wrappers
  import opened Dom
  import opened Regroup

  /** `n` after the walk, when `k` leaves of the record were met before it:
      a non-blank leaf takes `group[k].text` if that entry exists (even an
      `undefined` one) and keeps its data otherwise; nothing else changes. */
  function FillNode(n: Node, group: seq<Entry>, k: nat): Node
    decreases n
  {
    match n
    case Text(d) => if d.Some? && !IsBlank(d.value) && k < |group| then Text(group[k].text) else n
    case Comment(_) => n
    case Element(nm, cs) => Element(nm, FillForest(cs, group, k))
  }

  /** Sibling trees after the walk: each starts counting where the previous
      one's leaves end. */
  function FillForest(ns: seq<Node>, group: seq<Entry>, k: nat): (r: seq<Node>)
    ensures |r| == |ns|
    decreases ns
  {
    if ns == [] then []
    else [FillNode(ns[0], group, k)] + FillForest(ns[1..], group, k + |NodeLeaves(ns[0])|)
  }

  /** The record's roots after `for (node of $.root().children())`: only the
      element roots are walked, the rest are left as they are. */
  function FillDoc(roots: seq<Node>, group: seq<Entry>, k: nat): (r: seq<Node>)
    ensures |r| == |roots|
    decreases |roots|
  {
    if roots == [] then []
    else if roots[0].Element? then
      [FillNode(roots[0], group, k)] + FillDoc(roots[1..], group, k + |NodeLeaves(roots[0])|)
    else
      [roots[0]] + FillDoc(roots[1..], group, k)
  }

  /** `replaceTextNodes(node)`, bumping `textNodeIdx` for every non-blank
      leaf whether or not an entry was there to write. */
  method ReplaceTextNodes(node: Node, group: seq<Entry>, textNodeIdx: nat)
    returns (node': Node, textNodeIdx': nat)
    ensures node' == FillNode(node, group, textNodeIdx)
    ensures textNodeIdx' == textNodeIdx + |NodeLeaves(node)|
    decreases node
  {
    node', textNodeIdx' := node, textNodeIdx;
    if node.Text? && node.data.Some? && !IsBlank(node.data.value) {
      if textNodeIdx < |group| {
        node' := Text(group[textNodeIdx].text);
      }
      textNodeIdx' := textNodeIdx + 1;
    } else if node.Element? && |node.children| > 0 {
      var children := node.children;
      var filled: seq<Node> := [];
      var i := 0;
      while i < |children|
        invariant 0 <= i <= |children|
        invariant filled == FillForest(children[..i], group, textNodeIdx)
        invariant textNodeIdx' == textNodeIdx + |ForestLeaves(children[..i])|
      {
        FillForestStep(children, i, group, textNodeIdx);
        var child;
        child, textNodeIdx' := ReplaceTextNodes(children[i], group, textNodeIdx');
        filled := filled + [child];
        i := i + 1;
      }
      assert children[..i] == children;
      node' := Element(node.name, filled);
    }
  }

  /** The reinsertion for one record: walk each element root in turn, with
      `textNodeIdx` starting at 0. */
  method ReplaceDocument(roots: seq<Node>, group: seq<Entry>) returns (roots': seq<Node>)
    ensures roots' == FillDoc(roots, group, 0)
  {
    roots' := [];
    var textNodeIdx := 0;
    var j := 0;
    while j < |roots|
      invariant 0 <= j <= |roots|
      invariant roots' == FillDoc(roots[..j], group, 0)
      invariant textNodeIdx == |DocLeaves(roots[..j])|
    {
      FillDocStep(roots, j, group);
      if roots[j].Element? {
        var root;
        root, textNodeIdx := ReplaceTextNodes(roots[j], group, textNodeIdx);
        roots' := roots' + [root];
      } else {
        roots' := roots' + [roots[j]];
      }
      j := j + 1;
    }
    assert roots[..j] == roots;
  }

  lemma {:induction false} FillForestAppend(a: seq<Node>, b: seq<Node>, group: seq<Entry>, k: nat)
    ensures FillForest(a + b, group, k) == FillForest(a, group, k) + FillForest(b, group, k + |ForestLeaves(a)|)
    decreases |a|
  {
    if a == [] {
      assert a + b == b;
    } else {
      assert (a + b)[0] == a[0] && (a + b)[1..] == a[1..] + b;
      FillForestAppend(a[1..], b, group, k + |NodeLeaves(a[0])|);
    }
  }

  /** Walking one more child appends that child, filled from where the
      earlier children stopped counting. */
  lemma FillForestStep(ns: seq<Node>, i: nat, group: seq<Entry>, k: nat)
    requires i < |ns|
    ensures FillForest(ns[..i + 1], group, k) ==
      FillForest(ns[..i], group, k) + [FillNode(ns[i], group, k + |ForestLeaves(ns[..i])|)]
    ensures ForestLeaves(ns[..i + 1]) == ForestLeaves(ns[..i]) + NodeLeaves(ns[i])
  {
    assert ns[..i + 1] == ns[..i] + [ns[i]];
    FillForestAppend(ns[..i], [ns[i]], group, k);
    ForestLeavesAppend(ns[..i], [ns[i]]);
    assert ForestLeaves([ns[i]]) == NodeLeaves(ns[i]);
  }

  lemma {:induction false} FillDocAppend(a: seq<Node>, b: seq<Node>, group: seq<Entry>, k: nat)
    ensures FillDoc(a + b, group, k) == FillDoc(a, group, k) + FillDoc(b, group, k + |DocLeaves(a)|)
    decreases |a|
  {
    if a == [] {
      assert a + b == b;
    } else {
      assert (a + b)[0] == a[0] && (a + b)[1..] == a[1..] + b;
      FillDocAppend(a[1..], b, group, k + if a[0].Element? then |NodeLeaves(a[0])| else 0);
    }
  }

  lemma FillDocStep(roots: seq<Node>, j: nat, group: seq<Entry>)
    requires j < |roots|
    ensures FillDoc(roots[..j + 1], group, 0) ==
      FillDoc(roots[..j], group, 0) +
      [if roots[j].Element? then FillNode(roots[j], group, |DocLeaves(roots[..j])|) else roots[j]]
    ensures DocLeaves(roots[..j + 1]) ==
      DocLeaves(roots[..j]) + (if roots[j].Element? then NodeLeaves(roots[j]) else [])
  {
    assert roots[..j + 1] == roots[..j] + [roots[j]];
    FillDocAppend(roots[..j], [roots[j]], group, 0);
    DocLeavesAppend(roots[..j], [roots[j]]);
  }

  /** `b` is `a` with possibly new data in its non-blank text leaves: the
      tree's shape, element names, comments and blank text are untouched. */
  predicate Refilled(a: Node, b: Node)
    decreases a
  {
    match a
    case Text(d) => if IsTextLeaf(a) then b.Text? else b == a
    case Comment(_) => b == a
    case Element(nm, cs) =>
      b.Element? && b.name == nm && |b.children| == |cs| &&
      forall i | 0 <= i < |cs| :: Refilled(cs[i], b.children[i])
  }

  /** The reinsertion changes only non-blank text leaves. */
  lemma {:induction false} FillNodeRefilled(n: Node, group: seq<Entry>, k: nat)
    ensures Refilled(n, FillNode(n, group, k))
    decreases n
  {
    match n {
      case Text(_) =>
      case Comment(_) =>
      case Element(nm, cs) =>
        FillForestRefilled(cs, group, k);
    }
  }

  lemma {:induction false} FillForestRefilled(ns: seq<Node>, group: seq<Entry>, k: nat)
    ensures forall i | 0 <= i < |ns| :: Refilled(ns[i], FillForest(ns, group, k)[i])
    decreases ns
  {
    if ns != [] {
      var k' := k + |NodeLeaves(ns[0])|;
      FillNodeRefilled(ns[0], group, k);
      FillForestRefilled(ns[1..], group, k');
      forall i | 0 <= i < |ns| ensures Refilled(ns[i], FillForest(ns, group, k)[i]) {
        if i > 0 {
          assert FillForest(ns, group, k)[i] == FillForest(ns[1..], group, k')[i - 1];
          assert ns[i] == ns[1..][i - 1];
        }
      }
    }
  }

  /** `after` is `roots` with only the data of non-blank text leaves
      changed: same number of roots, non-element roots as they were,
      element roots refilled. */
  predicate DocRefilled(roots: seq<Node>, after: seq<Node>) {
    |after| == |roots| &&
    forall i | 0 <= i < |roots| ::
      if roots[i].Element? then Refilled(roots[i], after[i]) else after[i] == roots[i]
  }

  /** Over a whole record: same number of roots, non-element roots as they
      were, element roots refilled. */
  lemma {:induction false} FillDocRefilled(roots: seq<Node>, group: seq<Entry>, k: nat)
    ensures forall i | 0 <= i < |roots| ::
      if roots[i].Element? then Refilled(roots[i], FillDoc(roots, group, k)[i])
      else FillDoc(roots, group, k)[i] == roots[i]
    decreases |roots|
  {
    if roots != [] {
      var k' := k + if roots[0].Element? then |NodeLeaves(roots[0])| else 0;
      FillNodeRefilled(roots[0], group, k);
      FillDocRefilled(roots[1..], group, k');
      forall i | 0 <= i < |roots|
        ensures if roots[i].Element? then Refilled(roots[i], FillDoc(roots, group, k)[i])
                else FillDoc(roots, group, k)[i] == roots[i]
      {
        if i > 0 {
          assert FillDoc(roots, group, k)[i] == FillDoc(roots[1..], group, k')[i - 1];
          assert roots[i] == roots[1..][i - 1];
        }
      }
    }
  }

  /** Entry `k + j` carries leaf `j`'s own text wherever it exists. */
  ghost predicate EchoesFrom(group: seq<Entry>, k: nat, leaves: seq<string>) {
    forall j | 0 <= j < |leaves| && k + j < |group| :: group[k + j].text == Some(leaves[j])
  }

  /** Writing back every text it already had leaves a tree as it was. */
  lemma {:induction false} FillNodeIdentity(n: Node, group: seq<Entry>, k: nat)
    requires EchoesFrom(group, k, NodeLeaves(n))
    ensures FillNode(n, group, k) == n
    decreases n
  {
    match n {
      case Text(d) =>
        if d.Some? && !IsBlank(d.value) && k < |group| {
          assert NodeLeaves(n)[0] == d.value;
        }
      case Comment(_) =>
      case Element(nm, cs) =>
        FillForestIdentity(cs, group, k);
    }
  }

  lemma {:induction false} FillForestIdentity(ns: seq<Node>, group: seq<Entry>, k: nat)
    requires EchoesFrom(group, k, ForestLeaves(ns))
    ensures FillForest(ns, group, k) == ns
    decreases ns
  {
    if ns != [] {
      var a, b := NodeLeaves(ns[0]), ForestLeaves(ns[1..]);
      assert ForestLeaves(ns) == a + b;
      EchoesSplit(group, k, a, b);
      FillNodeIdentity(ns[0], group, k);
      FillForestIdentity(ns[1..], group, k + |a|);
      assert ns == [ns[0]] + ns[1..];
    }
  }

  /** Echoing a concatenation of leaves echoes each part, the second from
      where the first ends. */
  lemma EchoesSplit(group: seq<Entry>, k: nat, a: seq<string>, b: seq<string>)
    requires EchoesFrom(group, k, a + b)
    ensures EchoesFrom(group, k, a) && EchoesFrom(group, k + |a|, b)
  {
    forall j | 0 <= j < |a| && k + j < |group| ensures group[k + j].text == Some(a[j]) {
      assert (a + b)[j] == a[j];
    }
    forall j | 0 <= j < |b| && k + |a| + j < |group| ensures group[k + |a| + j].text == Some(b[j]) {
      assert (a + b)[|a| + j] == b[j];
    }
  }

  /** Over a whole record. */
  lemma {:induction false} FillDocIdentity(roots: seq<Node>, group: seq<Entry>, k: nat)
    requires EchoesFrom(group, k, DocLeaves(roots))
    ensures FillDoc(roots, group, k) == roots
    decreases |roots|
  {
    if roots != [] {
      var r := roots[0];
      var a := if r.Element? then NodeLeaves(r) else [];
      var b := DocLeaves(roots[1..]);
      var k' := k + |a|;
      DocUnfold(roots, group, k);
      EchoesSplit(group, k, a, b);
      FillDocIdentity(roots[1..], group, k');
      if r.Element? {
        FillNodeIdentity(r, group, k);
      }
      assert roots == [r] + roots[1..];
    }
  }

  /** One step of the walk over a record's roots. */
  lemma DocUnfold(roots: seq<Node>, group: seq<Entry>, k: nat)
    requires roots != []
    ensures var a := if roots[0].Element? then NodeLeaves(roots[0]) else [];
      && DocLeaves(roots) == a + DocLeaves(roots[1..])
      && FillDoc(roots, group, k) ==
        [if roots[0].Element? then FillNode(roots[0], group, k) else roots[0]]
        + FillDoc(roots[1..], group, k + |a|)
  {
  }

  /** Entries `k .. k + c - 1` exist and carry non-blank texts. */
  ghost predicate Writes(group: seq<Entry>, k: nat, c: nat) {
    k + c <= |group| &&
    forall j | k <= j < k + c :: group[j].text.Some? && !IsBlank(group[j].text.value)
  }

  /** The texts of entries `k .. k + c - 1`. */
  function Written(group: seq<Entry>, k: nat, c: nat): seq<string>
    requires k + c <= |group|
    decreases c
  {
    if c == 0 then []
    else [if group[k].text.Some? then group[k].text.value else ""] + Written(group, k + 1, c - 1)
  }

  lemma {:induction false} WrittenSplit(group: seq<Entry>, k: nat, a: nat, b: nat)
    requires k + a + b <= |group|
    ensures Written(group, k, a + b) == Written(group, k, a) + Written(group, k + a, b)
    decreases a
  {
    if a > 0 {
      WrittenSplit(group, k + 1, a - 1, b);
    }
  }

  /** Text `j` of `Written(group, k, c)` is the text of entry `k + j`. */
  lemma {:induction false} WrittenIndex(group: seq<Entry>, k: nat, c: nat)
    requires k + c <= |group|
    ensures |Written(group, k, c)| == c
    ensures forall j | 0 <= j < c ::
      Written(group, k, c)[j] == if group[k + j].text.Some? then group[k + j].text.value else ""
    decreases c
  {
    if c > 0 {
      WrittenIndex(group, k + 1, c - 1);
    }
  }

  /** Extracting again after the reinsertion finds, in order, exactly the
      texts written, when every leaf got a non-blank one. */
  lemma {:induction false} FillNodeLeaves(n: Node, group: seq<Entry>, k: nat)
    requires Writes(group, k, |NodeLeaves(n)|)
    ensures NodeLeaves(FillNode(n, group, k)) == Written(group, k, |NodeLeaves(n)|)
    decreases n
  {
    match n {
      case Text(d) =>
      case Comment(_) =>
      case Element(nm, cs) =>
        FillForestLeaves(cs, group, k);
    }
  }

  lemma {:induction false} FillForestLeaves(ns: seq<Node>, group: seq<Entry>, k: nat)
    requires Writes(group, k, |ForestLeaves(ns)|)
    ensures ForestLeaves(FillForest(ns, group, k)) == Written(group, k, |ForestLeaves(ns)|)
    decreases ns
  {
    if ns != [] {
      var a, b := |NodeLeaves(ns[0])|, |ForestLeaves(ns[1..])|;
      assert |ForestLeaves(ns)| == a + b;
      FillNodeLeaves(ns[0], group, k);
      FillForestLeaves(ns[1..], group, k + a);
      WrittenSplit(group, k, a, b);
      var filled := FillForest(ns, group, k);
      assert filled[0] == FillNode(ns[0], group, k) && filled[1..] == FillForest(ns[1..], group, k + a);
    }
  }

  lemma {:induction false} FillDocLeaves(roots: seq<Node>, group: seq<Entry>, k: nat)
    requires Writes(group, k, |DocLeaves(roots)|)
    ensures DocLeaves(FillDoc(roots, group, k)) == Written(group, k, |DocLeaves(roots)|)
    decreases |roots|
  {
    if roots != [] {
      var r := roots[0];
      var a := if r.Element? then |NodeLeaves(r)| else 0;
      var b := |DocLeaves(roots[1..])|;
      DocUnfold(roots, group, k);
      var head := if r.Element? then FillNode(r, group, k) else r;
      var rest := FillDoc(roots[1..], group, k + a);
      FillDocLeaves(roots[1..], group, k + a);
      WrittenSplit(group, k, a, b);
      DocLeavesCons(head, rest);
      if r.Element? {
        FillNodeLeaves(r, group, k);
      }
    }
  }

  lemma DocLeavesCons(x: Node, rest: seq<Node>)
    ensures DocLeaves([x] + rest) == (if x.Element? then NodeLeaves(x) else []) + DocLeaves(rest)
  {
    assert ([x] + rest)[0] == x && ([x] + rest)[1..] == rest;
  }
  /** The data `b` holds at the places of `a`'s non-blank text leaves, in
      the walk's order, `b` being `a` after a reinsertion (same shape). */
  function NodeSlots(a: Node, b: Node): seq<Option<string>>
    decreases a
  {
    match a
    case Text(d) => if d.Some? && !IsBlank(d.value) && b.Text? then [b.data] else []
    case Comment(_) => []
    case Element(_, cs) => if b.Element? then ForestSlots(cs, b.children) else []
  }

  function ForestSlots(ns: seq<Node>, ms: seq<Node>): seq<Option<string>>
    decreases ns
  {
    if ns == [] || ms == [] then []
    else NodeSlots(ns[0], ms[0]) + ForestSlots(ns[1..], ms[1..])
  }

  /** The same over a record's roots, visiting element roots only. */
  function DocSlots(roots: seq<Node>, after: seq<Node>): seq<Option<string>>
    decreases |roots|
  {
    if roots == [] || after == [] then []
    else (if roots[0].Element? then NodeSlots(roots[0], after[0]) else []) + DocSlots(roots[1..], after[1..])
  }

  /** What leaves `k`, `k + 1`, ... holding `leaves` should hold after the
      walk: entry `k + j`'s text where that entry exists, `undefined`
      included, and their own data past the end of the list. */
  function Slots(group: seq<Entry>, k: nat, leaves: seq<string>): (r: seq<Option<string>>)
    ensures |r| == |leaves|
    decreases |leaves|
  {
    if leaves == [] then []
    else [if k < |group| then group[k].text else Some(leaves[0])] + Slots(group, k + 1, leaves[1..])
  }

  lemma {:induction false} SlotsAppend(group: seq<Entry>, k: nat, a: seq<string>, b: seq<string>)
    ensures Slots(group, k, a + b) == Slots(group, k, a) + Slots(group, k + |a|, b)
    decreases |a|
  {
    if a != [] {
      assert (a + b)[0] == a[0] && (a + b)[1..] == a[1..] + b;
      SlotsAppend(group, k + 1, a[1..], b);
    } else {
      assert a + b == b;
    }
  }

  lemma {:induction false} SlotsIndex(group: seq<Entry>, k: nat, leaves: seq<string>)
    ensures forall j | 0 <= j < |leaves| ::
      Slots(group, k, leaves)[j] == if k + j < |group| then group[k + j].text else Some(leaves[j])
    decreases |leaves|
  {
    if leaves != [] {
      var all, rest := Slots(group, k, leaves), Slots(group, k + 1, leaves[1..]);
      SlotsIndex(group, k + 1, leaves[1..]);
      assert all == [if k < |group| then group[k].text else Some(leaves[0])] + rest;
      forall j | 0 <= j < |leaves|
        ensures all[j] == if k + j < |group| then group[k + j].text else Some(leaves[j])
      {
        if j > 0 {
          assert all[j] == rest[j - 1] && leaves[1..][j - 1] == leaves[j];
        }
      }
    }
  }

  /** Reinsertion, leaf by leaf: the `j`-th non-blank text leaf met by the
      walk takes the text of entry `k + j` whenever that entry exists, even
      an `undefined` one, and keeps its data only past the end of the list. */
  lemma {:induction false} FillNodeSlots(n: Node, group: seq<Entry>, k: nat)
    ensures NodeSlots(n, FillNode(n, group, k)) == Slots(group, k, NodeLeaves(n))
    decreases n
  {
    match n {
      case Text(d) =>
        if d.Some? && !IsBlank(d.value) {
          assert NodeLeaves(n)[1..] == [];
        }
      case Comment(_) =>
      case Element(nm, cs) =>
        FillForestSlots(cs, group, k);
    }
  }

  lemma {:induction false} FillForestSlots(ns: seq<Node>, group: seq<Entry>, k: nat)
    ensures ForestSlots(ns, FillForest(ns, group, k)) == Slots(group, k, ForestLeaves(ns))
    decreases ns
  {
    if ns != [] {
      var a := NodeLeaves(ns[0]);
      var filled := FillForest(ns, group, k);
      assert filled[0] == FillNode(ns[0], group, k) && filled[1..] == FillForest(ns[1..], group, k + |a|);
      FillNodeSlots(ns[0], group, k);
      FillForestSlots(ns[1..], group, k + |a|);
      SlotsAppend(group, k, a, ForestLeaves(ns[1..]));
    }
  }

  lemma {:induction false} FillDocSlots(roots: seq<Node>, group: seq<Entry>, k: nat)
    ensures DocSlots(roots, FillDoc(roots, group, k)) == Slots(group, k, DocLeaves(roots))
    ensures |DocSlots(roots, FillDoc(roots, group, k))| == |DocLeaves(roots)|
    ensures forall j | 0 <= j < |DocLeaves(roots)| ::
      DocSlots(roots, FillDoc(roots, group, k))[j] ==
        if k + j < |group| then group[k + j].text else Some(DocLeaves(roots)[j])
    decreases |roots|
  {
    if roots != [] {
      var r := roots[0];
      var a := if r.Element? then NodeLeaves(r) else [];
      DocUnfold(roots, group, k);
      var filled := FillDoc(roots, group, k);
      assert filled[0] == (if r.Element? then FillNode(r, group, k) else r);
      assert filled[1..] == FillDoc(roots[1..], group, k + |a|);
      FillDocSlots(roots[1..], group, k + |a|);
      SlotsAppend(group, k, a, DocLeaves(roots[1..]));
      if r.Element? {
        FillNodeSlots(r, group, k);
      }
    }
    SlotsIndex(group, k, DocLeaves(roots));
  }

  /** `nodeIdxMap[i]` as the walk would use it under a guard that also
      skips `undefined` texts: each such entry carries the text of the leaf
      it is meant for instead. */
  function Patched(group: seq<Entry>, leaves: seq<string>): (r: seq<Entry>)
    ensures |r| == |group|
  {
    seq(|group|, j requires 0 <= j < |group| =>
      if group[j].text.None? && j < |leaves| then group[j].(text := Some(leaves[j])) else group[j])
  }

  /** The reinsertion with the guard `if (ref && ref.text !== undefined)`. */
  function FillDocKeeping(roots: seq<Node>, group: seq<Entry>): seq<Node> {
    FillDoc(roots, Patched(group, DocLeaves(roots)), 0)
  }

  /** With that guard no leaf is ever set to `undefined`: leaf `j` takes the
      text of entry `j` when there is one and keeps its own text otherwise. */
  lemma FillDocKeepingSlots(roots: seq<Node>, group: seq<Entry>)
    ensures |DocSlots(roots, FillDocKeeping(roots, group))| == |DocLeaves(roots)|
    ensures forall j | 0 <= j < |DocLeaves(roots)| ::
      DocSlots(roots, FillDocKeeping(roots, group))[j] ==
        Some(if j < |group| && group[j].text.Some? then group[j].text.value else DocLeaves(roots)[j])
  {
    FillDocSlots(roots, Patched(group, DocLeaves(roots)), 0);
  }

  /** When every entry carries a defined text, the corrected guard changes
      nothing: both walks give the same tree. */
  lemma FillDocKeepingAgrees(roots: seq<Node>, group: seq<Entry>)
    requires forall j | 0 <= j < |group| :: group[j].text.Some?
    ensures FillDocKeeping(roots, group) == FillDoc(roots, group, 0)
  {
    assert Patched(group, DocLeaves(roots)) == group;
  }
}
