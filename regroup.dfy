/**
  `nodeIdxMap`: the flat list of translations regrouped per record by
  walking `nodeRefs` (lines 137-141 of services/translateService.js, 313-317
  of the same file, 125-129 of translate.js).
*/
module Regroup {
  import opened Wrappers
  import opened Extract

  /** `{ idx, text: translatedTextNodes[idx] }`; a `None` text is the
      `undefined` read past the end of a short answer. */
  datatype Entry = Entry(idx: nat, text: Option<string>)

  /** `translatedTextNodes[j]`, `undefined` past the end. */
  function Lookup(tr: seq<string>, j: nat): Option<string> {
    if j < |tr| then Some(tr[j]) else None
  }

  /** The entries pushed for record `i` by the refs `refs`, the first of
      them sitting at position `start` of `nodeRefs`: one per ref naming
      `i`, in ref order, each carrying its position. */
  function GroupFrom(refs: seq<NodeRef>, start: nat, tr: seq<string>, i: nat): seq<Entry>
    decreases |refs|
  {
    if refs == [] then []
    else
      (if refs[0].itemIdx == i then [Entry(start, Lookup(tr, start))] else [])
      + GroupFrom(refs[1..], start + 1, tr, i)
  }

  function Group(refs: seq<NodeRef>, tr: seq<string>, i: nat): seq<Entry> {
    GroupFrom(refs, 0, tr, i)
  }

  /** The entries for `count` consecutive texts starting at `start`. */
  function Entries(start: nat, count: nat, tr: seq<string>): (es: seq<Entry>)
    ensures |es| == count
    decreases count
  {
    if count == 0 then [] else [Entry(start, Lookup(tr, start))] + Entries(start + 1, count - 1, tr)
  }

  /** The `nodeRefs.forEach` loop: a key is created on the first ref naming
      its record, and each ref pushes its entry under its record. */
  method BuildNodeIdxMap(refs: seq<NodeRef>, tr: seq<string>) returns (m: map<nat, seq<Entry>>)
    ensures forall i :: i in m <==> Group(refs, tr, i) != []
    ensures forall i | i in m :: m[i] == Group(refs, tr, i)
  {
    m := map[];
    var idx := 0;
    while idx < |refs|
      invariant 0 <= idx <= |refs|
      invariant forall i :: i in m <==> Group(refs[..idx], tr, i) != []
      invariant forall i | i in m :: m[i] == Group(refs[..idx], tr, i)
    {
      var ref := refs[idx];
      assert refs[..idx + 1] == refs[..idx] + [ref];
      forall i ensures Group(refs[..idx + 1], tr, i) ==
        Group(refs[..idx], tr, i) + (if ref.itemIdx == i then [Entry(idx, Lookup(tr, idx))] else []) {
        GroupFromAppend(refs[..idx], [ref], 0, tr, i);
      }
      if ref.itemIdx !in m {
        m := m[ref.itemIdx := []];
      }
      m := m[ref.itemIdx := m[ref.itemIdx] + [Entry(idx, Lookup(tr, idx))]];
      idx := idx + 1;
    }
    assert refs[..idx] == refs;
  }

  /** `nodeIdxMap[i]` as the reinsertion reads it: missing keys read as no
      entries at all. */
  function EntriesFor(m: map<nat, seq<Entry>>, i: nat): seq<Entry> {
    if i in m then m[i] else []
  }

  lemma {:induction false} EntriesIndex(start: nat, count: nat, tr: seq<string>)
    ensures forall k | 0 <= k < count :: Entries(start, count, tr)[k] == Entry(start + k, Lookup(tr, start + k))
    decreases count
  {
    if count > 0 {
      EntriesIndex(start + 1, count - 1, tr);
    }
  }

  /** The refs of two consecutive runs push their entries one run after the
      other. */
  lemma {:induction false} GroupFromAppend(a: seq<NodeRef>, b: seq<NodeRef>, start: nat, tr: seq<string>, i: nat)
    ensures GroupFrom(a + b, start, tr, i) == GroupFrom(a, start, tr, i) + GroupFrom(b, start + |a|, tr, i)
    decreases |a|
  {
    if a == [] {
      assert a + b == b;
    } else {
      assert (a + b)[0] == a[0] && (a + b)[1..] == a[1..] + b;
      GroupFromAppend(a[1..], b, start + 1, tr, i);
    }
  }

  /** A span of refs for record `r` pushes one entry per ref if `r` is the
      record asked about, and nothing otherwise. */
  lemma {:induction false} GroupFromSpan(r: nat, from: nat, c: nat, start: nat, tr: seq<string>, i: nat)
    ensures GroupFrom(RefSpan(r, from, c), start, tr, i) == if r == i then Entries(start, c, tr) else []
    decreases c
  {
    if c > 0 {
      GroupFromSpan(r, from + 1, c - 1, start + 1, tr, i);
      assert RefSpan(r, from, c)[1..] == RefSpan(r, from + 1, c - 1);
    }
  }

  /** `Group` for every record of the prefix: record `i` gets one entry per
      text it contributed, at the positions `Offset(items, i)`, `+1`, ... */
  lemma {:induction false} GroupUpTo(items: seq<seq<string>>, tr: seq<string>, n: nat, i: nat)
    requires n <= |items|
    ensures Group(RefsUpTo(items, n), tr, i) ==
      if i < n then Entries(Offset(items, i), |items[i]|, tr) else []
  {
    if n > 0 {
      var prev, span := RefsUpTo(items, n - 1), RefSpan(n - 1, 0, |items[n - 1]|);
      GroupUpTo(items, tr, n - 1, i);
      GroupFromAppend(prev, span, 0, tr, i);
      GroupFromSpan(n - 1, 0, |items[n - 1]|, |prev|, tr, i);
      RefsLength(items, n - 1);
      assert Group(RefsUpTo(items, n), tr, i) == Group(prev, tr, i) + GroupFrom(span, |prev|, tr, i);
      if i == n - 1 {
        assert Group(prev, tr, i) == [];
        assert |prev| == Offset(items, i);
      } else if i < n - 1 {
        assert GroupFrom(span, |prev|, tr, i) == [];
      }
    }
  }

  /** What `nodeIdxMap[i]` holds once all refs are pushed: exactly as many
      entries as record `i` contributed texts, entry `k` carrying the
      translation found at that text's place in the flat list, and
      `undefined` when the answers fell short. A record with no text has no
      key. */
  lemma NodeIdxMapContents(items: seq<seq<string>>, tr: seq<string>, i: nat)
    requires i < |items|
    ensures |Group(AllRefs(items), tr, i)| == |items[i]|
    ensures forall k | 0 <= k < |items[i]| ::
      Group(AllRefs(items), tr, i)[k] == Entry(Offset(items, i) + k, Lookup(tr, Offset(items, i) + k))
  {
    var start := Offset(items, i);
    assert Group(AllRefs(items), tr, i) == Entries(start, |items[i]|, tr) by {
      GroupUpTo(items, tr, |items|, i);
    }
    EntriesIndex(start, |items[i]|, tr);
  }
}
