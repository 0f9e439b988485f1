/**
  The whole translation flow as its three copies run it: translate the
  titles, extract the content's text leaves, translate them in batches,
  regroup the answers per record and write them back, then rebuild each
  record's content (`translateAndSaveApifyData`, lines 116-187 of
  services/translateService.js; `translateProductsWithoutSave`, lines
  286-358 of the same file; the `/translate` handler, lines 102-177 of
  translate.js).
*/
module Pipeline {
  import opened Wrappers
  import opened Dom
  import opened Extract
  import opened Batching
  import opened Regroup
  import opened Reinsert
  import opened Markup
  import opened Titles

  /** Which copy of the flow runs. */
  datatype Flow =
    | Apify     // translateAndSaveApifyData in services/translateService.js
    | Products  // translateProductsWithoutSave in services/translateService.js
    | Handler   // the `/translate` handler of translate.js

  /** What the flow is given: the HTML parser, the serializer, and the
      translation endpoint (one request per call, `Failure` for a request
      that throws). */
  datatype Env = Env(parse: string -> seq<Node>, html: seq<Node> -> string,
                     translate: seq<string> -> Result<seq<string>, string>)

  /** The extractor each copy uses. */
  function VariantOf(env: Env, flow: Flow): Variant {
    if flow.Handler? then Standalone else Service(env.html)
  }

  /** `cheerioObjs` as each copy leaves it: translate.js never assigns it. */
  function ObjsFor(data: seq<Record>, env: Env, flow: Flow): seq<Option<Prepared>> {
    if flow.Handler? then [] else ServiceObjs(data, env.parse, env.html)
  }

  /** `cheerioObjs[itemIdx]`: a hole or a read past the end is `undefined`. */
  function ObjAt(objs: seq<Option<Prepared>>, i: nat): Option<Prepared> {
    if i < |objs| then objs[i] else None
  }

  /** The rewrite chain each copy applies to the serialized tree. */
  function Chain(flow: Flow): string -> string {
    if flow.Products? then NormaliseProducts else Normalise
  }

  /** `formattedStyle + formattedContent` for a record whose prepared tree is
      `p` and whose `nodeIdxMap` list is `group`. */
  function Format(p: Prepared, group: seq<Entry>, html: seq<Node> -> string, finish: string -> string): string {
    StyleBlock(p.style) + finish(html(FillDoc(p.roots, group, 0)))
  }

  /** One record after the reinsertion loop: rewritten when
      `item.content && cheerioObjs[itemIdx]`, untouched otherwise. */
  function Rewrite(r: Record, obj: Option<Prepared>, group: seq<Entry>,
                   html: seq<Node> -> string, finish: string -> string): Record {
    if HasContent(r) && obj.Some? then r.(content := Some(Format(obj.value, group, html, finish))) else r
  }

  /** The first `n` records after the reinsertion loop. */
  function ReinsertUpTo(data: seq<Record>, objs: seq<Option<Prepared>>, refs: seq<NodeRef>,
                        tr: seq<string>, html: seq<Node> -> string, finish: string -> string, n: nat): (r: seq<Record>)
    requires n <= |data|
    ensures |r| == n
  {
    if n == 0 then []
    else
      ReinsertUpTo(data, objs, refs, tr, html, finish, n - 1)
      + [Rewrite(data[n - 1], ObjAt(objs, n - 1), Group(refs, tr, n - 1), html, finish)]
  }

  /** The outcome of a run on `data`: the records handed back, or the
      message of the first request that threw. */
  function Run(data: seq<Record>, env: Env, flow: Flow): Result<seq<Record>, string> {
    var tt :- env.translate(TitlesOf(data));
    var d := Fallback(data, tt);
    var items := Items(d, VariantOf(env, flow), env.parse);
    if AllTexts(items) == [] then Success(d)
    else
      var rs :- TranslateAll(Chunks(AllTexts(items), BATCH_SIZE), env.translate);
      Success(ReinsertUpTo(d, ObjsFor(d, env, flow), AllRefs(items), Flatten(rs), env.html, Chain(flow), |d|))
  }

  /** The records as a failing run leaves the model's array: the titles are
      already updated if the title request succeeded. In the program the
      array is local to the run and the exception propagates, so no caller
      sees this state. */
  function TitleStage(data: seq<Record>, env: Env): seq<Record> {
    match env.translate(TitlesOf(data))
    case Success(tt) => Fallback(data, tt)
    case Failure(_) => data
  }

  /** `Promise.all(batches.map(batch => limit(() => translateBatch(batch))))`,
      one request after the other. */
  method TranslateBatches(batches: seq<seq<string>>, translate: seq<string> -> Result<seq<string>, string>)
    returns (r: Result<seq<seq<string>>, string>)
    ensures r == TranslateAll(batches, translate)
  {
    var results: seq<seq<string>> := [];
    var i := 0;
    assert batches[0..] == batches;
    GlueNothing(TranslateAll(batches, translate));
    while i < |batches|
      invariant 0 <= i <= |batches|
      invariant TranslateAll(batches, translate) == Glue(results, TranslateAll(batches[i..], translate))
    {
      assert batches[i..][0] == batches[i] && batches[i..][1..] == batches[i + 1..];
      var answer := translate(batches[i]);
      if answer.Failure? {
        return Failure(answer.error);
      }
      GlueAssoc(results, answer.value, TranslateAll(batches[i + 1..], translate));
      results := results + [answer.value];
      i := i + 1;
    }
    assert batches[i..] == [];
    assert results + [] == results;
    return Success(results);
  }

  lemma GlueNothing(r: Result<seq<seq<string>>, string>)
    ensures Glue([], r) == r
  {
    if r.Success? {
      assert [] + r.value == r.value;
    }
  }

  lemma GlueAssoc(done: seq<seq<string>>, head: seq<string>, rest: Result<seq<seq<string>>, string>)
    ensures Glue(done, Glue([head], rest)) == Glue(done + [head], rest)
  {
    if rest.Success? {
      assert done + ([head] + rest.value) == (done + [head]) + rest.value;
    }
  }

  /** The answers gathered so far ahead of the outcome of the rest. */
  function Glue(done: seq<seq<string>>, rest: Result<seq<seq<string>>, string>): Result<seq<seq<string>>, string> {
    if rest.Failure? then rest else Success(done + rest.value)
  }

  /** The `data.forEach((item, itemIdx) => ...)` loop that rewrites each
      record's content from its prepared tree and its `nodeIdxMap` list. */
  method ReinsertContents(data: array<Record>, objs: seq<Option<Prepared>>, m: map<nat, seq<Entry>>,
                          ghost refs: seq<NodeRef>, ghost tr: seq<string>,
                          html: seq<Node> -> string, finish: string -> string)
    requires forall i: nat :: EntriesFor(m, i) == Group(refs, tr, i)
    modifies data
    ensures data[..] == ReinsertUpTo(old(data[..]), objs, refs, tr, html, finish, data.Length)
  {
    ghost var orig := data[..];
    var i := 0;
    while i < data.Length
      invariant 0 <= i <= data.Length
      invariant data[..i] == ReinsertUpTo(orig, objs, refs, tr, html, finish, i)
      invariant forall j | i <= j < data.Length :: data[j] == orig[j]
    {
      var item := RewriteRecord(data[i], ObjAt(objs, i), EntriesFor(m, i), html, finish);
      data[i] := item;
      assert data[..i + 1] == data[..i] + [item];
      i := i + 1;
    }
    assert data[..] == data[..data.Length];
  }

  /** The body of the reinsertion loop for one record: refill its prepared
      tree, serialize it, prefix the style block and run the rewrite chain. */
  method RewriteRecord(item: Record, obj: Option<Prepared>, group: seq<Entry>,
                       html: seq<Node> -> string, finish: string -> string) returns (item': Record)
    ensures item' == Rewrite(item, obj, group, html, finish)
  {
    item' := item;
    if HasContent(item) && obj.Some? {
      var roots := ReplaceDocument(obj.value.roots, group);
      var formattedStyle := StyleBlock(obj.value.style);
      var formattedContent := finish(html(roots));
      item' := item.(content := Some(formattedStyle + formattedContent));
    }
  }

  /** One run of the flow over `data`, updating the records in place;
      `err` is the message of the request that threw, if one did. */
  method TranslateAndSave(data: array<Record>, env: Env, flow: Flow) returns (err: Option<string>)
    modifies data
    ensures Run(old(data[..]), env, flow).Success? ==>
      err.None? && data[..] == Run(old(data[..]), env, flow).value
    ensures Run(old(data[..]), env, flow).Failure? ==>
      err == Some(Run(old(data[..]), env, flow).error) && data[..] == TitleStage(old(data[..]), env)
  {
    var answer := env.translate(TitlesOf(data[..]));
    if answer.Failure? {
      return Some(answer.error);
    }
    ApplyTitles(data, answer.value);
    var allTextNodes, nodeRefs, cheerioObjs;
    if flow.Handler? {
      allTextNodes, nodeRefs, cheerioObjs := ExtractTextNodesStandalone(data[..], env.parse);
    } else {
      allTextNodes, nodeRefs, cheerioObjs := ExtractTextNodes(data[..], env.parse, env.html);
    }
    if |allTextNodes| > 0 {
      var batches := MakeBatches(allTextNodes);
      var results := TranslateBatches(batches, env.translate);
      if results.Failure? {
        return Some(results.error);
      }
      var translatedTextNodes := Flatten(results.value);
      var nodeIdxMap := BuildNodeIdxMap(nodeRefs, translatedTextNodes);
      forall i: nat ensures EntriesFor(nodeIdxMap, i) == Group(nodeRefs, translatedTextNodes, i) { }
      ReinsertContents(data, cheerioObjs, nodeIdxMap, nodeRefs, translatedTextNodes, env.html, Chain(flow));
    }
    return None;
  }

  /** Record `i` after the reinsertion loop depends only on record `i`, its
      slot of `cheerioObjs` and its own `nodeIdxMap` list. */
  lemma {:induction false} ReinsertAt(data: seq<Record>, objs: seq<Option<Prepared>>, refs: seq<NodeRef>,
                                      tr: seq<string>, html: seq<Node> -> string, finish: string -> string, n: nat)
    requires n <= |data|
    ensures forall i | 0 <= i < n ::
      ReinsertUpTo(data, objs, refs, tr, html, finish, n)[i] == Rewrite(data[i], ObjAt(objs, i), Group(refs, tr, i), html, finish)
  {
    if n > 0 {
      ReinsertAt(data, objs, refs, tr, html, finish, n - 1);
      var prev := ReinsertUpTo(data, objs, refs, tr, html, finish, n - 1);
      var last := Rewrite(data[n - 1], ObjAt(objs, n - 1), Group(refs, tr, n - 1), html, finish);
      var all := ReinsertUpTo(data, objs, refs, tr, html, finish, n);
      assert all == prev + [last];
      forall i | 0 <= i < n
        ensures all[i] == Rewrite(data[i], ObjAt(objs, i), Group(refs, tr, i), html, finish)
      {
        if i < n - 1 {
          assert all[i] == prev[i];
        }
      }
    }
  }

  /** When every text is answered by `f` of itself, entry `k` of record
      `i`'s `nodeIdxMap` list carries `f` of the record's `k`-th text. */
  lemma GroupTranslates(items: seq<seq<string>>, f: string -> string, i: nat)
    requires i < |items|
    ensures |Group(AllRefs(items), MapSeq(f, AllTexts(items)), i)| == |items[i]|
    ensures forall k | 0 <= k < |items[i]| ::
      Group(AllRefs(items), MapSeq(f, AllTexts(items)), i)[k].text == Some(f(items[i][k]))
  {
    var tr := MapSeq(f, AllTexts(items));
    NodeIdxMapContents(items, tr, i);
    MapSeqIndex(f, AllTexts(items));
    forall k | 0 <= k < |items[i]| ensures Group(AllRefs(items), tr, i)[k].text == Some(f(items[i][k])) {
      RefsLocate(items, i, k, |items|);
    }
  }

  /** The refilled tree of record `i`, read again, yields `f` of the texts
      read from it before, when `f` never turns a text blank. */
  lemma RefillTranslates(items: seq<seq<string>>, f: string -> string, i: nat, roots: seq<Node>)
    requires i < |items| && items[i] == DocLeaves(roots)
    requires forall s :: !IsBlank(s) ==> !IsBlank(f(s))
    ensures DocLeaves(FillDoc(roots, Group(AllRefs(items), MapSeq(f, AllTexts(items)), i), 0))
      == MapSeq(f, DocLeaves(roots))
  {
    var group := Group(AllRefs(items), MapSeq(f, AllTexts(items)), i);
    var c := |DocLeaves(roots)|;
    GroupTranslates(items, f, i);
    DocLeavesNonBlank(roots);
    assert Writes(group, 0, c);
    FillDocLeaves(roots, group, 0);
    WrittenIndex(group, 0, c);
    MapSeqIndex(f, DocLeaves(roots));
  }

  /** Answering every text with itself writes back what was there. */
  lemma RefillEchoes(items: seq<seq<string>>, i: nat, roots: seq<Node>)
    requires i < |items| && items[i] == DocLeaves(roots)
    ensures FillDoc(roots, Group(AllRefs(items), AllTexts(items), i), 0) == roots
  {
    var group := Group(AllRefs(items), AllTexts(items), i);
    NodeIdxMapContents(items, AllTexts(items), i);
    forall k | 0 <= k < |items[i]| ensures group[k].text == Some(items[i][k]) {
      RefsLocate(items, i, k, |items|);
    }
    FillDocIdentity(roots, group, 0);
  }

  /** Record `i`'s refilled tree, leaf by leaf: its `k`-th non-blank text
      leaf holds `translatedTextNodes[Offset + k]`, or `undefined` when the
      answers fell short; it never keeps its old text. */
  lemma RefillSlots(items: seq<seq<string>>, tr: seq<string>, i: nat, roots: seq<Node>)
    requires i < |items| && items[i] == DocLeaves(roots)
    ensures |DocSlots(roots, FillDoc(roots, Group(AllRefs(items), tr, i), 0))| == |items[i]|
    ensures forall k | 0 <= k < |items[i]| ::
      DocSlots(roots, FillDoc(roots, Group(AllRefs(items), tr, i), 0))[k] == Lookup(tr, Offset(items, i) + k)
  {
    NodeIdxMapContents(items, tr, i);
    FillDocSlots(roots, Group(AllRefs(items), tr, i), 0);
  }

  /** As written, a leaf whose answer is missing from `translatedTextNodes`
      has its data set to `undefined` rather than kept. */
  lemma ShortAnswersUndefined(items: seq<seq<string>>, tr: seq<string>, i: nat, roots: seq<Node>, k: nat)
    requires i < |items| && items[i] == DocLeaves(roots)
    requires k < |items[i]| && |tr| <= Offset(items, i) + k
    ensures var slots := DocSlots(roots, FillDoc(roots, Group(AllRefs(items), tr, i), 0));
      k < |slots| && slots[k] == None
  {
    RefillSlots(items, tr, i, roots);
  }

  /** With a guard that also skips `undefined` texts, leaf `k` of record
      `i` takes its answer when there is one and keeps its text otherwise. */
  lemma RefillKeeping(items: seq<seq<string>>, tr: seq<string>, i: nat, roots: seq<Node>)
    requires i < |items| && items[i] == DocLeaves(roots)
    ensures |DocSlots(roots, FillDocKeeping(roots, Group(AllRefs(items), tr, i)))| == |items[i]|
    ensures forall k | 0 <= k < |items[i]| ::
      DocSlots(roots, FillDocKeeping(roots, Group(AllRefs(items), tr, i)))[k] ==
        Some(if Offset(items, i) + k < |tr| then tr[Offset(items, i) + k] else items[i][k])
  {
    NodeIdxMapContents(items, tr, i);
    FillDocKeepingSlots(roots, Group(AllRefs(items), tr, i));
  }

  /** `allTextNodes` of a run whose title request was answered `tt`. */
  function TextsAfter(data: seq<Record>, env: Env, flow: Flow, tt: seq<string>): seq<string> {
    AllTexts(Items(Fallback(data, tt), VariantOf(env, flow), env.parse))
  }

  /** A run fails exactly when the title request throws or, once it is
      answered, one of the batch requests throws. */
  lemma RunFailure(data: seq<Record>, env: Env, flow: Flow)
    ensures Run(data, env, flow).Failure? <==>
      env.translate(TitlesOf(data)).Failure? ||
      (var batches := Chunks(TextsAfter(data, env, flow, env.translate(TitlesOf(data)).value), BATCH_SIZE);
       exists b | 0 <= b < |batches| :: env.translate(batches[b]).Failure?)
  {
    var answer := env.translate(TitlesOf(data));
    if answer.Success? {
      var texts := TextsAfter(data, env, flow, answer.value);
      var batches := Chunks(texts, BATCH_SIZE);
      TranslateAllSpec(batches, env.translate);
      ChunksEmpty(texts);
      if TranslateAll(batches, env.translate).Success? {
        RunSuccess(data, env, flow, answer.value, TranslateAll(batches, env.translate).value);
      }
    }
  }

  /** A run that succeeds hands back one record per record, titled by the
      title fallback, and leaves the content of records without content
      alone. */
  lemma RunTitles(data: seq<Record>, env: Env, flow: Flow)
    requires Run(data, env, flow).Success?
    ensures env.translate(TitlesOf(data)).Success?
    ensures |Run(data, env, flow).value| == |data|
    ensures forall i | 0 <= i < |data| ::
      Run(data, env, flow).value[i].title == TitleAfter(data[i].title, env.translate(TitlesOf(data)).value, i)
    ensures forall i | 0 <= i < |data| && !HasContent(data[i]) ::
      Run(data, env, flow).value[i].content == data[i].content
  {
    var tt := env.translate(TitlesOf(data)).value;
    var d := Fallback(data, tt);
    FallbackAt(data, tt, |data|);
    var items := Items(d, VariantOf(env, flow), env.parse);
    if AllTexts(items) != [] {
      var rs := TranslateAll(Chunks(AllTexts(items), BATCH_SIZE), env.translate).value;
      var objs := ObjsFor(d, env, flow);
      var r := ReinsertUpTo(d, objs, AllRefs(items), Flatten(rs), env.html, Chain(flow), |d|);
      RunSuccess(data, env, flow, tt, rs);
      ReinsertAt(d, objs, AllRefs(items), Flatten(rs), env.html, Chain(flow), |d|);
      forall i | 0 <= i < |data| ensures r[i].title == d[i].title
        ensures !HasContent(d[i]) ==> r[i].content == d[i].content
      {
        assert r[i] == Rewrite(d[i], ObjAt(objs, i), Group(AllRefs(items), Flatten(rs), i), env.html, Chain(flow));
      }
    }
  }

  /** The outcome of a run whose title request was answered `tt` and whose
      batch requests were answered `rs`. */
  lemma RunSuccess(data: seq<Record>, env: Env, flow: Flow, tt: seq<string>, rs: seq<seq<string>>)
    requires env.translate(TitlesOf(data)) == Success(tt)
    requires TranslateAll(Chunks(TextsAfter(data, env, flow, tt), BATCH_SIZE), env.translate) == Success(rs)
    ensures var d := Fallback(data, tt);
      var items := Items(d, VariantOf(env, flow), env.parse);
      Run(data, env, flow) == Success(
        if AllTexts(items) == [] then d
        else ReinsertUpTo(d, ObjsFor(d, env, flow), AllRefs(items), Flatten(rs), env.html, Chain(flow), |d|))
  {
  }

  /** The `/translate` handler never fills `cheerioObjs`, so a run of it
      hands back the records with translated titles and their contents as
      they came: the translated texts are never written back. */
  lemma HandlerKeepsContents(data: seq<Record>, env: Env)
    requires Run(data, env, Handler).Success?
    ensures Run(data, env, Handler).value == Fallback(data, env.translate(TitlesOf(data)).value)
    ensures forall i | 0 <= i < |data| :: Run(data, env, Handler).value[i].content == data[i].content
  {
    var tt := env.translate(TitlesOf(data)).value;
    var d := Fallback(data, tt);
    FallbackAt(data, tt, |data|);
    var items := Items(d, Standalone, env.parse);
    if AllTexts(items) != [] {
      var rs := TranslateAll(Chunks(AllTexts(items), BATCH_SIZE), env.translate).value;
      var r := ReinsertUpTo(d, [], AllRefs(items), Flatten(rs), env.html, Chain(Handler), |d|);
      ReinsertAt(d, [], AllRefs(items), Flatten(rs), env.html, Chain(Handler), |d|);
      assert Run(data, env, Handler).value == r;
      forall i | 0 <= i < |d| ensures r[i] == d[i] {
        assert ObjAt([], i).None?;
      }
    }
  }

  /** Record `i` of a service run is rebuilt from its own prepared tree,
      whose texts are the ones extracted for it, and its own `nodeIdxMap`
      list. */
  lemma ServiceRecord(d: seq<Record>, env: Env, flow: Flow, finish: string -> string, tr: seq<string>, i: nat)
    requires !flow.Handler? && i < |d| && HasContent(d[i])
    ensures var items := Items(d, VariantOf(env, flow), env.parse);
      var p := Prepare(env.parse(d[i].content.value), env.html);
      && items[i] == DocLeaves(p.roots)
      && ReinsertUpTo(d, ObjsFor(d, env, flow), AllRefs(items), tr, env.html, finish, |d|)[i]
         == d[i].(content := Some(Format(p, Group(AllRefs(items), tr, i), env.html, finish)))
  {
    var items := Items(d, VariantOf(env, flow), env.parse);
    ItemsAt(d, VariantOf(env, flow), env.parse, i);
    ObjsAt(d, env.parse, env.html, |d|);
    ReinsertAt(d, ObjsFor(d, env, flow), AllRefs(items), tr, env.html, finish, |d|);
  }

  /** What a record's content becomes when every text is written back as it
      was: its style block and its serialized tree through the rewrite chain. */
  function Reformatted(content: string, env: Env, flow: Flow): string {
    var p := Prepare(env.parse(content), env.html);
    StyleBlock(p.style) + Chain(flow)(env.html(p.roots))
  }

  /** With an endpoint that answers every text with itself, a run keeps every
      title and changes a content only by re-serializing and reformatting
      it, and only in the service copies and when some record had text. */
  lemma EchoRoundTrip(data: seq<Record>, env: Env, flow: Flow)
    requires forall b :: env.translate(b) == Success(b)
    ensures Run(data, env, flow).Success?
    ensures |Run(data, env, flow).value| == |data|
    ensures forall i | 0 <= i < |data| ::
      Run(data, env, flow).value[i] ==
        (if !flow.Handler? && HasContent(data[i]) && AllTexts(Items(data, VariantOf(env, flow), env.parse)) != []
         then data[i].(content := Some(Reformatted(data[i].content.value, env, flow)))
         else data[i])
  {
    FallbackEcho(data);
    var items := Items(data, VariantOf(env, flow), env.parse);
    var texts := AllTexts(items);
    if texts != [] {
      var batches := Chunks(texts, BATCH_SIZE);
      TranslateAllSpec(batches, env.translate);
      var rs := TranslateAll(batches, env.translate).value;
      assert rs == batches;
      ChunksFlatten(texts, BATCH_SIZE);
      var objs := ObjsFor(data, env, flow);
      var r := ReinsertUpTo(data, objs, AllRefs(items), texts, env.html, Chain(flow), |data|);
      assert Run(data, env, flow).value == r;
      ReinsertAt(data, objs, AllRefs(items), texts, env.html, Chain(flow), |data|);
      forall i | 0 <= i < |data| ensures r[i] ==
        (if !flow.Handler? && HasContent(data[i])
         then data[i].(content := Some(Reformatted(data[i].content.value, env, flow)))
         else data[i])
      {
        if !flow.Handler? && HasContent(data[i]) {
          ServiceRecord(data, env, flow, Chain(flow), texts, i);
          RefillEchoes(items, i, Prepare(env.parse(data[i].content.value), env.html).roots);
        } else if flow.Handler? {
          assert ObjAt(objs, i).None?;
        }
      }
    }
  }

  /** With an endpoint that answers each text by `f` of it, never blank for
      a non-blank text, and some record holding text to translate, record
      `i`'s new content is its style block and the rewrite chain over a tree
      of the same shape as its prepared tree whose texts, read in document
      order, are `f` of the texts it had. */
  lemma RunPointwise(data: seq<Record>, env: Env, flow: Flow, f: string -> string, i: nat)
    requires forall b :: env.translate(b) == Success(MapSeq(f, b))
    requires forall s :: !IsBlank(s) ==> !IsBlank(f(s))
    requires !flow.Handler? && i < |data| && HasContent(data[i])
    requires AllTexts(Items(data, VariantOf(env, flow), env.parse)) != []
    ensures Run(data, env, flow).Success? && i < |Run(data, env, flow).value|
    ensures var p := Prepare(env.parse(data[i].content.value), env.html);
      exists roots: seq<Node> ::
        && DocRefilled(p.roots, roots)
        && DocLeaves(roots) == MapSeq(f, DocLeaves(p.roots))
        && Run(data, env, flow).value[i].content == Some(StyleBlock(p.style) + Chain(flow)(env.html(roots)))
  {
    var d := Fallback(data, MapSeq(f, TitlesOf(data)));
    PointwiseOutcome(data, env, flow, f);
    FallbackAt(data, MapSeq(f, TitlesOf(data)), |data|);
    assert d[i].content == data[i].content;
    ItemsIgnoreTitles(data, d, VariantOf(env, flow), env.parse);
    var items := Items(d, VariantOf(env, flow), env.parse);
    var texts := AllTexts(items);
    PointwiseRecord(d, env, flow, Chain(flow), f, i);
    var p := Prepare(env.parse(data[i].content.value), env.html);
    var roots := FillDoc(p.roots, Group(AllRefs(items), MapSeq(f, texts), i), 0);
    assert Run(data, env, flow).value[i].content == Some(StyleBlock(p.style) + Chain(flow)(env.html(roots)));
  }

  /** The outcome of a run against an endpoint that answers each text by
      `f` of it: titles answered by `f`, texts answered by `f`. */
  lemma PointwiseOutcome(data: seq<Record>, env: Env, flow: Flow, f: string -> string)
    requires forall b :: env.translate(b) == Success(MapSeq(f, b))
    ensures var d := Fallback(data, MapSeq(f, TitlesOf(data)));
      var items := Items(d, VariantOf(env, flow), env.parse);
      Run(data, env, flow) == Success(
        if AllTexts(items) == [] then d
        else ReinsertUpTo(d, ObjsFor(d, env, flow), AllRefs(items), MapSeq(f, AllTexts(items)), env.html, Chain(flow), |d|))
  {
    var tt := MapSeq(f, TitlesOf(data));
    var texts := TextsAfter(data, env, flow, tt);
    PointwiseTranslation(texts, f, env.translate);
    RunSuccess(data, env, flow, tt, TranslateAll(Chunks(texts, BATCH_SIZE), env.translate).value);
  }

  /** `RunPointwise` for the records as the title stage leaves them. */
  lemma PointwiseRecord(d: seq<Record>, env: Env, flow: Flow, finish: string -> string, f: string -> string, i: nat)
    requires forall s :: !IsBlank(s) ==> !IsBlank(f(s))
    requires !flow.Handler? && i < |d| && HasContent(d[i])
    requires AllTexts(Items(d, VariantOf(env, flow), env.parse)) != []
    ensures var items := Items(d, VariantOf(env, flow), env.parse);
      var p := Prepare(env.parse(d[i].content.value), env.html);
      var roots := FillDoc(p.roots, Group(AllRefs(items), MapSeq(f, AllTexts(items)), i), 0);
      && DocRefilled(p.roots, roots)
      && DocLeaves(roots) == MapSeq(f, DocLeaves(p.roots))
      && ReinsertUpTo(d, ObjsFor(d, env, flow), AllRefs(items), MapSeq(f, AllTexts(items)), env.html, finish, |d|)[i].content
         == Some(StyleBlock(p.style) + finish(env.html(roots)))
  {
    var items := Items(d, VariantOf(env, flow), env.parse);
    var texts := AllTexts(items);
    var p := Prepare(env.parse(d[i].content.value), env.html);
    ServiceRecord(d, env, flow, finish, MapSeq(f, texts), i);
    var group := Group(AllRefs(items), MapSeq(f, texts), i);
    RefillTranslates(items, f, i, p.roots);
    FillDocRefilled(p.roots, group, 0);
  }

  /** The texts extracted from a dataset depend on its contents only, not
      on its titles. */
  lemma ItemsIgnoreTitles(data: seq<Record>, d: seq<Record>, variant: Variant, parse: string -> seq<Node>)
    requires |d| == |data| && forall i | 0 <= i < |data| :: d[i].content == data[i].content
    ensures Items(d, variant, parse) == Items(data, variant, parse)
  {
    forall i | 0 <= i < |data| ensures Items(d, variant, parse)[i] == Items(data, variant, parse)[i] {
      ItemsAt(d, variant, parse, i);
      ItemsAt(data, variant, parse, i);
    }
  }
}
