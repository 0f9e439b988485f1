# Text-node translation pipeline

This project models the translation pipeline of an Apify/product data
translator. The pipeline takes a dataset of records `{ title, content }`,
where `content` is an HTML fragment, and runs these steps:

1. It sends every title to a translation endpoint. A title is replaced by its
   translation unless the answer is missing or empty.
2. It parses each record's content and walks the tree in pre-order. The walk
   collects the data of every non-blank text leaf into a flat list,
   `allTextNodes`. A parallel list, `nodeRefs`, records `{itemIdx, nodeIdx}`
   for each leaf.
3. It cuts that list into contiguous batches of at most 125 texts. It
   translates each batch and lays the answers end to end.
4. It regroups the answers per record in `nodeIdxMap`.
5. It writes each record's answers back into the same leaves, in the same
   order.
6. It serializes the tree, prefixes an indented `<style>` block and runs a
   fixed chain of case-sensitive tag rewrites.

The flow exists in three copies, all modelled here:

- `translateAndSaveApifyData` and `translateProductsWithoutSave` in
  `services/translateService.js`. Before walking, both strip `<style>`
  elements and unwrap `html`/`head`/`body`.
- The `/translate` handler in `translate.js`. Its preparation is commented
  out, and it never assigns `cheerioObjs`, so it translates the content
  texts but never writes them back.

The second service copy differs from the first in one rewrite. Its pattern
`/<br\/?/g` (line 343) lacks the closing `>`, so `<br>` becomes `<BR/>>`.
The first copy's `/<br\/?>/g` (line 169) gives `<BR/>`.

The modules follow the program's steps:

- `Dom`: the parsed tree and the leaves the walk sees.
- `Extract`: the preparation and the collecting walk.
- `Batching`: the slices and `Promise.all`.
- `Regroup`: `nodeIdxMap`.
- `Reinsert`: `replaceTextNodes`.
- `Markup`: the rewrite chains and the style block.
- `Titles`: the title fallback.
- `Pipeline`: the three flows end to end.

Parts the code changes in place are modelled as methods with loops:

- the collecting walk and the batching loop;
- the `nodeIdxMap` pushes and the reinsertion walk;
- the title loop and the record loop.

Each method is proved equal to a specification function. The properties are
proved about those functions.

Some things outside this code become parameters:

- The HTML parser is a function `string -> seq<Node>`.
- The serializer `$.root().html()` is a function `seq<Node> -> string`.
- The translation endpoint is a function from a batch to `Success(answers)`
  or `Failure(message)`. A `Failure` stands for a request that throws.

A tree is made of `Text(data)`, `Comment(data)` and `Element(name,
children)`. `Text(None)` is a leaf whose `data` was set to `undefined`.
`$.root().children()` yields element roots only, so a text or comment at the
top level is neither collected nor rewritten.

## Model

| member | source | states |
|---|---|---|
| Dom.NodeLeavesComplete | services/translateService.js:91-101 | a string is collected from a tree exactly when the tree has a non-blank text leaf with that data, untrimmed |
| Dom.DocLeavesNonBlank | services/translateService.js:92 | no whitespace-only text is ever collected (JS `trim` whitespace set) |
| Extract.CollectTextNodes | services/translateService.js:91-101 | the recursive walk appends the node's non-blank leaves in pre-order, one ref per leaf numbered on from `nodeIdx`, and advances `nodeIdx` by their count |
| Extract.CollectDocument | services/translateService.js:90-104 | the walk over a record's element roots appends its leaves and refs numbered from 0 |
| Extract.ExtractItem | services/translateService.js:59-105 | one record contributes its leaves and refs (none for falsy content), and its `cheerioObjs` slot holds the prepared tree in the service copy |
| Extract.ExtractTextNodes | services/translateService.js:55-108 | `allTextNodes`, `nodeRefs` and `cheerioObjs` are the record-by-record concatenation of what each record contributes, with one slot per record |
| Extract.ExtractTextNodesStandalone | translate.js:46-100 | the same walk on the unprepared tree, and `cheerioObjs` comes back empty |
| Extract.ItemsAt | services/translateService.js:59-104 | a record with falsy content contributes nothing; otherwise it contributes the leaves of its prepared tree in the service, and of the tree as parsed in translate.js |
| Extract.ObjsAt | services/translateService.js:85-88 | slot `i` of `cheerioObjs` belongs to record `i` and is a hole exactly when its content is falsy |
| Extract.PrepareSound | services/translateService.js:69-83 | after preparation no `style` element is left, and no `html`, `head` or `body` element is left unless it sat inside another element of the same name; the tree's text leaves, counting text left at the top level, are those of the style-stripped tree; with no styles the style text is empty |
| Extract.PrepareWithoutWrappers | services/translateService.js:69-83 | a tree with no `style`, `html`, `head` or `body` element comes out of preparation unchanged, with an empty style text |
| Extract.NestedWrapperKept | services/translateService.js:81-83 | `<body><body>t</body></body>` prepares to `<body>t</body>`: the nested `body` stays, and the walk collects `t` |
| Extract.BodyTextHidden | services/translateService.js:75-83 | text directly inside `body` is a leaf of the style-stripped tree, but unwrapping moves it to the top level, where the walk never collects it |
| Extract.RefsDescribeTexts | services/translateService.js:92-95 | `nodeRefs` and `allTextNodes` have equal length, and ref `j` names the record and the position of text `j` |
| Extract.RefsOrdered | services/translateService.js:59-104 | `itemIdx` never decreases along `nodeRefs` |
| Extract.RefsNumbered | services/translateService.js:90-95 | `nodeIdx` is 0 at each record's first ref and counts up by one within the record |
| Extract.RefsLocate | services/translateService.js:90-104 | text `k` of record `i` sits at the record's offset plus `k` in `allTextNodes`, and its ref is `{i, k}` |
| Batching.MakeBatches | services/translateService.js:128-132 | the batching loop yields exactly the contiguous 125-element slices |
| Batching.ChunksFlatten | services/translateService.js:129-132 | concatenating the slices gives back `allTextNodes` |
| Batching.ChunksSizes | services/translateService.js:128-131 | there are `ceil(L/125)` slices; all but the last are full, and none is empty |
| Batching.ChunksIndex | services/translateService.js:129-131 | text `j` travels in slice `j / 125` at position `j % 125` |
| Batching.TranslateAllSpec | services/translateService.js:133-134 | `Promise.all` fails exactly when some request fails; otherwise it holds one answer per batch, in batch order |
| Batching.FlattenAligned | services/translateService.js:133-135 | when each answer is as long as its batch, answer `j` of `results.flat()` is the answer at text `j`'s place in its batch |
| Batching.PointwiseTranslation | services/translateService.js:133-135 | if the endpoint answers each text by `f` of it, `translatedTextNodes[j]` is `f(allTextNodes[j])`, whatever the completion order |
| Regroup.BuildNodeIdxMap | services/translateService.js:137-141 | a key exists exactly for records with a ref, and under it are that record's entries in ref order |
| Regroup.NodeIdxMapContents | services/translateService.js:137-141 | `nodeIdxMap[i]` has as many entries as record `i` contributed texts; entry `k` carries the answer at that text's flat position, or `undefined` if the answers ran short |
| Reinsert.ReplaceTextNodes | services/translateService.js:148-157 | the in-place walk yields the refilled node and advances `textNodeIdx` by its number of non-blank leaves |
| Reinsert.ReplaceDocument | services/translateService.js:146-161 | walking the element roots from `textNodeIdx = 0` yields the refilled roots |
| Reinsert.FillDocRefilled | services/translateService.js:148-161 | reinsertion changes only the data of non-blank text leaves: shape, names, comments, blank text and non-element roots stay the same |
| Reinsert.FillDocIdentity | services/translateService.js:148-161 | writing back every leaf's own text leaves the tree unchanged |
| Reinsert.FillDocSlots | services/translateService.js:148-161 | leaf `j` of the refilled tree holds the text of entry `k + j`, `undefined` included, when the list reaches it, and keeps its old text otherwise |
| Reinsert.FillDocKeepingSlots | services/translateService.js:148-161 | with a guard that also skips `undefined` texts, leaf `j` takes entry `j`'s text when it is defined and keeps its old text otherwise |
| Reinsert.FillDocKeepingAgrees | services/translateService.js:150-151 | when every entry carries a defined text, the corrected guard and the guard as written give the same tree |
| Reinsert.FillDocLeaves | services/translateService.js:148-161 | when every leaf gets a non-blank entry, walking the result again collects exactly the written texts, in order |
| Markup.ReplaceWithoutMatch | services/translateService.js:164-181 | a global replace that finds no match returns its input |
| Markup.OtherTagsUnchanged | services/translateService.js:164-181 | markup with no `<` followed by `d`, `i`, `b`, `t`, `s` or `/` (in particular text without `<`) passes both chains unchanged |
| Markup.ChainsAgree | services/translateService.js:338-355 | the two chains agree on every input in which `<br` does not occur after the first four rewrites |
| Markup.BrRewrite | services/translateService.js:169 | `<br>` becomes `<BR/>` through the first chain but `<BR/>>` through the chain of line 343 |
| Markup.ImgCloseDeleted | services/translateService.js:168 | a closing `</img>` is deleted by both chains, and the text after it is kept |
| Markup.TrackUpperCased | services/translateService.js:176 | the rewrites match tag-name prefixes, so `<track` becomes `<TRack` |
| Markup.BareBoldOnly | services/translateService.js:170 | `<b>` matches only the bare tag, so `<bdi` passes both chains unchanged |
| Markup.NormaliseIdempotent | services/translateService.js:164-181 | for an input without `</img>`, the first chain's output holds none of its patterns, and running the chain on it again changes nothing |
| Markup.NormaliseProductsIdempotent | services/translateService.js:338-355 | the same for the second chain |
| Markup.BeforeClean | services/translateService.js:165-168 | for an input without `</img>`, none of the first four patterns is left after the first four rewrites |
| Markup.AfterClean | services/translateService.js:170-181 | none of the last twelve patterns is left after the last twelve rewrites, and no pattern of the chains' shape absent before them appears |
| Markup.RevealsDiv | services/translateService.js:165-168 | `<</img>div` followed by tag-free text comes out of both chains as `<div` and that text: deleting `</img>` after the `<div` rewrite forms a new `<div` |
| Markup.DivUpperCased | services/translateService.js:165 | `<div` followed by tag-free text comes out of both chains as `<DIV` and that text |
| Markup.NotIdempotent | services/translateService.js:164-181 | running the first chain twice on `<</img>div` followed by tag-free text differs from running it once |
| Markup.NotIdempotentProducts | services/translateService.js:338-355 | the same for the second chain |
| Markup.SplitJoin | services/translateService.js:163 | `join('\n')` after `split('\n')` gives the string back, and no piece holds a newline |
| Markup.JoinSplit | services/translateService.js:163 | splitting a join of newline-free lines gives the lines back |
| Markup.StyleBlockSpec | services/translateService.js:163 | the style block is empty exactly for an empty style; otherwise it is the opening line, each style line indented by eight spaces in order, then the closing line |
| Titles.ApplyTitles | services/translateService.js:121-123 | the in-place loop leaves the records the title fallback describes |
| Titles.FallbackAt | services/translateService.js:121-123 | record `i` keeps its content and takes `translatedTitles[i]` when that is a non-empty string, its old title otherwise |
| Titles.FallbackEcho | services/translateService.js:118-123 | answering every title with itself changes nothing |
| Titles.FallbackEmpty | translate.js:109-114 | an empty answer to the title request changes no title |
| Pipeline.TranslateBatches | services/translateService.js:133-134 | sending the batches one after the other gives what `Promise.all` gives: every answer in batch order, or the first failure |
| Pipeline.RewriteRecord | services/translateService.js:144-183 | one record is rewritten from its prepared tree and its `nodeIdxMap` list when its content is truthy and its `cheerioObjs` slot is set, and left alone otherwise |
| Pipeline.ReinsertContents | services/translateService.js:143-185 | the in-place record loop leaves each record as `RewriteRecord` makes it, all other slots being untouched until reached |
| Pipeline.TranslateAndSave | services/translateService.js:116-187 | a run updates the records in place to the run's outcome; on a failed request it reports that request's message, and the model's array then holds the titles as already translated; in the program that array is local and the exception propagates, so no caller sees it |
| Pipeline.ReinsertAt | services/translateService.js:143-185 | after the loop, record `i` depends only on record `i`, its `cheerioObjs` slot and its own `nodeIdxMap` list |
| Pipeline.GroupTranslates | services/translateService.js:137-141 | with a pointwise endpoint, entry `k` of record `i`'s list carries `f` of the record's `k`-th text |
| Pipeline.RefillTranslates | services/translateService.js:146-161 | with a pointwise endpoint that never returns blank for a non-blank text, the refilled tree's texts are `f` of its old texts, in order |
| Pipeline.RefillSlots | services/translateService.js:146-161 | leaf `k` of record `i`'s refilled tree holds the answer at the record's offset plus `k`, or `undefined` when the answers ran short |
| Pipeline.ShortAnswersUndefined | services/translateService.js:150-151 | as written, a leaf whose answer is missing has its data set to `undefined` |
| Pipeline.RefillKeeping | services/translateService.js:150-151 | with the corrected guard, a leaf takes its answer when there is one and keeps its text otherwise |
| Pipeline.RefillEchoes | services/translateService.js:146-161 | extracting and writing back the same texts leaves each record's tree unchanged |
| Pipeline.RunFailure | services/translateService.js:118-135 | a run fails exactly when the title request fails or, after it, one of the batch requests fails |
| Pipeline.RunTitles | services/translateService.js:118-123 | a successful run returns one record per record, titled by the fallback rule, and leaves records without content as they were |
| Pipeline.HandlerKeepsContents | translate.js:130-131 | the `/translate` handler never rewrites a content: its output is the input with only the titles translated |
| Pipeline.EchoRoundTrip | services/translateService.js:116-187 | with an endpoint that echoes its input, titles are kept; a content changes only by re-serialization, the style block and the rewrite chain, and only in the service copies when some record had text |
| Pipeline.RunPointwise | services/translateService.js:143-181 | with a pointwise endpoint and some record having text, record `i`'s new content is its style block plus the chain over a tree of the original shape whose texts, in document order, are `f` of the texts it had |

## Left out

- Cheerio's parser and serializer are function parameters. Their fidelity
  (entity decoding, self-closing tags, attribute case) is not modelled.
- `replaceWith($(this).html())` re-parses the serialized children. The
  model splices the children in place instead.
- `translateBatch` and `fetchApifyDataByUrl` make HTTP calls through
  node-fetch. A request is an abstract function whose `Failure` stands for
  a thrown error: a non-ok status, a body that is not JSON or a network
  error. Their messages are not modelled.
- A JSON answer without `translated_texts` is not modelled:
  `translateBatch` then returns `undefined` (services/translateService.js:52).
  For content, `results.flat()` would keep that one `undefined` in place of
  a whole batch and shift every later text. For titles, reading
  `translatedTitles[i]` would throw whenever the dataset is not empty.
- `pLimit(7)` and `Promise.all` concurrency are left out. Requests are sent
  one after the other, and the reported failure is that of the
  lowest-index failing batch. With real concurrency it would be the first to
  reject in time.
- In-place DOM mutation is modelled on values. Node identity and aliasing
  between the tree in `cheerioObjs` and the walk are not represented.
- `cheerioObjs` is a sparse JS array. Its holes are modelled as `None`, and
  its `length` is not modelled.
- The file I/O, backup files and `Date`-based file names are left out:
  `fs.*`, `generateOutputFileName`, `generateBackupFileName` and
  `createBackupFile`.
- The database and request handling are left out: Sequelize models and
  queries, `Product.update`, `getAllPages`, `getProductsByPageId`,
  `getAllProducts`, the controller and the Express setup.
- `translateProductsAndSave` (services/translateService.js:218-255) is a
  separate flow and is not modelled. It sends whole names and whole
  descriptions, HTML included, as two unbatched requests, and stores the
  answers with no fallback to the old values.
- The final `JSON.stringify` and response are left out. The model ends with
  the updated records.
- Pipeline.RunPointwise: requires that some record has a non-blank text.
  When none has, the run returns every content unchanged, and
  `EchoRoundTrip` and `RunSuccess` describe that case.
- Extract.PrepareSound: text placed directly inside `html`, `head` or
  `body` reaches the top level when they are unwrapped. The walk starts
  from element roots only, so that text is never collected or translated
  (`BodyTextHidden`). The model keeps this behaviour. An element nested in
  another of the same name is not unwrapped, because each pass selects its
  elements before it replaces any and the nested one is replaced only
  inside the detached outer copy (`NestedWrapperKept`); `PrepareSound`
  promises the absence of `html`, `head` and `body` only for trees without
  such nesting.
- Markup.NormaliseIdempotent: idempotence is proved only for inputs
  without `</img>`. Deleting `</img>` can join a `<` and a tag name into a
  pattern that an earlier rewrite has already passed (`NotIdempotent`).

## Findings

| source | as written | input that shows it | evidently intended | confidence | as-written member | corrected member |
|---|---|---|---|---|---|---|
| services/translateService.js:151 | `if (ref) node.data = ref.text` tests the entry, not its text, so a leaf whose answer is missing gets `undefined` as its data; the same line recurs at services/translateService.js:326 and translate.js:137 | a record `<p>Hi</p>` whose only batch is answered with an empty list | a leaf with no answer keeps its original text | not executed; medium | Pipeline.ShortAnswersUndefined | Pipeline.RefillKeeping |

The corrected walk is `Reinsert.FillDocKeeping`, and
`Pipeline.RefillKeeping` proves what it does. The pipeline model keeps the
walk as written (`Reinsert.FillDoc`), so that it matches what the three
copies do. By `Reinsert.FillDocKeepingAgrees` the two walks agree whenever
every answer is present. This covers every pipeline property proved here
for a pointwise endpoint.
