/**
  Cutting `allTextNodes` into batches, translating every batch, and
  flattening the answers back into one list (lines 128-135 of
  services/translateService.js, 304-311 of the same file, 117-124 of
  translate.js).
*/
module Batching {
  import opened Wrappers

  /** `BATCH_SIZE`: the most texts one translation request carries. */
  const BATCH_SIZE: nat := 125

  /** The contiguous slices of `s`, each `size` long but the last. */
  function Chunks<T>(s: seq<T>, size: nat): seq<seq<T>>
    requires size > 0
    decreases |s|
  {
    if |s| == 0 then []
    else if |s| <= size then [s]
    else [s[..size]] + Chunks(s[size..], size)
  }

  /** `results.flat()`: the batches' answers laid end to end. */
  function Flatten<T>(ss: seq<seq<T>>): seq<T>
  {
    if ss == [] then [] else ss[0] + Flatten(ss[1..])
  }

  /** `array.map(f)` on a sequence. */
  function MapSeq<T, U>(f: T -> U, s: seq<T>): (r: seq<U>)
    ensures |r| == |s|
  {
    if s == [] then [] else [f(s[0])] + MapSeq(f, s[1..])
  }

  /** `promises = batches.map(... translateBatch(batch))` followed by
      `await Promise.all(promises)`: every answer in batch order, or a
      failure as soon as one request fails. */
  function TranslateAll<E>(batches: seq<seq<string>>,
                           translate: seq<string> -> Result<seq<string>, E>): Result<seq<seq<string>>, E>
  {
    if batches == [] then Success([])
    else
      match translate(batches[0])
      case Failure(e) => Failure(e)
      case Success(head) =>
        match TranslateAll(batches[1..], translate)
        case Failure(e) => Failure(e)
        case Success(rest) => Success([head] + rest)
  }

  /** The batching loop: `for (let i = 0; i < allTextNodes.length; i +=
      BATCH_SIZE) batches.push(allTextNodes.slice(i, i + BATCH_SIZE))`. */
  method MakeBatches<T>(texts: seq<T>) returns (batches: seq<seq<T>>)
    ensures batches == Chunks(texts, BATCH_SIZE)
  {
    batches := [];
    var i := 0;
    while i < |texts|
      invariant i % BATCH_SIZE == 0
      invariant i <= |texts| || |texts| <= i < |texts| + BATCH_SIZE
      invariant batches + Chunks(texts[Min(i, |texts|)..], BATCH_SIZE) == Chunks(texts, BATCH_SIZE)
    {
      var end := Min(i + BATCH_SIZE, |texts|);
      var rest := texts[i..];
      if |rest| <= BATCH_SIZE {
        assert rest[..] == texts[i..end];
        assert texts[end..] == [];
      } else {
        assert rest[..BATCH_SIZE] == texts[i..end] && rest[BATCH_SIZE..] == texts[end..];
      }
      assert Chunks(rest, BATCH_SIZE) == [texts[i..end]] + Chunks(texts[end..], BATCH_SIZE);
      batches := batches + [texts[i..end]];
      i := i + BATCH_SIZE;
    }
  }

  function Min(a: nat, b: nat): nat {
    if a <= b then a else b
  }

  /** No texts, no batches; some texts, some batches. */
  lemma ChunksEmpty<T>(s: seq<T>)
    ensures Chunks(s, BATCH_SIZE) == [] <==> s == []
  {
  }

  /** Laying the slices back end to end gives the list that was cut. */
  lemma {:induction false} ChunksFlatten<T>(s: seq<T>, size: nat)
    requires size > 0
    ensures Flatten(Chunks(s, size)) == s
    decreases |s|
  {
    if |s| > size {
      ChunksFlatten(s[size..], size);
      assert s == s[..size] + s[size..];
    }
  }

  /** `ceil(L / 125)` slices; every one but the last is full and none is
      empty, so no request is sent for an empty list. */
  lemma {:induction false} ChunksSizes<T>(s: seq<T>)
    ensures |Chunks(s, BATCH_SIZE)| == (|s| + BATCH_SIZE - 1) / BATCH_SIZE
    ensures forall i | 0 <= i < |Chunks(s, BATCH_SIZE)| - 1 :: |Chunks(s, BATCH_SIZE)[i]| == BATCH_SIZE
    ensures forall i | 0 <= i < |Chunks(s, BATCH_SIZE)| :: 0 < |Chunks(s, BATCH_SIZE)[i]| <= BATCH_SIZE
    decreases |s|
  {
    var c := Chunks(s, BATCH_SIZE);
    if |s| > BATCH_SIZE {
      var rest := Chunks(s[BATCH_SIZE..], BATCH_SIZE);
      ChunksSizes(s[BATCH_SIZE..]);
      assert c == [s[..BATCH_SIZE]] + rest;
      forall i | 0 <= i < |c| ensures 0 < |c[i]| <= BATCH_SIZE && (i < |c| - 1 ==> |c[i]| == BATCH_SIZE) {
        if i > 0 { assert c[i] == rest[i - 1]; }
      }
    }
  }

  /** Text `j` travels in slice `j / 125` at position `j % 125`. */
  lemma {:induction false} ChunksIndex<T>(s: seq<T>, j: nat)
    requires j < |s|
    ensures j / BATCH_SIZE < |Chunks(s, BATCH_SIZE)| && j % BATCH_SIZE < |Chunks(s, BATCH_SIZE)[j / BATCH_SIZE]|
    ensures Chunks(s, BATCH_SIZE)[j / BATCH_SIZE][j % BATCH_SIZE] == s[j]
    decreases |s|
  {
    if |s| > BATCH_SIZE && j >= BATCH_SIZE {
      ChunksIndex(s[BATCH_SIZE..], j - BATCH_SIZE);
    }
  }

  lemma {:induction false} FlattenAppend<T>(a: seq<seq<T>>, b: seq<seq<T>>)
    ensures Flatten(a + b) == Flatten(a) + Flatten(b)
    decreases |a|
  {
    if a == [] {
      assert a + b == b;
    } else {
      assert (a + b)[0] == a[0] && (a + b)[1..] == a[1..] + b;
      FlattenAppend(a[1..], b);
    }
  }

  lemma {:induction false} MapSeqAppend<T, U>(f: T -> U, a: seq<T>, b: seq<T>)
    ensures MapSeq(f, a + b) == MapSeq(f, a) + MapSeq(f, b)
    decreases |a|
  {
    if a == [] {
      assert a + b == b;
    } else {
      assert (a + b)[0] == a[0] && (a + b)[1..] == a[1..] + b;
      MapSeqAppend(f, a[1..], b);
    }
  }

  lemma {:induction false} MapSeqIndex<T, U>(f: T -> U, s: seq<T>)
    ensures forall j | 0 <= j < |s| :: MapSeq(f, s)[j] == f(s[j])
    decreases |s|
  {
    if s != [] {
      MapSeqIndex(f, s[1..]);
      forall j | 0 <= j < |s| ensures MapSeq(f, s)[j] == f(s[j]) {
        if j > 0 { assert MapSeq(f, s)[j] == MapSeq(f, s[1..])[j - 1]; }
      }
    }
  }

  /** `Promise.all` fails exactly when one of the requests fails, and
      otherwise yields one answer per batch, in batch order, whatever order
      the requests complete in. */
  lemma {:induction false} TranslateAllSpec<E>(batches: seq<seq<string>>,
                                              translate: seq<string> -> Result<seq<string>, E>)
    ensures TranslateAll(batches, translate).Failure? <==>
      exists i | 0 <= i < |batches| :: translate(batches[i]).Failure?
    ensures TranslateAll(batches, translate).Success? ==>
      |TranslateAll(batches, translate).value| == |batches| &&
      forall i | 0 <= i < |batches| :: translate(batches[i]) == Success(TranslateAll(batches, translate).value[i])
    decreases |batches|
  {
    if batches != [] {
      TranslateAllSpec(batches[1..], translate);
      var r := TranslateAll(batches, translate);
      if translate(batches[0]).Success? && TranslateAll(batches[1..], translate).Success? {
        var rest := TranslateAll(batches[1..], translate).value;
        assert r.value == [translate(batches[0]).value] + rest;
        forall i | 0 <= i < |batches| ensures translate(batches[i]) == Success(r.value[i]) {
          if i > 0 { assert batches[i] == batches[1..][i - 1]; }
        }
        forall i | 0 <= i < |batches| ensures translate(batches[i]).Success? {
          if i > 0 { assert batches[i] == batches[1..][i - 1]; }
        }
      } else if translate(batches[0]).Success? {
        var i :| 0 <= i < |batches[1..]| && translate(batches[1..][i]).Failure?;
        assert batches[1..][i] == batches[i + 1];
      }
    }
  }

  /** If every request answers each text by `f` of it, the flattened
      answers are `f` of `allTextNodes`, position by position. */
  lemma {:induction false} PointwiseTranslation<E>(texts: seq<string>, f: string -> string,
                                                   translate: seq<string> -> Result<seq<string>, E>)
    requires forall b :: translate(b) == Success(MapSeq(f, b))
    ensures TranslateAll(Chunks(texts, BATCH_SIZE), translate).Success?
    ensures Flatten(TranslateAll(Chunks(texts, BATCH_SIZE), translate).value) == MapSeq(f, texts)
    decreases |texts|
  {
    var c := Chunks(texts, BATCH_SIZE);
    if |texts| > BATCH_SIZE {
      PointwiseTranslation(texts[BATCH_SIZE..], f, translate);
      assert c == [texts[..BATCH_SIZE]] + Chunks(texts[BATCH_SIZE..], BATCH_SIZE);
      assert c[1..] == Chunks(texts[BATCH_SIZE..], BATCH_SIZE);
      MapSeqAppend(f, texts[..BATCH_SIZE], texts[BATCH_SIZE..]);
      assert texts == texts[..BATCH_SIZE] + texts[BATCH_SIZE..];
    } else if |texts| > 0 {
      assert c == [texts];
    }
  }

  /** When each request answers with as many texts as it was sent, answer
      `j` of `results.flat()` is what the request carrying text `j` said at
      that text's place in its batch. */
  lemma {:induction false} FlattenAligned<T, U>(s: seq<T>, rs: seq<seq<U>>)
    requires |rs| == |Chunks(s, BATCH_SIZE)|
    requires forall i | 0 <= i < |rs| :: |rs[i]| == |Chunks(s, BATCH_SIZE)[i]|
    ensures |Flatten(rs)| == |s|
    ensures forall j | 0 <= j < |s| ::
      j / BATCH_SIZE < |rs| && j % BATCH_SIZE < |rs[j / BATCH_SIZE]| &&
      Flatten(rs)[j] == rs[j / BATCH_SIZE][j % BATCH_SIZE]
    decreases |s|
  {
    var c := Chunks(s, BATCH_SIZE);
    if |s| > BATCH_SIZE {
      var tail := s[BATCH_SIZE..];
      assert c == [s[..BATCH_SIZE]] + Chunks(tail, BATCH_SIZE);
      forall i | 0 <= i < |rs[1..]| ensures |rs[1..][i]| == |Chunks(tail, BATCH_SIZE)[i]| {
        assert rs[1..][i] == rs[i + 1] && c[i + 1] == Chunks(tail, BATCH_SIZE)[i];
      }
      FlattenAligned(tail, rs[1..]);
      assert |rs[0]| == BATCH_SIZE;
      assert Flatten(rs) == rs[0] + Flatten(rs[1..]);
      forall j | 0 <= j < |s|
        ensures j / BATCH_SIZE < |rs| && j % BATCH_SIZE < |rs[j / BATCH_SIZE]|
        ensures Flatten(rs)[j] == rs[j / BATCH_SIZE][j % BATCH_SIZE]
      {
        if j >= BATCH_SIZE {
          var j' := j - BATCH_SIZE;
          assert j' / BATCH_SIZE == j / BATCH_SIZE - 1 && j' % BATCH_SIZE == j % BATCH_SIZE;
          assert Flatten(rs)[j] == Flatten(rs[1..])[j'];
          assert rs[1..][j' / BATCH_SIZE] == rs[j / BATCH_SIZE];
        }
      }
    } else if |s| > 0 {
      assert c == [s];
      assert Flatten(rs) == rs[0] + Flatten(rs[1..]) && rs[1..] == [];
    }
  }
}
