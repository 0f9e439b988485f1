/**
  The title fallback: every title is replaced by its translation unless the
  translation is missing or empty (lines 118-123 of
  services/translateService.js, 295-299 of the same file, 109-114 of
  translate.js).
*/
module Titles {
  import opened Extract
  import opened Batching

  /** `data.map(item => item.title)`: what the title request carries. */
  function TitlesOf(data: seq<Record>): seq<string> {
    MapSeq((r: Record) => r.title, data)
  }

  /** `translatedTitles[i] || title`: an answer that is missing (past the
      end) or empty (falsy) keeps the title. */
  function TitleAfter(title: string, tr: seq<string>, i: nat): string {
    if i < |tr| && tr[i] != "" then tr[i] else title
  }

  /** The first `n` records once the loop has passed them. */
  function FallbackUpTo(data: seq<Record>, tr: seq<string>, n: nat): (r: seq<Record>)
    requires n <= |data|
    ensures |r| == n
  {
    if n == 0 then []
    else FallbackUpTo(data, tr, n - 1) + [data[n - 1].(title := TitleAfter(data[n - 1].title, tr, n - 1))]
  }

  /** All records after the loop. */
  function Fallback(data: seq<Record>, tr: seq<string>): (r: seq<Record>)
    ensures |r| == |data|
  {
    FallbackUpTo(data, tr, |data|)
  }

  /** `data.forEach((item, i) => { item.title = translatedTitles[i] ||
      item.title; })`, updating the records in place. */
  method ApplyTitles(data: array<Record>, tr: seq<string>)
    modifies data
    ensures data[..] == Fallback(old(data[..]), tr)
  {
    ghost var orig := data[..];
    var i := 0;
    while i < data.Length
      invariant 0 <= i <= data.Length
      invariant data[..i] == FallbackUpTo(orig, tr, i)
      invariant forall j | i <= j < data.Length :: data[j] == orig[j]
    {
      data[i] := data[i].(title := TitleAfter(data[i].title, tr, i));
      assert data[..i + 1] == data[..i] + [data[i]];
      i := i + 1;
    }
    assert data[..] == data[..data.Length];
  }

  /** Record `i` keeps its content and takes `translatedTitles[i]` as its
      title when that is a non-empty string, its old title otherwise. */
  lemma {:induction false} FallbackAt(data: seq<Record>, tr: seq<string>, n: nat)
    requires n <= |data|
    ensures forall i | 0 <= i < n :: FallbackUpTo(data, tr, n)[i].content == data[i].content
    ensures forall i | 0 <= i < n ::
      FallbackUpTo(data, tr, n)[i].title == if i < |tr| && tr[i] != "" then tr[i] else data[i].title
  {
    if n > 0 {
      FallbackAt(data, tr, n - 1);
      var prev := FallbackUpTo(data, tr, n - 1);
      assert FallbackUpTo(data, tr, n) == prev + [data[n - 1].(title := TitleAfter(data[n - 1].title, tr, n - 1))];
      forall i | 0 <= i < n - 1 ensures FallbackUpTo(data, tr, n)[i] == prev[i] { }
    }
  }

  /** Answering every title with itself leaves the dataset as it was. */
  lemma FallbackEcho(data: seq<Record>)
    ensures Fallback(data, TitlesOf(data)) == data
  {
    MapSeqIndex((r: Record) => r.title, data);
    FallbackAt(data, TitlesOf(data), |data|);
    var r := Fallback(data, TitlesOf(data));
    forall i | 0 <= i < |data| ensures r[i] == data[i] {
      assert r[i].title == data[i].title && r[i].content == data[i].content;
    }
  }

  /** A title request answered with nothing at all changes no title. */
  lemma FallbackEmpty(data: seq<Record>)
    ensures Fallback(data, []) == data
  {
    FallbackAt(data, [], |data|);
    var r := Fallback(data, []);
    forall i | 0 <= i < |data| ensures r[i] == data[i] {
      assert r[i].title == data[i].title && r[i].content == data[i].content;
    }
  }
}
