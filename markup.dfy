/**
  The text written back into `item.content`: the hoisted `<style>` block
  and the serialized tree run through a fixed chain of literal,
  case-sensitive, global `String.prototype.replace` calls (lines 163-183 of
  services/translateService.js, 337-356 of the same file, 150-167 of
  translate.js).
*/
module Markup {
  import opened Wrappers

  /** `p` occurs at the start of `s`. */
  predicate StartsWith(s: string, p: string) {
    |p| <= |s| && s[..|p|] == p
  }

  /** The alternative a regular expression such as `/<br\/?>/` matches at
      the start of `s`: the first of `pats` that fits, in the order the
      backtracking engine tries them. */
  function FirstMatch(s: string, pats: seq<string>): (r: Option<string>)
    ensures r.Some? ==> r.value in pats && StartsWith(s, r.value)
    ensures r.None? ==> forall p | p in pats :: !StartsWith(s, p)
  {
    if pats == [] then None
    else if StartsWith(s, pats[0]) then Some(pats[0])
    else FirstMatch(s, pats[1..])
  }

  /** `s.replace(/pats/g, rep)`: scanning left to right, every match is
      replaced and scanning resumes after it; elsewhere the text is copied. */
  function ReplaceAny(s: string, pats: seq<string>, rep: string): string
    requires forall p | p in pats :: p != ""
    decreases |s|
  {
    if s == [] then []
    else
      match FirstMatch(s, pats)
      case Some(p) => rep + ReplaceAny(s[|p|..], pats, rep)
      case None => [s[0]] + ReplaceAny(s[1..], pats, rep)
  }

  /** `s.replace(/pat/g, rep)` for a pattern with a single spelling. */
  function ReplaceAll(s: string, pat: string, rep: string): string
    requires pat != ""
  {
    ReplaceAny(s, [pat], rep)
  }

  /** The four rewrites before the `<br` one (lines 165-168 of
      services/translateService.js). */
  function Before(s: string): string {
    var s := ReplaceAll(s, "<div", "<DIV");
    var s := ReplaceAll(s, "</div>", "</DIV>");
    var s := ReplaceAll(s, "<img", "<IMG");
    ReplaceAll(s, "</img>", "")
  }

  /** The twelve rewrites after the `<br` one (lines 170-181). */
  function After(s: string): string {
    var s := ReplaceAll(s, "<b>", "<B>");
    var s := ReplaceAll(s, "</b>", "</B>");
    var s := ReplaceAll(s, "<table", "<TABLE");
    var s := ReplaceAll(s, "</table>", "</TABLE>");
    var s := ReplaceAll(s, "<tbody", "<TBODY");
    var s := ReplaceAll(s, "</tbody>", "</TBODY>");
    var s := ReplaceAll(s, "<tr", "<TR");
    var s := ReplaceAll(s, "</tr>", "</TR>");
    var s := ReplaceAll(s, "<td", "<TD");
    var s := ReplaceAll(s, "</td>", "</TD>");
    var s := ReplaceAll(s, "<span", "<SPAN");
    ReplaceAll(s, "</span>", "</SPAN>")
  }

  /** `/<br\/?>/g`: `<br/>` is tried before `<br>`. */
  const ClosedBr: seq<string> := ["<br/>", "<br>"]

  /** `/<br\/?/g` at line 343: `<br/` is tried before `<br`. */
  const OpenBr: seq<string> := ["<br/", "<br"]

  /** The chain of lines 164-181 of services/translateService.js and
      150-167 of translate.js. */
  function Normalise(s: string): string {
    After(ReplaceAny(Before(s), ClosedBr, "<BR/>"))
  }

  /** The chain of lines 338-355 of services/translateService.js. */
  function NormaliseProducts(s: string): string {
    After(ReplaceAny(Before(s), OpenBr, "<BR/>"))
  }

  /** `p` occurs nowhere in `s`. */
  predicate Absent(s: string, p: string)
    decreases |s|
  {
    s == [] || (!StartsWith(s, p) && Absent(s[1..], p))
  }

  /** `Absent` holds exactly when no position of `s` starts with `p`. */
  lemma {:induction false} AbsentSpec(s: string, p: string)
    ensures Absent(s, p) <==> forall j | 0 <= j < |s| :: !StartsWith(s[j..], p)
    decreases |s|
  {
    if s != [] {
      AbsentSpec(s[1..], p);
      assert s[0..] == s;
      if Absent(s, p) {
        forall j | 0 <= j < |s| ensures !StartsWith(s[j..], p) {
          if j > 0 { assert s[1..][j - 1..] == s[j..]; }
        }
      }
      if forall j | 0 <= j < |s| :: !StartsWith(s[j..], p) {
        forall j | 0 <= j < |s[1..]| ensures !StartsWith(s[1..][j..], p) {
          assert s[1..][j..] == s[j + 1..];
        }
      }
    }
  }

  /** No `<` of `s` is followed by one of `cs`: a tag-opening pattern whose
      second character is in `cs` cannot occur in `s`. */
  predicate NoOpening(s: string, cs: set<char>)
    decreases |s|
  {
    |s| < 2 || ((s[0] != '<' || s[1] !in cs) && NoOpening(s[1..], cs))
  }

  lemma {:induction false} NoOpeningSubset(s: string, cs: set<char>, ds: set<char>)
    requires NoOpening(s, cs) && ds <= cs
    ensures NoOpening(s, ds)
    decreases |s|
  {
    if |s| >= 2 {
      NoOpeningSubset(s[1..], cs, ds);
    }
  }

  lemma {:induction false} AbsentByOpening(s: string, p: string, cs: set<char>)
    requires |p| >= 2 && p[0] == '<' && p[1] in cs && NoOpening(s, cs)
    ensures Absent(s, p)
    decreases |s|
  {
    if s != [] {
      AbsentByOpening(s[1..], p, cs);
    }
  }

  /** A pattern is absent wherever a prefix of it is. */
  lemma {:induction false} AbsentLonger(s: string, p: string, q: string)
    requires Absent(s, p) && StartsWith(q, p)
    ensures Absent(s, q)
    decreases |s|
  {
    if s != [] {
      AbsentLonger(s[1..], p, q);
    }
  }

  /** A replace that finds nothing returns its input. */
  lemma {:induction false} ReplaceWithoutMatch(s: string, pats: seq<string>, rep: string)
    requires forall p | p in pats :: p != ""
    requires forall p | p in pats :: Absent(s, p)
    ensures ReplaceAny(s, pats, rep) == s
    decreases |s|
  {
    if s != [] {
      assert FirstMatch(s, pats) == None;
      ReplaceWithoutMatch(s[1..], pats, rep);
      assert s == [s[0]] + s[1..];
    }
  }

  lemma Untouched(s: string, pat: string, rep: string, cs: set<char>)
    requires |pat| >= 2 && pat[0] == '<' && pat[1] in cs && NoOpening(s, cs)
    ensures ReplaceAll(s, pat, rep) == s
  {
    AbsentByOpening(s, pat, cs);
    ReplaceWithoutMatch(s, [pat], rep);
  }

  /** Text in which no `<` is followed by `d`, `i` or `/` passes the first
      four rewrites unchanged. */
  lemma BeforeUnchanged(s: string)
    requires NoOpening(s, {'d', 'i', '/'})
    ensures Before(s) == s
  {
    var cs := {'d', 'i', '/'};
    Untouched(s, "<div", "<DIV", cs);
    Untouched(s, "</div>", "</DIV>", cs);
    Untouched(s, "<img", "<IMG", cs);
    Untouched(s, "</img>", "", cs);
  }

  /** Text in which no `<` is followed by `b`, `t`, `s` or `/` passes the
      last twelve rewrites unchanged. */
  lemma AfterUnchanged(s: string)
    requires NoOpening(s, {'b', 't', 's', '/'})
    ensures After(s) == s
  {
    var cs := {'b', 't', 's', '/'};
    Untouched(s, "<b>", "<B>", cs);
    Untouched(s, "</b>", "</B>", cs);
    Untouched(s, "<table", "<TABLE", cs);
    Untouched(s, "</table>", "</TABLE>", cs);
    Untouched(s, "<tbody", "<TBODY", cs);
    Untouched(s, "</tbody>", "</TBODY>", cs);
    Untouched(s, "<tr", "<TR", cs);
    Untouched(s, "</tr>", "</TR>", cs);
    Untouched(s, "<td", "<TD", cs);
    Untouched(s, "</td>", "</TD>", cs);
    Untouched(s, "<span", "<SPAN", cs);
    Untouched(s, "</span>", "</SPAN>", cs);
  }

  /** Markup none of whose tags the chains name (no `<` followed by `d`,
      `i`, `b`, `t`, `s` or `/`), and in particular text with no `<` at all,
      comes out of both chains unchanged. */
  lemma OtherTagsUnchanged(s: string)
    requires NoOpening(s, {'d', 'i', 'b', 't', 's', '/'})
    ensures Normalise(s) == s && NormaliseProducts(s) == s
  {
    var cs := {'d', 'i', 'b', 't', 's', '/'};
    NoOpeningSubset(s, cs, {'d', 'i', '/'});
    NoOpeningSubset(s, cs, {'b', 't', 's', '/'});
    BeforeUnchanged(s);
    AbsentByOpening(s, "<br/>", cs);
    AbsentByOpening(s, "<br>", cs);
    AbsentByOpening(s, "<br/", cs);
    AbsentByOpening(s, "<br", cs);
    ReplaceWithoutMatch(s, ClosedBr, "<BR/>");
    ReplaceWithoutMatch(s, OpenBr, "<BR/>");
    AfterUnchanged(s);
  }

  /** A text in which `<br` does not occur once the first four rewrites have
      run goes through both chains alike: the two copies differ only in the
      `<br` rewrite. */
  lemma ChainsAgree(s: string)
    requires Absent(Before(s), "<br")
    ensures Normalise(s) == NormaliseProducts(s)
  {
    var t := Before(s);
    AbsentLonger(t, "<br", "<br/>");
    AbsentLonger(t, "<br", "<br>");
    AbsentLonger(t, "<br", "<br/");
    ReplaceWithoutMatch(t, ClosedBr, "<BR/>");
    ReplaceWithoutMatch(t, OpenBr, "<BR/>");
  }

  /** `<br>` becomes `<BR/>` through the first chain, but `<BR/>>` through
      the second one, whose pattern stops before the `>`. */
  lemma BrRewrite()
    ensures Normalise("<br>") == "<BR/>"
    ensures NormaliseProducts("<br>") == "<BR/>>"
  {
    BrBefore();
    BrClosed();
    BrOpen();
    BrAfterClosed();
    BrAfterOpen();
  }

  lemma BrBefore()
    ensures Before("<br>") == "<br>"
  {
    BeforeUnchanged("<br>");
  }

  lemma BrAfterClosed()
    ensures After("<BR/>") == "<BR/>"
  {
    AfterUnchanged("<BR/>");
  }

  lemma BrAfterOpen()
    ensures After("<BR/>>") == "<BR/>>"
  {
    AfterUnchanged("<BR/>>");
  }

  lemma BrClosed()
    ensures ReplaceAny("<br>", ClosedBr, "<BR/>") == "<BR/>"
  {
    assert !StartsWith("<br>", "<br/>");
    assert StartsWith("<br>", "<br>") by { assert "<br>"[..4] == "<br>"; }
    assert ClosedBr[1..] == ["<br>"];
    assert FirstMatch("<br>", ClosedBr) == Some("<br>");
  }

  lemma BrOpen()
    ensures ReplaceAny("<br>", OpenBr, "<BR/>") == "<BR/>>"
  {
    assert !StartsWith("<br>", "<br/") by { assert "<br>"[..4][3] != "<br/"[3]; }
    assert StartsWith("<br>", "<br") by { assert "<br>"[..3] == "<br"; }
    assert OpenBr[1..] == ["<br"];
    assert FirstMatch("<br>", OpenBr) == Some("<br");
    assert "<br>"[3..] == ">";
  }

  /** A pattern whose first character `s` lacks is absent from `s`. */
  lemma {:induction false} AbsentOpening(s: string, p: string)
    requires p != [] && p[0] !in s
    ensures Absent(s, p)
    decreases |s|
  {
    if s != [] {
      assert s[0] in s;
      assert forall x | x in s[1..] :: x in s;
      AbsentOpening(s[1..], p);
    }
  }

  /** Text with no `<` has no tag opening at all. */
  lemma {:induction false} NoOpeningWithoutTag(s: string, cs: set<char>)
    requires '<' !in s
    ensures NoOpening(s, cs)
    decreases |s|
  {
    if |s| >= 2 {
      assert s[0] in s;
      assert forall x | x in s[1..] :: x in s;
      NoOpeningWithoutTag(s[1..], cs);
    }
  }

  /** `<` followed by tag-free text `t` is left alone by a rewrite of a
      `<`-pattern that differs from it at position `k`. */
  lemma KeepSingle(t: string, pat: string, rep: string, k: nat)
    requires '<' !in t && pat != [] && pat[0] == '<'
    requires 0 < k < |pat| && (k - 1 < |t| ==> t[k - 1] != pat[k])
    ensures ReplaceAll("<" + t, pat, rep) == "<" + t
  {
    AbsentSingle(t, pat, k);
    ReplaceWithoutMatch("<" + t, [pat], rep);
  }

  /** `<` followed by tag-free text `t` lacks a `<`-pattern that differs
      from it at position `k`. */
  lemma AbsentSingle(t: string, pat: string, k: nat)
    requires '<' !in t && pat != [] && pat[0] == '<'
    requires 0 < k < |pat| && (k - 1 < |t| ==> t[k - 1] != pat[k])
    ensures Absent("<" + t, pat)
  {
    var s := "<" + t;
    assert s[1..] == t;
    if |pat| <= |s| {
      assert s[..|pat|][k] == s[k] == t[k - 1];
    }
    AbsentOpening(t, pat);
  }

  /** Tag-free text passes the `<br` rewrite and the last twelve. */
  lemma TagFreeTail(t: string)
    requires '<' !in t
    ensures After(ReplaceAny(t, ClosedBr, "<BR/>")) == t
    ensures After(ReplaceAny(t, OpenBr, "<BR/>")) == t
  {
    AbsentOpening(t, "<br/>");
    AbsentOpening(t, "<br>");
    AbsentOpening(t, "<br/");
    AbsentOpening(t, "<br");
    ReplaceWithoutMatch(t, ClosedBr, "<BR/>");
    ReplaceWithoutMatch(t, OpenBr, "<BR/>");
    NoOpeningWithoutTag(t, {'b', 't', 's', '/'});
    AfterUnchanged(t);
  }

  lemma ImgCloseBefore(t: string)
    requires '<' !in t
    ensures Before("</img>" + t) == t
  {
    var u := "/img>" + t;
    assert '<' !in u && "</img>" + t == "<" + u && u[0] == '/';
    KeepSingle(u, "<div", "<DIV", 1);
    KeepSingle(u, "</div>", "</DIV>", 2);
    KeepSingle(u, "<img", "<IMG", 1);
    assert ("<" + u)[..6] == "</img>" && ("<" + u)[6..] == t;
    assert FirstMatch("<" + u, ["</img>"]) == Some("</img>");
    AbsentOpening(t, "</img>");
    ReplaceWithoutMatch(t, ["</img>"], "");
  }

  /** A closing `</img>` is dropped by both chains, and the text after it
      kept. */
  lemma ImgCloseDeleted(t: string)
    requires '<' !in t
    ensures Normalise("</img>" + t) == t
    ensures NormaliseProducts("</img>" + t) == t
  {
    ImgCloseBefore(t);
    TagFreeTail(t);
  }

  /** The last twelve rewrites on `<track` followed by tag-free text: the
      `<tr` rewrite matches the longer tag name. */
  lemma TrackAfter(t: string)
    requires '<' !in t
    ensures After("<track" + t) == "<TRack" + t
  {
    TrackKept(t);
    TrackTr(t);
    TrackUpperKept(t);
  }

  lemma TrackKept(t: string)
    requires '<' !in t
    ensures var s := "<track" + t;
      && ReplaceAll(s, "<b>", "<B>") == s && ReplaceAll(s, "</b>", "</B>") == s
      && ReplaceAll(s, "<table", "<TABLE") == s && ReplaceAll(s, "</table>", "</TABLE>") == s
      && ReplaceAll(s, "<tbody", "<TBODY") == s && ReplaceAll(s, "</tbody>", "</TBODY>") == s
  {
    var u := "track" + t;
    assert '<' !in u && "<track" + t == "<" + u && u[0] == 't' && u[1] == 'r';
    KeepSingle(u, "<b>", "<B>", 1);
    KeepSingle(u, "</b>", "</B>", 1);
    KeepSingle(u, "<table", "<TABLE", 2);
    KeepSingle(u, "</table>", "</TABLE>", 1);
    KeepSingle(u, "<tbody", "<TBODY", 2);
    KeepSingle(u, "</tbody>", "</TBODY>", 1);
  }

  lemma TrackTr(t: string)
    requires '<' !in t
    ensures ReplaceAll("<track" + t, "<tr", "<TR") == "<TRack" + t
  {
    var s := "<track" + t;
    var u := "ack" + t;
    assert ReplaceAll(s, "<tr", "<TR") == "<TR" + ReplaceAll(u, "<tr", "<TR") by {
      assert s[..3] == "<tr" && s[3..] == u;
      assert FirstMatch(s, ["<tr"]) == Some("<tr");
    }
    AbsentOpening(u, "<tr");
    ReplaceWithoutMatch(u, ["<tr"], "<TR");
    assert "<TR" + u == "<TRack" + t;
  }

  lemma TrackUpperKept(t: string)
    requires '<' !in t
    ensures var s := "<TRack" + t;
      && ReplaceAll(s, "</tr>", "</TR>") == s && ReplaceAll(s, "<td", "<TD") == s
      && ReplaceAll(s, "</td>", "</TD>") == s && ReplaceAll(s, "<span", "<SPAN") == s
      && ReplaceAll(s, "</span>", "</SPAN>") == s
  {
    var v := "TRack" + t;
    assert '<' !in v && "<TRack" + t == "<" + v && v[0] == 'T';
    KeepSingle(v, "</tr>", "</TR>", 1);
    KeepSingle(v, "<td", "<TD", 1);
    KeepSingle(v, "</td>", "</TD>", 1);
    KeepSingle(v, "<span", "<SPAN", 1);
    KeepSingle(v, "</span>", "</SPAN>", 1);
  }

  /** The rewrites match tag-name prefixes: `<track` is upper-cased as if it
      were `<tr`. */
  lemma TrackUpperCased(t: string)
    requires '<' !in t
    ensures Normalise("<track" + t) == "<TRack" + t
    ensures NormaliseProducts("<track" + t) == "<TRack" + t
  {
    TrackBeforeBr(t);
    TrackAfter(t);
  }

  lemma TrackBeforeBr(t: string)
    requires '<' !in t
    ensures var s := "<track" + t;
      && Before(s) == s && ReplaceAny(s, ClosedBr, "<BR/>") == s && ReplaceAny(s, OpenBr, "<BR/>") == s
  {
    var s := "<track" + t;
    var u := "track" + t;
    assert '<' !in u && s == "<" + u;
    NoOpeningWithoutTag(u, {'d', 'i', 'b', '/'});
    assert NoOpening(s, {'d', 'i', 'b', '/'});
    NoOpeningSubset(s, {'d', 'i', 'b', '/'}, {'d', 'i', '/'});
    BeforeUnchanged(s);
    AbsentByOpening(s, "<br/>", {'d', 'i', 'b', '/'});
    AbsentByOpening(s, "<br>", {'d', 'i', 'b', '/'});
    AbsentByOpening(s, "<br/", {'d', 'i', 'b', '/'});
    AbsentByOpening(s, "<br", {'d', 'i', 'b', '/'});
    ReplaceWithoutMatch(s, ClosedBr, "<BR/>");
    ReplaceWithoutMatch(s, OpenBr, "<BR/>");
  }

  /** `<b>` matches only the bare tag: `<bdi` followed by tag-free text
      passes both chains unchanged. */
  lemma BareBoldOnly(t: string)
    requires '<' !in t
    ensures Normalise("<bdi" + t) == "<bdi" + t
    ensures NormaliseProducts("<bdi" + t) == "<bdi" + t
  {
    var s := "<bdi" + t;
    var u := "bdi" + t;
    assert '<' !in u && s == "<" + u && u[0] == 'b' && u[1] == 'd';
    NoOpeningWithoutTag(u, {'d', 'i', 't', 's', '/'});
    assert NoOpening(s, {'d', 'i', 't', 's', '/'});
    NoOpeningSubset(s, {'d', 'i', 't', 's', '/'}, {'d', 'i', '/'});
    BeforeUnchanged(s);
    AbsentSingle(u, "<br/>", 2);
    AbsentSingle(u, "<br>", 2);
    AbsentSingle(u, "<br/", 2);
    AbsentSingle(u, "<br", 2);
    ReplaceWithoutMatch(s, ClosedBr, "<BR/>");
    ReplaceWithoutMatch(s, OpenBr, "<BR/>");
    BareBoldAfter(t);
  }

  lemma BareBoldAfter(t: string)
    requires '<' !in t
    ensures After("<bdi" + t) == "<bdi" + t
  {
    var s := "<bdi" + t;
    var u := "bdi" + t;
    assert '<' !in u && s == "<" + u && u[0] == 'b' && u[1] == 'd';
    KeepSingle(u, "<b>", "<B>", 2);
    KeepSingle(u, "</b>", "</B>", 1);
    KeepSingle(u, "<table", "<TABLE", 1);
    KeepSingle(u, "</table>", "</TABLE>", 1);
    KeepSingle(u, "<tbody", "<TBODY", 1);
    KeepSingle(u, "</tbody>", "</TBODY>", 1);
    KeepSingle(u, "<tr", "<TR", 1);
    KeepSingle(u, "</tr>", "</TR>", 1);
    KeepSingle(u, "<td", "<TD", 1);
    KeepSingle(u, "</td>", "</TD>", 1);
    KeepSingle(u, "<span", "<SPAN", 1);
    KeepSingle(u, "</span>", "</SPAN>", 1);
  }

  /** `.split('\n')`: the pieces between separators; always at least one. */
  function Split(s: string, c: char): (parts: seq<string>)
    ensures |parts| >= 1
    decreases |s|
  {
    if s == [] then [[]]
    else
      var rest := Split(s[1..], c);
      if s[0] == c then [[]] + rest else [[s[0]] + rest[0]] + rest[1..]
  }

  /** `.join('\n')`. */
  function Join(parts: seq<string>, c: char): string
    requires |parts| >= 1
    decreases |parts|
  {
    if |parts| == 1 then parts[0] else parts[0] + [c] + Join(parts[1..], c)
  }

  /** Joining the pieces gives back the string that was split, and no piece
      holds the separator. */
  lemma {:induction false} SplitJoin(s: string, c: char)
    ensures Join(Split(s, c), c) == s
    ensures forall i | 0 <= i < |Split(s, c)| :: c !in Split(s, c)[i]
    decreases |s|
  {
    if s != [] {
      var rest := Split(s[1..], c);
      SplitJoin(s[1..], c);
      var parts := Split(s, c);
      if s[0] == c {
        assert parts == [[]] + rest;
        assert parts[1..] == rest;
        forall i | 0 <= i < |parts| ensures c !in parts[i] {
          if i > 0 { assert parts[i] == rest[i - 1]; }
        }
      } else {
        assert parts == [[s[0]] + rest[0]] + rest[1..];
        if |rest| == 1 {
          assert Join(parts, c) == [s[0]] + rest[0];
        } else {
          assert parts[1..] == rest[1..];
          assert Join(rest, c) == rest[0] + [c] + Join(rest[1..], c);
        }
        assert s == [s[0]] + s[1..];
        forall i | 0 <= i < |parts| ensures c !in parts[i] {
          if i > 0 { assert parts[i] == rest[i]; }
          else { assert c !in rest[0]; }
        }
      }
    }
  }

  /** Splitting a join of separator-free pieces gives the pieces back. */
  lemma {:induction false} JoinSplit(parts: seq<string>, c: char)
    requires |parts| >= 1
    requires forall i | 0 <= i < |parts| :: c !in parts[i]
    ensures Split(Join(parts, c), c) == parts
    decreases |parts|
  {
    if |parts| == 1 {
      SplitFree(parts[0], c);
    } else {
      forall i | 0 <= i < |parts[1..]| ensures c !in parts[1..][i] {
        assert parts[1..][i] == parts[i + 1];
      }
      JoinSplit(parts[1..], c);
      SplitPrefix(parts[0], c, Join(parts[1..], c));
      assert parts == [parts[0]] + parts[1..];
    }
  }

  /** A string without the separator splits into itself. */
  lemma {:induction false} SplitFree(s: string, c: char)
    requires c !in s
    ensures Split(s, c) == [s]
    decreases |s|
  {
    if s != [] {
      assert s[1..] == s[1..] && forall x | x in s[1..] :: x in s;
      SplitFree(s[1..], c);
      assert s == [s[0]] + s[1..];
    }
  }

  /** A separator-free piece followed by the separator splits off first. */
  lemma {:induction false} SplitPrefix(p: string, c: char, t: string)
    requires c !in p
    ensures Split(p + [c] + t, c) == [p] + Split(t, c)
    decreases |p|
  {
    var s := p + [c] + t;
    if p == [] {
      assert s == [c] + t && s[1..] == t;
    } else {
      assert s[0] == p[0] && s[1..] == p[1..] + [c] + t;
      assert forall x | x in p[1..] :: x in p;
      SplitPrefix(p[1..], c, t);
      assert p == [p[0]] + p[1..];
    }
  }

  /** `.map(line => '        ' + line)`. */
  function Indent(lines: seq<string>): (r: seq<string>)
    ensures |r| == |lines|
    decreases |lines|
  {
    if lines == [] then [] else ["        " + lines[0]] + Indent(lines[1..])
  }

  lemma {:induction false} IndentIndex(lines: seq<string>)
    ensures forall i | 0 <= i < |lines| :: Indent(lines)[i] == "        " + lines[i]
    decreases |lines|
  {
    if lines != [] {
      IndentIndex(lines[1..]);
      forall i | 0 <= i < |lines| ensures Indent(lines)[i] == "        " + lines[i] {
        if i > 0 { assert Indent(lines)[i] == Indent(lines[1..])[i - 1]; }
      }
    }
  }

  /** `formattedStyle`. */
  function StyleBlock(style: string): string {
    if style == "" then ""
    else "    <style>\n" + Join(Indent(Split(style, '\n')), '\n') + "\n    </style>\n"
  }

  /** The block is empty exactly for an empty style. Otherwise it is the
      opening line, then one line per line of the style, in order, each
      indented by eight spaces, then the closing line. */
  lemma StyleBlockSpec(style: string)
    ensures StyleBlock(style) == "" <==> style == ""
    ensures style != "" ==>
      var body := Join(Indent(Split(style, '\n')), '\n');
      && StyleBlock(style) == "    <style>\n" + body + "\n    </style>\n"
      && |Split(body, '\n')| == |Split(style, '\n')|
      && forall i | 0 <= i < |Split(body, '\n')| ::
           Split(body, '\n')[i] == "        " + Split(style, '\n')[i]
  {
    if style != "" {
      var lines := Split(style, '\n');
      SplitJoin(style, '\n');
      IndentIndex(lines);
      forall i | 0 <= i < |Indent(lines)| ensures '\n' !in Indent(lines)[i] {
        assert Indent(lines)[i] == "        " + lines[i];
        assert forall x | x in "        " :: x == ' ';
      }
      JoinSplit(Indent(lines), '\n');
    }
  }

  predicate IsLower(c: char) {
    'a' <= c <= 'z'
  }

  /** The shape of every pattern of the chains: `<`, then a lower-case tag
      name or `/` and a lower-case tag name, and no other `<`. */
  predicate TagPattern(q: string) {
    && |q| >= 2 && q[0] == '<'
    && (forall i | 1 <= i < |q| :: q[i] != '<')
    && (if q[1] == '/' then |q| >= 3 && IsLower(q[2]) else IsLower(q[1]))
  }

  /** The shape of every non-empty replacement of the chains: `<`, then an
      upper-case tag name or `/` and an upper-case tag name, and no other
      `<`. */
  predicate TagReplacement(r: string) {
    && |r| >= 2 && r[0] == '<'
    && (forall i | 1 <= i < |r| :: r[i] != '<')
    && (if r[1] == '/' then |r| >= 3 && !IsLower(r[2]) else !IsLower(r[1]))
  }

  /** A suffix of a text lacking `p` lacks it too. */
  lemma {:induction false} AbsentSuffix(s: string, p: string, n: nat)
    requires Absent(s, p) && n <= |s|
    ensures Absent(s[n..], p)
    decreases n
  {
    if n > 0 {
      AbsentSuffix(s[1..], p, n - 1);
      assert s[1..][n - 1..] == s[n..];
    }
  }

  /** Text without `<` put in front of a text lacking a `<`-pattern does not
      create it. */
  lemma {:induction false} AbsentAfterPlain(x: string, rest: string, q: string)
    requires Absent(rest, q) && q != [] && q[0] == '<'
    requires forall i | 0 <= i < |x| :: x[i] != '<'
    ensures Absent(x + rest, q)
    decreases |x|
  {
    if x == [] {
      assert x + rest == rest;
    } else {
      var s := x + rest;
      assert s[0] == x[0] && s[1..] == x[1..] + rest;
      if |q| <= |s| {
        assert s[..|q|][0] == x[0];
      }
      AbsentAfterPlain(x[1..], rest, q);
    }
  }

  /** A replacement put in front of a text lacking a pattern does not
      create it: the pattern cannot start at the replacement's `<`. */
  lemma AbsentAfterReplacement(rep: string, rest: string, q: string)
    requires TagPattern(q) && TagReplacement(rep) && Absent(rest, q)
    ensures Absent(rep + rest, q)
  {
    var s := rep + rest;
    assert s[1..] == rep[1..] + rest;
    AbsentAfterPlain(rep[1..], rest, q);
    if |q| <= |s| {
      assert s[..|q|][1] == rep[1];
      if q[1] == '/' && rep[1] == '/' {
        assert s[..|q|][2] == rep[2];
      }
    }
  }

  /** The first character of a rewritten text: the replacement's when a
      pattern matches at the start, the input's own otherwise. */
  lemma ReplaceHead(u: string, pats: seq<string>, rep: string)
    requires forall p | p in pats :: p != ""
    requires u != [] && rep != []
    ensures var r := ReplaceAny(u, pats, rep);
      r != [] && r[0] == (if FirstMatch(u, pats).Some? then rep[0] else u[0])
  {
  }

  /** A rewrite whose replacement starts with `<` keeps any `<`-free
      prefix: whatever it produces there was already in its input. */
  lemma {:induction false} PlainPrefixKept(u: string, pats: seq<string>, rep: string, w: string)
    requires forall p | p in pats :: p != ""
    requires rep != [] && rep[0] == '<'
    requires forall i | 0 <= i < |w| :: w[i] != '<'
    requires StartsWith(ReplaceAny(u, pats, rep), w)
    ensures StartsWith(u, w)
    decreases |u|
  {
    var r := ReplaceAny(u, pats, rep);
    if w != [] && u != [] {
      ReplaceHead(u, pats, rep);
      match FirstMatch(u, pats) {
        case Some(p) =>
        case None =>
          var r' := ReplaceAny(u[1..], pats, rep);
          assert r == [u[0]] + r';
          assert r[..|w|] == [u[0]] + r'[..|w| - 1];
          assert w == [w[0]] + w[1..];
          PlainPrefixKept(u[1..], pats, rep, w[1..]);
          assert u[..|w|] == [u[0]] + u[1..][..|w| - 1];
      }
    }
  }

  /** A global rewrite into a replacement of the chains' shape leaves
      absent every pattern of the chains' shape that was absent before, and
      every pattern it rewrote. */
  lemma {:induction false} ReplaceKeepsAbsent(t: string, pats: seq<string>, rep: string, q: string)
    requires forall p | p in pats :: p != ""
    requires TagPattern(q) && TagReplacement(rep)
    requires Absent(t, q) || q in pats
    ensures Absent(ReplaceAny(t, pats, rep), q)
    decreases |t|
  {
    if t != [] {
      match FirstMatch(t, pats) {
        case Some(p) =>
          if Absent(t, q) {
            AbsentSuffix(t, q, |p|);
          }
          ReplaceKeepsAbsent(t[|p|..], pats, rep, q);
          AbsentAfterReplacement(rep, ReplaceAny(t[|p|..], pats, rep), q);
        case None =>
          assert !StartsWith(t, q);
          ReplaceKeepsAbsent(t[1..], pats, rep, q);
          var r' := ReplaceAny(t[1..], pats, rep);
          var r := [t[0]] + r';
          assert r[1..] == r';
          if StartsWith(r, q) {
            assert r[..|q|] == [t[0]] + r'[..|q| - 1];
            assert r[..|q|][0] == q[0];
            assert StartsWith(r', q[1..]) by {
              assert r'[..|q| - 1] == r[..|q|][1..];
            }
            PlainPrefixKept(t[1..], pats, rep, q[1..]);
            assert false;
          }
      }
    }
  }

  /** The patterns of the first four rewrites and of the last twelve. */
  const BeforePats: seq<string> := ["<div", "</div>", "<img", "</img>"]
  const AfterPats: seq<string> :=
    ["<b>", "</b>", "<table", "</table>", "<tbody", "</tbody>",
     "<tr", "</tr>", "<td", "</td>", "<span", "</span>"]

  /** None of `qs` occurs in `s`. */
  predicate AllAbsent(s: string, qs: seq<string>) {
    forall q | q in qs :: Absent(s, q)
  }

  predicate AllTagPatterns(qs: seq<string>) {
    forall q | q in qs :: TagPattern(q)
  }

  /** Every pattern of both chains has the chains' shape. */
  lemma PatternShapes()
    ensures AllTagPatterns(BeforePats + ClosedBr + OpenBr + AfterPats)
  {
    assert TagPattern("<div");
    assert TagPattern("</div>");
    assert TagPattern("<img");
    assert TagPattern("</img>");
    assert TagPattern("<br/>");
    assert TagPattern("<br>");
    assert TagPattern("<br/");
    assert TagPattern("<br");
    assert TagPattern("<b>");
    assert TagPattern("</b>");
    assert TagPattern("<table");
    assert TagPattern("</table>");
    assert TagPattern("<tbody");
    assert TagPattern("</tbody>");
    assert TagPattern("<tr");
    assert TagPattern("</tr>");
    assert TagPattern("<td");
    assert TagPattern("</td>");
    assert TagPattern("<span");
    assert TagPattern("</span>");
  }

  /** Every non-empty replacement of both chains has the chains' shape. */
  lemma ReplacementShapes()
    ensures TagReplacement("<DIV") && TagReplacement("</DIV>") && TagReplacement("<IMG")
    ensures TagReplacement("<BR/>")
    ensures TagReplacement("<B>") && TagReplacement("</B>")
    ensures TagReplacement("<TABLE") && TagReplacement("</TABLE>")
    ensures TagReplacement("<TBODY") && TagReplacement("</TBODY>")
    ensures TagReplacement("<TR") && TagReplacement("</TR>")
    ensures TagReplacement("<TD") && TagReplacement("</TD>")
    ensures TagReplacement("<SPAN") && TagReplacement("</SPAN>")
  {
  }

  /** One rewrite of the chains' shape removes its own patterns and keeps
      absent every pattern of that shape that was absent before. */
  lemma Step(t: string, qs: seq<string>, pats: seq<string>, rep: string)
    requires forall p | p in pats :: p != ""
    requires AllTagPatterns(qs) && AllTagPatterns(pats) && TagReplacement(rep)
    requires AllAbsent(t, qs)
    ensures AllAbsent(ReplaceAny(t, pats, rep), qs + pats)
  {
    forall q | q in qs + pats ensures Absent(ReplaceAny(t, pats, rep), q) {
      ReplaceKeepsAbsent(t, pats, rep, q);
    }
  }

  /** Without `</img>` in the input, the first four rewrites leave none of
      their patterns behind: the deletion of `</img>` has nothing to delete. */
  lemma BeforeClean(s: string)
    requires Absent(s, "</img>")
    ensures AllAbsent(Before(s), BeforePats)
  {
    PatternShapes();
    ReplacementShapes();
    var t1 := ReplaceAll(s, "<div", "<DIV");
    Step(s, ["</img>"], ["<div"], "<DIV");
    var t2 := ReplaceAll(t1, "</div>", "</DIV>");
    Step(t1, ["</img>", "<div"], ["</div>"], "</DIV>");
    var t3 := ReplaceAll(t2, "<img", "<IMG");
    Step(t2, ["</img>", "<div", "</div>"], ["<img"], "<IMG");
    ReplaceWithoutMatch(t3, ["</img>"], "");
  }

  /** The last twelve rewrites leave none of their patterns behind, nor any
      pattern of the chains' shape that was absent before them. */
  lemma AfterClean(t: string, qs: seq<string>)
    requires AllTagPatterns(qs) && AllAbsent(t, qs)
    ensures AllAbsent(After(t), qs + AfterPats)
  {
    var t1 := ReplaceAll(t, "<b>", "<B>");
    var t2 := ReplaceAll(t1, "</b>", "</B>");
    var t3 := ReplaceAll(t2, "<table", "<TABLE");
    var t4 := ReplaceAll(t3, "</table>", "</TABLE>");
    AfterCleanHead(t, qs);
    var t5 := ReplaceAll(t4, "<tbody", "<TBODY");
    var t6 := ReplaceAll(t5, "</tbody>", "</TBODY>");
    var t7 := ReplaceAll(t6, "<tr", "<TR");
    var t8 := ReplaceAll(t7, "</tr>", "</TR>");
    AfterCleanMiddle(t4, qs);
    AfterCleanTail(t8, qs);
  }

  lemma AfterCleanHead(t: string, qs: seq<string>)
    requires AllTagPatterns(qs) && AllAbsent(t, qs)
    ensures
      var t1 := ReplaceAll(t, "<b>", "<B>");
      var t2 := ReplaceAll(t1, "</b>", "</B>");
      var t3 := ReplaceAll(t2, "<table", "<TABLE");
      AllAbsent(ReplaceAll(t3, "</table>", "</TABLE>"), qs + AfterPats[..4])
  {
    PatternShapes();
    ReplacementShapes();
    var t1 := ReplaceAll(t, "<b>", "<B>");
    Step(t, qs, ["<b>"], "<B>");
    var t2 := ReplaceAll(t1, "</b>", "</B>");
    Step(t1, qs + ["<b>"], ["</b>"], "</B>");
    var t3 := ReplaceAll(t2, "<table", "<TABLE");
    Step(t2, qs + AfterPats[..2], ["<table"], "<TABLE");
    Step(t3, qs + AfterPats[..3], ["</table>"], "</TABLE>");
  }

  lemma AfterCleanMiddle(t4: string, qs: seq<string>)
    requires AllTagPatterns(qs) && AllAbsent(t4, qs + AfterPats[..4])
    ensures
      var t5 := ReplaceAll(t4, "<tbody", "<TBODY");
      var t6 := ReplaceAll(t5, "</tbody>", "</TBODY>");
      var t7 := ReplaceAll(t6, "<tr", "<TR");
      AllAbsent(ReplaceAll(t7, "</tr>", "</TR>"), qs + AfterPats[..8])
  {
    PatternShapes();
    ReplacementShapes();
    var t5 := ReplaceAll(t4, "<tbody", "<TBODY");
    Step(t4, qs + AfterPats[..4], ["<tbody"], "<TBODY");
    var t6 := ReplaceAll(t5, "</tbody>", "</TBODY>");
    Step(t5, qs + AfterPats[..5], ["</tbody>"], "</TBODY>");
    var t7 := ReplaceAll(t6, "<tr", "<TR");
    Step(t6, qs + AfterPats[..6], ["<tr"], "<TR");
    Step(t7, qs + AfterPats[..7], ["</tr>"], "</TR>");
  }

  lemma AfterCleanTail(t8: string, qs: seq<string>)
    requires AllTagPatterns(qs) && AllAbsent(t8, qs + AfterPats[..8])
    ensures
      var t9 := ReplaceAll(t8, "<td", "<TD");
      var t10 := ReplaceAll(t9, "</td>", "</TD>");
      var t11 := ReplaceAll(t10, "<span", "<SPAN");
      AllAbsent(ReplaceAll(t11, "</span>", "</SPAN>"), qs + AfterPats)
  {
    PatternShapes();
    ReplacementShapes();
    var t9 := ReplaceAll(t8, "<td", "<TD");
    Step(t8, qs + AfterPats[..8], ["<td"], "<TD");
    var t10 := ReplaceAll(t9, "</td>", "</TD>");
    Step(t9, qs + AfterPats[..9], ["</td>"], "</TD>");
    var t11 := ReplaceAll(t10, "<span", "<SPAN");
    Step(t10, qs + AfterPats[..10], ["<span"], "<SPAN");
    Step(t11, qs + AfterPats[..11], ["</span>"], "</SPAN>");
    assert AfterPats[..11] + ["</span>"] == AfterPats;
  }

  /** Text lacking every pattern of the first four rewrites passes them
      unchanged. */
  lemma BeforeFixed(s: string)
    requires AllAbsent(s, BeforePats)
    ensures Before(s) == s
  {
    ReplaceWithoutMatch(s, ["<div"], "<DIV");
    ReplaceWithoutMatch(s, ["</div>"], "</DIV>");
    ReplaceWithoutMatch(s, ["<img"], "<IMG");
    ReplaceWithoutMatch(s, ["</img>"], "");
  }

  /** Text lacking every pattern of the last twelve rewrites passes them
      unchanged. */
  lemma AfterFixed(s: string)
    requires AllAbsent(s, AfterPats)
    ensures After(s) == s
  {
    ReplaceWithoutMatch(s, ["<b>"], "<B>");
    ReplaceWithoutMatch(s, ["</b>"], "</B>");
    ReplaceWithoutMatch(s, ["<table"], "<TABLE");
    ReplaceWithoutMatch(s, ["</table>"], "</TABLE>");
    ReplaceWithoutMatch(s, ["<tbody"], "<TBODY");
    ReplaceWithoutMatch(s, ["</tbody>"], "</TBODY>");
    ReplaceWithoutMatch(s, ["<tr"], "<TR");
    ReplaceWithoutMatch(s, ["</tr>"], "</TR>");
    ReplaceWithoutMatch(s, ["<td"], "<TD");
    ReplaceWithoutMatch(s, ["</td>"], "</TD>");
    ReplaceWithoutMatch(s, ["<span"], "<SPAN");
    ReplaceWithoutMatch(s, ["</span>"], "</SPAN>");
  }

  /** Without `</img>` in the input, the first chain's output holds none of
      its patterns, and the chain leaves such a text unchanged: running it
      twice gives what running it once does. */
  lemma NormaliseIdempotent(s: string)
    requires Absent(s, "</img>")
    ensures AllAbsent(Normalise(s), BeforePats + ClosedBr + AfterPats)
    ensures Normalise(Normalise(s)) == Normalise(s)
  {
    PatternShapes();
    ReplacementShapes();
    var b := Before(s);
    BeforeClean(s);
    var c := ReplaceAny(b, ClosedBr, "<BR/>");
    Step(b, BeforePats, ClosedBr, "<BR/>");
    var n := After(c);
    AfterClean(c, BeforePats + ClosedBr);
    BeforeFixed(n);
    ReplaceWithoutMatch(n, ClosedBr, "<BR/>");
    AfterFixed(n);
  }

  /** The same for the second chain, whose `<br` rewrite is `OpenBr`. */
  lemma NormaliseProductsIdempotent(s: string)
    requires Absent(s, "</img>")
    ensures AllAbsent(NormaliseProducts(s), BeforePats + OpenBr + AfterPats)
    ensures NormaliseProducts(NormaliseProducts(s)) == NormaliseProducts(s)
  {
    PatternShapes();
    ReplacementShapes();
    var b := Before(s);
    BeforeClean(s);
    var c := ReplaceAny(b, OpenBr, "<BR/>");
    Step(b, BeforePats, OpenBr, "<BR/>");
    var n := After(c);
    AfterClean(c, BeforePats + OpenBr);
    BeforeFixed(n);
    ReplaceWithoutMatch(n, OpenBr, "<BR/>");
    AfterFixed(n);
  }

  /** Without the `</img>` proviso the chains are not idempotent: deleting
      `</img>` after `<div` has been upper-cased can join a `<` and a `div`
      into a new `<div`, which the first run leaves in lower case and a
      second run upper-cases. */
  lemma NotIdempotent(t: string)
    requires '<' !in t
    ensures Normalise(Normalise("<</img>div" + t)) != Normalise("<</img>div" + t)
  {
    assert ("<DIV" + t)[1] != ("<div" + t)[1];
    RevealsDiv(t);
    DivUpperCased(t);
  }

  /** The same input shows it for the second chain. */
  lemma NotIdempotentProducts(t: string)
    requires '<' !in t
    ensures NormaliseProducts(NormaliseProducts("<</img>div" + t))
         != NormaliseProducts("<</img>div" + t)
  {
    assert ("<DIV" + t)[1] != ("<div" + t)[1];
    RevealsDiv(t);
    DivUpperCased(t);
  }

  /** `<</img>div` followed by tag-free text comes out of both chains as
      `<div` followed by the same text. */
  lemma RevealsDiv(t: string)
    requires '<' !in t
    ensures Normalise("<</img>div" + t) == "<div" + t
    ensures NormaliseProducts("<</img>div" + t) == "<div" + t
  {
    var u := "div" + t;
    assert '<' !in u && u[0] == 'd';
    assert "<</img>div" + t == "<</img>" + u && "<" + u == "<div" + t;
    ImgCloseJoins(u);
  }

  /** `<` followed by `</img>` and tag-free text `u` that starts no tag of
      the last twelve rewrites or of `<br` comes out of both chains as `<`
      followed by `u`: the deletion joins them. */
  lemma ImgCloseJoins(u: string)
    requires '<' !in u && u != [] && u[0] !in {'b', 't', 's', '/'}
    ensures Normalise("<</img>" + u) == "<" + u
    ensures NormaliseProducts("<</img>" + u) == "<" + u
  {
    ImgCloseJoinsBefore(u);
    BrAndAfterKeep(u);
  }

  lemma ImgCloseJoinsBefore(u: string)
    requires '<' !in u
    ensures Before("<</img>" + u) == "<" + u
  {
    var v := "/img>" + u;
    assert '<' !in v && v[0] == '/' && v[1] == 'i';
    assert "<</img>" + u == "<" + ("<" + v);
    KeepDouble(v, "<div", "<DIV", 1);
    KeepDouble(v, "</div>", "</DIV>", 2);
    KeepDouble(v, "<img", "<IMG", 1);
    ImgCloseJoinsDeleted(u);
  }

  lemma ImgCloseJoinsDeleted(u: string)
    requires '<' !in u
    ensures ReplaceAll("<</img>" + u, "</img>", "") == "<" + u
  {
    var s := "<</img>" + u;
    var w := "</img>" + u;
    assert ReplaceAll(s, "</img>", "") == "<" + ReplaceAll(w, "</img>", "") by {
      assert s[..6][1] == '<' && s[1..] == w;
      assert FirstMatch(s, ["</img>"]) == None;
    }
    assert ReplaceAll(w, "</img>", "") == ReplaceAll(u, "</img>", "") by {
      assert w[..6] == "</img>" && w[6..] == u;
      assert FirstMatch(w, ["</img>"]) == Some("</img>");
    }
    AbsentOpening(u, "</img>");
    ReplaceWithoutMatch(u, ["</img>"], "");
  }

  /** `<<` followed by tag-free text `u` is left alone by a rewrite of a
      `<`-pattern whose second character is not `<` and that differs from
      `<` followed by `u` at position `k`. */
  lemma KeepDouble(u: string, pat: string, rep: string, k: nat)
    requires '<' !in u && |pat| >= 2 && pat[0] == '<' && pat[1] != '<'
    requires 0 < k < |pat| && (k - 1 < |u| ==> u[k - 1] != pat[k])
    ensures ReplaceAll("<" + ("<" + u), pat, rep) == "<" + ("<" + u)
  {
    var s := "<" + ("<" + u);
    AbsentSingle(u, pat, k);
    assert s[1..] == "<" + u;
    if |pat| <= |s| {
      assert s[..|pat|][1] == '<';
    }
    ReplaceWithoutMatch(s, [pat], rep);
  }

  /** `<div` followed by tag-free text comes out of both chains as `<DIV`
      followed by the same text. */
  lemma DivUpperCased(t: string)
    requires '<' !in t
    ensures Normalise("<div" + t) == "<DIV" + t
    ensures NormaliseProducts("<div" + t) == "<DIV" + t
  {
    DivBefore(t);
    var v := "DIV" + t;
    assert '<' !in v && v[0] == 'D' && "<" + v == "<DIV" + t;
    BrAndAfterKeep(v);
  }

  lemma DivBefore(t: string)
    requires '<' !in t
    ensures Before("<div" + t) == "<DIV" + t
  {
    var s := "<div" + t;
    assert s[..4] == "<div" && s[4..] == t;
    assert FirstMatch(s, ["<div"]) == Some("<div");
    AbsentOpening(t, "<div");
    ReplaceWithoutMatch(t, ["<div"], "<DIV");
    var v := "DIV" + t;
    assert '<' !in v && v[0] == 'D' && "<" + v == "<DIV" + t;
    KeepSingle(v, "</div>", "</DIV>", 1);
    KeepSingle(v, "<img", "<IMG", 1);
    KeepSingle(v, "</img>", "", 1);
  }

  /** `<` followed by tag-free text that starts no tag of the last twelve
      rewrites or of `<br` passes the `<br` rewrites of both chains and the
      last twelve. */
  lemma BrAndAfterKeep(t: string)
    requires '<' !in t && t != [] && t[0] !in {'b', 't', 's', '/'}
    ensures var s := "<" + t;
      && ReplaceAny(s, ClosedBr, "<BR/>") == s && ReplaceAny(s, OpenBr, "<BR/>") == s
      && After(s) == s
  {
    var s := "<" + t;
    var cs := {'b', 't', 's', '/'};
    NoOpeningWithoutTag(t, cs);
    assert s[1..] == t && s[1] == t[0];
    assert NoOpening(s, cs);
    AbsentByOpening(s, "<br/>", cs);
    AbsentByOpening(s, "<br>", cs);
    AbsentByOpening(s, "<br/", cs);
    AbsentByOpening(s, "<br", cs);
    ReplaceWithoutMatch(s, ClosedBr, "<BR/>");
    ReplaceWithoutMatch(s, OpenBr, "<BR/>");
    AfterUnchanged(s);
  }
}
