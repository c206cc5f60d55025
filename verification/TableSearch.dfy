/** Searching the text of a table's rows: how an input becomes words, which texts it matches, and when
    a longer input can only match less. */
module TableSearch {

  datatype Search = Search(text: string, smart: bool, insensitive: bool)

  const Quote: char := '\"'

  predicate IsBreak(c: char) { c == '\n' || c == '\r' || c == '\U{2028}' || c == '\U{2029}' }

  predicate HasBreak(s: string) { exists i :: 0 <= i < |s| && IsBreak(s[i]) }

  // The length of the text before the first c.
  function Until(s: string, c: char): (n: nat)
    ensures n <= |s| && c !in s[..n] && (n < |s| ==> s[n] == c)
  {
    if s == "" || s[0] == c then 0 else 1 + Until(s[1..], c)
  }

  // A phrase in quotes, with at least one character between them, at the beginning of the text.
  predicate Phrase(s: string) {
    s != "" && s[0] == Quote && 0 < Until(s[1..], Quote) < |s| - 1
  }

  // The matches of /"[^"]+"|[^ ]+/g.
  function Tokens(s: string): seq<string> {
    if s == "" then []
    else if Phrase(s) then
      var n := Until(s[1..], Quote) + 2;
      [s[..n]] + Tokens(s[n..])
    else if s[0] == ' ' then Tokens(s[1..])
    else
      var n := Until(s, ' ');
      [s[..n]] + Tokens(s[n..])
  }

  function WithoutQuote(s: string): string {
    var n := Until(s, Quote);
    if n < |s| then s[..n] + s[n + 1..] else s
  }

  // A token without the quotes around it, and without one more quote.
  function Word(token: string): string {
    var n := |token|;
    if n >= 2 && token[0] == Quote && token[n - 1] == Quote && !HasBreak(token[1..n - 1])
    then WithoutQuote(token[1..n - 1])
    else WithoutQuote(token)
  }

  function WordsOf(tokens: seq<string>): seq<string> {
    if tokens == [] then [] else [Word(tokens[0])] + WordsOf(tokens[1..])
  }

  function Words(s: string): (ws: seq<string>)
    ensures ws != []
  {
    var ws := WordsOf(Tokens(s));
    if ws == [] then [""] else ws
  }

  // Letters differ in case only.
  function Fold(c: char): char { if 'a' <= c <= 'z' then c - 'a' + 'A' else c }

  function FoldAll(s: string, insensitive: bool): (r: string)
    ensures |r| == |s|
  {
    if insensitive then seq(|s|, i requires 0 <= i < |s| => Fold(s[i])) else s
  }

  predicate OccursAt(text: string, w: string, i: int) {
    0 <= i <= |text| - |w| && text[i..i + |w|] == w
  }

  predicate Contains(text: string, w: string) {
    exists i :: 0 <= i <= |text| - |w| && OccursAt(text, w, i)
  }

  predicate Found(text: string, w: string, insensitive: bool) {
    Contains(FoldAll(text, insensitive), FoldAll(w, insensitive))
  }

  predicate AllFound(text: string, ws: seq<string>, insensitive: bool) {
    forall k :: 0 <= k < |ws| ==> Found(text, ws[k], insensitive)
  }

  // Does the expression built for the search match? A smart one wants all words, in any order, on a
  // single line; any other wants its text as it stands.
  predicate Matches(q: Search, text: string) {
    if q.smart then !HasBreak(text) && AllFound(text, Words(q.text), q.insensitive)
    else Found(text, q.text, q.insensitive)
  }

  predicate SameFlags(p: Search, q: Search) { p.smart == q.smart && p.insensitive == q.insensitive }

  predicate FoundInOne(ws: seq<string>, w: string, insensitive: bool) {
    exists k :: 0 <= k < |ws| && Found(ws[k], w, insensitive)
  }

  predicate AnyBreak(ws: seq<string>) { exists k :: 0 <= k < |ws| && HasBreak(ws[k]) }

  // Every word of p is inside a word of q, or nothing matches q.
  predicate Narrows(p: Search, q: Search) {
    if q.smart then
      AnyBreak(Words(q.text)) || forall k :: 0 <= k < |Words(p.text)| ==> FoundInOne(Words(q.text), Words(p.text)[k], q.insensitive)
    else Found(q.text, p.text, q.insensitive)
  }

  ghost predicate Narrower(p: Search, q: Search) {
    forall text :: Matches(q, text) ==> Matches(p, text)
  }

  // ----- containment

  lemma Inside(text: string, v: string, w: string)
    requires Contains(text, v) && Contains(v, w)
    ensures Contains(text, w)
  {
    var i :| 0 <= i <= |text| - |v| && OccursAt(text, v, i);
    var j :| 0 <= j <= |v| - |w| && OccursAt(v, w, j);
    var k := i + j;
    forall m | 0 <= m < |w| ensures text[k..k + |w|][m] == w[m] {
      var n := j + m;
      assert w[m] == v[j..j + |w|][m] == v[n];
      assert v[n] == text[i..i + |v|][n];
    }
    assert text[k..k + |w|] == w;
    assert OccursAt(text, w, k);
  }

  lemma Whole(text: string, before: string, w: string, after: string)
    requires text == before + w + after
    ensures Contains(text, w)
  {
    var i := |before|;
    assert OccursAt(text, w, i);
  }

  lemma CharAt(text: string, w: string, i: int, n: int)
    requires OccursAt(text, w, i) && i <= n < i + |w|
    ensures text[n] in w
  {
    assert text[i..i + |w|][n - i] == text[n];
  }

  // A text without the separator is not found across it.
  lemma Apart(a: string, c: char, b: string, w: string)
    requires c !in w && Contains(a + [c] + b, w)
    ensures Contains(a, w) || Contains(b, w)
  {
    var t := a + [c] + b;
    var i :| 0 <= i <= |t| - |w| && OccursAt(t, w, i);
    var n := |a|;
    if i + |w| <= n {
      assert a[i..i + |w|] == t[i..i + |w|] && OccursAt(a, w, i);
    } else if i > n {
      var j := i - n - 1;
      assert b[j..j + |w|] == t[i..i + |w|] && OccursAt(b, w, j);
    } else {
      CharAt(t, w, i, n);
    }
  }

  lemma FoldJoin(a: string, b: string, insensitive: bool)
    ensures FoldAll(a + b, insensitive) == FoldAll(a, insensitive) + FoldAll(b, insensitive)
  {
  }

  lemma FoldKeeps(s: string, c: char, insensitive: bool)
    requires !('a' <= c <= 'z') && !('A' <= c <= 'Z')
    ensures c in FoldAll(s, insensitive) <==> c in s
  {
    var f := FoldAll(s, insensitive);
    if c in s {
      var i :| 0 <= i < |s| && s[i] == c;
      assert f[i] == c;
    }
    if c in f {
      var i :| 0 <= i < |f| && f[i] == c;
      assert s[i] == c;
    }
  }

  lemma FoundApart(a: string, c: char, b: string, w: string, insensitive: bool)
    requires c == ' ' || c == Quote
    requires c !in w && Found(a + [c] + b, w, insensitive)
    ensures Found(a, w, insensitive) || Found(b, w, insensitive)
  {
    FoldJoin(a + [c], b, insensitive);
    FoldJoin(a, [c], insensitive);
    FoldKeeps(w, c, insensitive);
    assert FoldAll([c], insensitive) == [c];
    Apart(FoldAll(a, insensitive), c, FoldAll(b, insensitive), FoldAll(w, insensitive));
  }

  lemma FoundBreak(text: string, w: string, insensitive: bool)
    requires HasBreak(w) && Found(text, w, insensitive)
    ensures HasBreak(text)
  {
    var t, f := FoldAll(text, insensitive), FoldAll(w, insensitive);
    var k :| 0 <= k < |w| && IsBreak(w[k]);
    var i :| 0 <= i <= |t| - |f| && OccursAt(t, f, i);
    var j := i + k;
    assert t[j] == f[k] == w[k];
    assert IsBreak(text[j]);
  }

  // ----- the criterion is enough

  lemma NarrowsSuffices(p: Search, q: Search, text: string)
    requires SameFlags(p, q) && Narrows(p, q) && Matches(q, text)
    ensures Matches(p, text)
  {
    hide Words;
    hide Found;
    var ws, vs := Words(p.text), Words(q.text);
    if !q.smart {
      FoundInside(text, q.text, p.text, q.insensitive);
    } else if AnyBreak(vs) {
      var k :| 0 <= k < |vs| && HasBreak(vs[k]);
      FoundBreak(text, vs[k], q.insensitive);
    } else {
      forall k | 0 <= k < |ws| ensures Found(text, ws[k], q.insensitive) {
        assert FoundInOne(vs, ws[k], q.insensitive);
        var j :| 0 <= j < |vs| && Found(vs[j], ws[k], q.insensitive);
        FoundInside(text, vs[j], ws[k], q.insensitive);
      }
    }
  }

  lemma FoundInside(text: string, v: string, w: string, insensitive: bool)
    requires Found(text, v, insensitive) && Found(v, w, insensitive)
    ensures Found(text, w, insensitive)
  {
    Inside(FoldAll(text, insensitive), FoldAll(v, insensitive), FoldAll(w, insensitive));
  }

  // ----- and it is needed

  // All the words, with a separator between them.
  function Spread(ws: seq<string>, c: char): string {
    if ws == [] then "" else Spread(ws[..|ws| - 1], c) + [c] + ws[|ws| - 1]
  }

  lemma {:induction false} SpreadFinds(ws: seq<string>, c: char, insensitive: bool)
    ensures AllFound(Spread(ws, c), ws, insensitive)
  {
    if ws != [] {
      var n := |ws| - 1;
      SpreadFinds(ws[..n], c, insensitive);
      var before, last := Spread(ws[..n], c), ws[n];
      forall k | 0 <= k < |ws| ensures Found(Spread(ws, c), ws[k], insensitive) {
        if k == n {
          FoundPart(before + [c], last, "", last, insensitive);
          assert before + [c] + last + "" == Spread(ws, c);
        } else {
          assert Found(before, ws[..n][k], insensitive);
          FoundPart("", before, [c] + last, ws[k], insensitive);
          assert "" + before + ([c] + last) == Spread(ws, c);
        }
      }
    }
  }

  lemma FoundSelf(w: string, insensitive: bool)
    ensures Found(w, w, insensitive)
  {
    var f := FoldAll(w, insensitive);
    assert OccursAt(f, f, 0);
  }

  lemma FoundPart(a: string, b: string, c: string, w: string, insensitive: bool)
    requires Found(b, w, insensitive) || b == w
    ensures Found(a + b + c, w, insensitive)
  {
    FoundSelf(w, insensitive);
    FoldJoin(a + b, c, insensitive);
    FoldJoin(a, b, insensitive);
    var f := FoldAll(a + b + c, insensitive);
    Whole(f, FoldAll(a, insensitive), FoldAll(b, insensitive), FoldAll(c, insensitive));
    Inside(f, FoldAll(b, insensitive), FoldAll(w, insensitive));
  }

  lemma {:induction false} SpreadHides(ws: seq<string>, c: char, w: string, insensitive: bool)
    requires (c == ' ' || c == Quote) && c !in w && w != ""
    requires Found(Spread(ws, c), w, insensitive)
    ensures FoundInOne(ws, w, insensitive)
  {
    if ws != [] {
      var n := |ws| - 1;
      FoundApart(Spread(ws[..n], c), c, ws[n], w, insensitive);
      if !Found(ws[n], w, insensitive) {
        SpreadHides(ws[..n], c, w, insensitive);
        var k :| 0 <= k < n && Found(ws[..n][k], w, insensitive);
        assert Found(ws[k], w, insensitive);
      }
    }
  }

  lemma {:induction false} SpreadOneLine(ws: seq<string>, c: char)
    requires !IsBreak(c) && !AnyBreak(ws)
    ensures !HasBreak(Spread(ws, c))
  {
    if ws != [] {
      var n := |ws| - 1;
      assert !HasBreak(ws[n]);
      assert forall k :: 0 <= k < n ==> ws[..n][k] == ws[k];
      SpreadOneLine(ws[..n], c);
    }
  }

  lemma {:induction false} TokenShape(s: string, k: nat)
    requires k < |Tokens(s)|
    ensures var t := Tokens(s)[k]; t != "" && (' ' !in t || (|t| >= 3 && t[0] == Quote && t[|t| - 1] == Quote && Quote !in t[1..|t| - 1]))
    decreases |s|
  {
    if Phrase(s) {
      var n := Until(s[1..], Quote) + 2;
      if k == 0 {
        assert s[..n][1..n - 1] == s[1..][..n - 2];
      } else {
        TokenShape(s[n..], k - 1);
      }
    } else if s[0] == ' ' {
      TokenShape(s[1..], k);
    } else if k > 0 {
      TokenShape(s[Until(s, ' ')..], k - 1);
    }
  }

  lemma {:induction false} WordsAt(tokens: seq<string>, k: nat)
    requires k < |WordsOf(tokens)|
    ensures |WordsOf(tokens)| == |tokens| && WordsOf(tokens)[k] == Word(tokens[k])
  {
    if k > 0 { WordsAt(tokens[1..], k - 1); } else { WordCount(tokens); }
  }

  lemma {:induction false} WordCount(tokens: seq<string>)
    ensures |WordsOf(tokens)| == |tokens|
  {
    if tokens != [] { WordCount(tokens[1..]); }
  }

  lemma WithoutQuoteIs(s: string)
    ensures forall c :: c in WithoutQuote(s) ==> c in s
    ensures forall c :: c in s && c != Quote ==> c in WithoutQuote(s)
    ensures Quote !in s ==> WithoutQuote(s) == s
  {
    var n := Until(s, Quote);
    if n < |s| {
      assert s == s[..n] + [Quote] + s[n + 1..];
    }
  }

  // No word on a line has both a space and a quote in it.
  lemma WordShape(s: string, k: nat)
    requires k < |Words(s)|
    ensures var w := Words(s)[k]; HasBreak(w) || ' ' !in w || Quote !in w
  {
    hide Tokens;
    hide WithoutQuote;
    hide WordsOf;
    var ts := Tokens(s);
    WordCount(ts);
    if ts != [] {
      WordsAt(ts, k);
      TokenShape(s, k);
      var t := ts[k];
      WithoutQuoteIs(t);
      if |t| >= 2 {
        var inner := t[1..|t| - 1];
        WithoutQuoteIs(inner);
        if HasBreak(inner) {
          var i :| 0 <= i < |inner| && IsBreak(inner[i]);
          assert t[i + 1] == inner[i];
          BreakIn(WithoutQuote(t), inner[i]);
        } else {
          assert forall c :: c in inner ==> c in t;
        }
      }
    }
  }

  lemma BreakIn(s: string, c: char)
    requires c in s && IsBreak(c)
    ensures HasBreak(s)
  {
    var i :| 0 <= i < |s| && s[i] == c;
    assert IsBreak(s[i]);
  }

  // Widening happens exactly when some word of the shorter search is in no word of the longer one.
  lemma NarrowerIff(p: Search, q: Search)
    requires SameFlags(p, q)
    ensures Narrower(p, q) <==> Narrows(p, q)
  {
    if Narrows(p, q) {
      forall text | Matches(q, text) ensures Matches(p, text) { NarrowsSuffices(p, q, text); }
    } else if !q.smart {
      FoundSelf(q.text, q.insensitive);
      assert Matches(q, q.text) && !Matches(p, q.text);
    } else {
      var vs := Words(q.text);
      var k :| 0 <= k < |Words(p.text)| && !FoundInOne(vs, Words(p.text)[k], q.insensitive);
      var text := Escapes(vs, p.text, k, q.insensitive);
      assert Matches(q, text) && !Matches(p, text);
    }
  }

  // A text that has all the words of the one search and not that word of the other.
  lemma Escapes(vs: seq<string>, s: string, k: nat, insensitive: bool) returns (text: string)
    requires vs != [] && !AnyBreak(vs) && k < |Words(s)| && !FoundInOne(vs, Words(s)[k], insensitive)
    ensures !HasBreak(text) && AllFound(text, vs, insensitive) && !Found(text, Words(s)[k], insensitive)
  {
    hide Words;
    hide Found;
    var w := Words(s)[k];
    WordShape(s, k);
    var c := if ' ' in w then Quote else ' ';
    text := Spread(vs, c);
    SpreadFinds(vs, c, insensitive);
    SpreadOneLine(vs, c);
    FoundPart("", "", vs[0], "", insensitive);
    assert "" + "" + vs[0] == vs[0];
    assert FoundInOne(vs, "", insensitive);
    if Found(text, w, insensitive) {
      if HasBreak(w) { FoundBreak(text, w, insensitive); } else { SpreadHides(vs, c, w, insensitive); }
    }
  }

  // ----- inputs without quotes

  lemma {:induction false} UntilJoin(s: string, u: string, c: char)
    ensures Until(s + u, c) == if c in s then Until(s, c) else |s| + Until(u, c)
  {
    if s == "" {
      assert s + u == u;
    } else {
      assert s == [s[0]] + s[1..];
      assert c in s <==> c == s[0] || c in s[1..];
      assert (s + u)[1..] == s[1..] + u && (s + u)[0] == s[0];
      UntilJoin(s[1..], u, c);
    }
  }

  lemma PlainStep(s: string)
    requires s != "" && s[0] != Quote
    ensures Tokens(s) == if s[0] == ' ' then Tokens(s[1..]) else [s[..Until(s, ' ')]] + Tokens(s[Until(s, ' ')..])
    ensures s[0] != ' ' ==> Until(s, ' ') > 0
  {
  }

  // A text without quotes goes on with the same words, the last of them perhaps longer.
  lemma {:induction false} PlainTokens(s: string, u: string, k: nat) returns (j: nat)
    requires Quote !in s + u && k < |Tokens(s)|
    ensures j < |Tokens(s + u)| && Contains(Tokens(s + u)[j], Tokens(s)[k])
    decreases |s|
  {
    hide *;
    assert s != "" by { NoTokens(); }
    var t := s + u;
    assert t[0] == s[0] != Quote;
    PlainStep(s);
    PlainStep(t);
    if s[0] == ' ' {
      assert t[1..] == s[1..] + u;
      j := PlainTokens(s[1..], u, k);
    } else {
      var n, m := Until(s, ' '), Until(t, ' ');
      UntilJoin(s, u, ' ');
      if k == 0 {
        j := 0;
        assert t[..m] == "" + s[..n] + t[n..m];
        Whole(t[..m], "", s[..n], t[n..m]);
      } else {
        assert s[n..] != "" by { if s[n..] == "" { NoTokens(); } }
        assert m == n && t[n..] == s[n..] + u;
        var i := PlainTokens(s[n..], u, k - 1);
        j := i + 1;
      }
    }
  }

  lemma NoTokens()
    ensures Tokens("") == []
  {
  }

  // A token without quotes is a word as it stands.
  lemma {:induction false} PlainWords(s: string)
    requires Quote !in s
    ensures WordsOf(Tokens(s)) == Tokens(s)
    decreases |s|
  {
    hide *;
    if s == "" {
      NoTokens();
      NoWords();
    } else {
      PlainStep(s);
      if s[0] == ' ' {
        PlainWords(s[1..]);
      } else {
        var n := Until(s, ' ');
        PlainWords(s[n..]);
        PlainWord(s[..n], Tokens(s[n..]));
      }
    }
  }

  lemma NoWords()
    ensures WordsOf([]) == []
  {
  }

  lemma PlainWord(token: string, rest: seq<string>)
    requires Quote !in token
    ensures WordsOf([token] + rest) == [token] + WordsOf(rest)
  {
    WithoutQuoteIs(token);
    assert token != "" ==> token[0] in token;
  }

  // Typing on without quotes keeps narrowing the search.
  lemma ExtensionNarrows(p: Search, q: Search)
    requires SameFlags(p, q) && p.text <= q.text && (q.smart ==> Quote !in q.text)
    ensures Narrows(p, q) && Narrower(p, q)
  {
    hide Narrower;
    hide Words;
    hide Found;
    var u := q.text[|p.text|..];
    assert q.text == p.text + u;
    if q.smart {
      PlainNarrows(p, q, u);
    } else {
      FoundPart("", p.text, u, p.text, q.insensitive);
      assert "" + p.text + u == q.text;
    }
    NarrowerIff(p, q);
  }

  lemma PlainNarrows(p: Search, q: Search, u: string)
    requires q.smart && SameFlags(p, q) && q.text == p.text + u && Quote !in q.text
    ensures Narrows(p, q)
  {
    hide Words;
    hide FoundInOne;
    forall k | 0 <= k < |Words(p.text)| ensures FoundInOne(Words(q.text), Words(p.text)[k], q.insensitive) {
      PlainFound(p.text, u, k, q.insensitive);
    }
  }

  lemma PlainFound(s: string, u: string, k: nat, insensitive: bool)
    requires Quote !in s + u && k < |Words(s)|
    ensures FoundInOne(Words(s + u), Words(s)[k], insensitive)
  {
    hide Tokens;
    hide WordsOf;
    hide Found;
    assert Quote !in s;
    PlainWords(s);
    PlainWords(s + u);
    var vs := Words(s + u);
    if Tokens(s) == [] {
      FoundPart("", "", vs[0], "", insensitive);
      assert "" + "" + vs[0] == vs[0];
    } else {
      var j := PlainTokens(s, u, k);
      ContainsFound(vs[j], Tokens(s)[k], insensitive);
    }
  }

  lemma ContainsFound(text: string, w: string, insensitive: bool)
    requires Contains(text, w)
    ensures Found(text, w, insensitive)
  {
    var i :| 0 <= i <= |text| - |w| && OccursAt(text, w, i);
    var after := text[i + |w|..];
    assert text == text[..i] + w + after;
    FoundPart(text[..i], w, after, w, insensitive);
  }

  // Typing a quote can widen the search: a quote that was part of a word begins a phrase instead.
  lemma QuotesWiden(p: Search, q: Search)
    requires SameFlags(p, q) && q.smart && p.text == [Quote, Quote, 'b'] && q.text == p.text + [Quote]
    ensures !Narrower(p, q)
  {
    var s, t := p.text, q.text;
    assert s[1..] == [Quote, 'b'] && t[1..] == [Quote, 'b', Quote];
    OneToken(s);
    OneToken(t);
    assert WordsOf([s]) == [Word(s)] && WordsOf([t]) == [Word(t)];
    assert Word(s) == [Quote, 'b'];
    assert t[1..3] == [Quote, 'b'];
    assert Word(t) == ['b'];
    assert Words(s) == [[Quote, 'b']] && Words(t) == [['b']];
    assert !IsBreak('b') && !HasBreak(['b']);
    FoldKeeps(['b'], Quote, q.insensitive);
    assert !Found(['b'], [Quote, 'b'], q.insensitive);
    assert !AnyBreak(Words(t)) && !FoundInOne(Words(t), Words(s)[0], q.insensitive);
    NarrowerIff(p, q);
  }

  lemma OneToken(s: string)
    requires s != "" && ' ' !in s && !Phrase(s)
    ensures Tokens(s) == [s]
  {
    assert s[0] in s;
    assert s[..|s|] == s && s[|s|..] == "";
  }

  // ----- letter case

  // The same character, or the same letter in the other case.
  predicate SameLetter(c: char, d: char) {
    c == d || ('a' <= c <= 'z' && 'A' <= d <= 'Z' && c as int == d as int + 32) ||
    ('a' <= d <= 'z' && 'A' <= c <= 'Z' && d as int == c as int + 32)
  }

  predicate SameLetters(s: string, t: string) {
    |s| == |t| && forall i :: 0 <= i < |s| ==> SameLetter(s[i], t[i])
  }

  // Folding makes just those characters alike that differ in case only.
  lemma FoldIs(c: char, d: char)
    ensures Fold(c) == Fold(d) <==> SameLetter(c, d)
  {
  }

  // A word stands at a place of the text, letter case aside if the search is insensitive.
  predicate StandsAt(text: string, w: string, insensitive: bool, i: int) {
    0 <= i <= |text| - |w| && if insensitive then SameLetters(text[i..i + |w|], w) else text[i..i + |w|] == w
  }

  // A word is found exactly when it stands somewhere.
  lemma FoundIs(text: string, w: string, insensitive: bool)
    ensures Found(text, w, insensitive) <==> exists i :: 0 <= i <= |text| - |w| && StandsAt(text, w, insensitive, i)
  {
    var t, f := FoldAll(text, insensitive), FoldAll(w, insensitive);
    if Found(text, w, insensitive) {
      var i :| 0 <= i <= |t| - |f| && OccursAt(t, f, i);
      OccursFolded(text, w, insensitive, i);
      assert StandsAt(text, w, insensitive, i);
    }
    if i :| 0 <= i <= |text| - |w| && StandsAt(text, w, insensitive, i) {
      OccursFolded(text, w, insensitive, i);
      assert OccursAt(t, f, i);
    }
  }

  lemma OccursFolded(text: string, w: string, insensitive: bool, i: int)
    requires 0 <= i <= |text| - |w|
    ensures OccursAt(FoldAll(text, insensitive), FoldAll(w, insensitive), i) <==> StandsAt(text, w, insensitive, i)
  {
    var t, f, part := FoldAll(text, insensitive), FoldAll(w, insensitive), text[i..i + |w|];
    if insensitive {
      var cut := t[i..i + |f|];
      forall k | 0 <= k < |w| ensures cut[k] == f[k] <==> SameLetter(part[k], w[k]) {
        assert cut[k] == t[i + k] == Fold(text[i + k]) && part[k] == text[i + k];
        FoldIs(part[k], w[k]);
      }
      assert OccursAt(t, f, i) <==> cut == f;
      if SameLetters(part, w) { assert cut == f; }
      if cut == f { forall k | 0 <= k < |w| ensures SameLetter(part[k], w[k]) { assert cut[k] == f[k]; } }
    }
  }

  // An insensitive search does not see the case of the text or of the words.
  lemma CaseBlind(text: string, text': string, w: string, w': string)
    requires SameLetters(text, text') && SameLetters(w, w')
    ensures Found(text, w, true) <==> Found(text', w', true)
  {
    SameFold(text, text');
    SameFold(w, w');
  }

  lemma SameFold(s: string, t: string)
    requires SameLetters(s, t)
    ensures FoldAll(s, true) == FoldAll(t, true)
  {
    var f, g := FoldAll(s, true), FoldAll(t, true);
    forall i | 0 <= i < |s| ensures f[i] == g[i] {
      assert SameLetter(s[i], t[i]);
      FoldIs(s[i], t[i]);
    }
  }

  lemma SameSlice(s: string, t: string, i: nat, j: nat)
    requires SameLetters(s, t) && i <= j <= |s|
    ensures SameLetters(s[i..j], t[i..j])
  {
  }

  lemma {:induction false} SameUntil(s: string, t: string, c: char)
    requires SameLetters(s, t) && (c == ' ' || c == Quote)
    ensures Until(s, c) == Until(t, c)
  {
    if s != "" {
      SameSlice(s, t, 1, |s|);
      assert s[1..] == s[1..|s|] && t[1..] == t[1..|s|];
      SameUntil(s[1..], t[1..], c);
    }
  }

  lemma SameBreak(s: string, t: string)
    requires SameLetters(s, t)
    ensures HasBreak(s) <==> HasBreak(t)
  {
    forall i | 0 <= i < |s| ensures IsBreak(s[i]) <==> IsBreak(t[i]) { assert SameLetter(s[i], t[i]); }
  }

  lemma SameWithoutQuote(s: string, t: string)
    requires SameLetters(s, t)
    ensures SameLetters(WithoutQuote(s), WithoutQuote(t))
  {
    SameUntil(s, t, Quote);
  }

  lemma SameWord(s: string, t: string)
    requires SameLetters(s, t)
    ensures SameLetters(Word(s), Word(t))
  {
    hide WithoutQuote;
    hide HasBreak;
    SameWithoutQuote(s, t);
    if |s| >= 2 {
      assert SameLetter(s[0], t[0]) && SameLetter(s[|s| - 1], t[|s| - 1]);
      SameSlice(s, t, 1, |s| - 1);
      SameBreak(s[1..|s| - 1], t[1..|s| - 1]);
      SameWithoutQuote(s[1..|s| - 1], t[1..|s| - 1]);
    }
  }

  predicate AllSameLetters(a: seq<string>, b: seq<string>) {
    |a| == |b| && forall k :: 0 <= k < |a| ==> SameLetters(a[k], b[k])
  }

  // The length of the token an input begins with, 0 for a space.
  function TokenLength(s: string): nat
    requires s != ""
  {
    if Phrase(s) then Until(s[1..], Quote) + 2 else if s[0] == ' ' then 0 else Until(s, ' ')
  }

  lemma TokenStep(s: string)
    requires s != ""
    ensures var n := TokenLength(s);
      n <= |s| && Tokens(s) == if n == 0 then Tokens(s[1..]) else [s[..n]] + Tokens(s[n..])
  {
    UntilSpace(s);
  }

  lemma SameLength(s: string, t: string)
    requires SameLetters(s, t) && s != ""
    ensures TokenLength(s) == TokenLength(t)
  {
    hide Until;
    SameSlice(s, t, 1, |s|);
    assert SameLetter(s[0], t[0]) && s[1..] == s[1..|s|] && t[1..] == t[1..|s|];
    SameUntil(s[1..], t[1..], Quote);
    SameUntil(s, t, ' ');
  }

  lemma {:induction false} SameTokens(s: string, t: string)
    requires SameLetters(s, t)
    ensures AllSameLetters(WordsOf(Tokens(s)), WordsOf(Tokens(t)))
    decreases |s|
  {
    hide Word;
    hide TokenLength;
    hide Tokens;
    hide WordsOf;
    if s == "" {
      NoTokens();
      NoWords();
    } else {
      TokenStep(s);
      TokenStep(t);
      SameLength(s, t);
      var n := TokenLength(s);
      var m := if n == 0 then 1 else n;
      SameSlice(s, t, m, |s|);
      assert s[m..] == s[m..|s|] && t[m..] == t[m..|s|];
      SameTokens(s[m..], t[m..]);
      if n > 0 {
        SameSlice(s, t, 0, n);
        assert s[..n] == s[0..n] && t[..n] == t[0..n];
        SameWord(s[..n], t[..n]);
        FirstWord(s[..n], Tokens(s[n..]));
        FirstWord(t[..n], Tokens(t[n..]));
      }
    }
  }

  lemma FirstWord(token: string, rest: seq<string>)
    ensures WordsOf([token] + rest) == [Word(token)] + WordsOf(rest)
  {
    assert ([token] + rest)[1..] == rest;
  }

  // An insensitive search matches the same texts whatever the letter case of input and text.
  lemma MatchCaseBlind(q: Search, q': Search, text: string, text': string)
    requires q.insensitive && SameFlags(q, q') && SameLetters(q.text, q'.text) && SameLetters(text, text')
    ensures Matches(q, text) <==> Matches(q', text')
  {
    hide Found;
    hide Tokens;
    hide WordsOf;
    if q.smart {
      SameBreak(text, text');
      SameTokens(q.text, q'.text);
      var ws, vs := Words(q.text), Words(q'.text);
      assert AllSameLetters(ws, vs);
      forall k | 0 <= k < |ws| ensures Found(text, ws[k], true) <==> Found(text', vs[k], true) {
        CaseBlind(text, text', ws[k], vs[k]);
      }
    } else {
      CaseBlind(text, text', q.text, q'.text);
    }
  }

  // ----- the words of an input

  // A stretch between spaces, or the ends of the input, without spaces in it.
  predicate Stretch(s: string, i: int, j: int) {
    0 <= i < j <= |s| && (forall k :: i <= k < j ==> s[k] != ' ') && (i == 0 || s[i - 1] == ' ') && (j == |s| || s[j] == ' ')
  }

  lemma UntilSpace(s: string)
    ensures var n := Until(s, ' '); (forall k :: 0 <= k < n ==> s[k] != ' ') && (n < |s| ==> s[n] == ' ') && (s != "" && s[0] != ' ' ==> n > 0)
  {
    var n := Until(s, ' ');
    forall k | 0 <= k < n ensures s[k] != ' ' { assert s[..n][k] == s[k]; }
  }

  // The tokens of an input without quotes are its stretches.
  lemma {:induction false} TokenIsStretch(s: string, k: nat) returns (i: int, j: int)
    requires Quote !in s && k < |Tokens(s)|
    ensures Stretch(s, i, j) && s[i..j] == Tokens(s)[k]
    decreases |s|
  {
    hide *;
    hide Stretch;
    assert s != "" by { NoTokens(); }
    PlainStep(s);
    if s[0] == ' ' {
      i, j := TokenIsStretch(s[1..], k);
      StretchLater(s, 1, i, j);
      i, j := i + 1, j + 1;
    } else {
      var n := Until(s, ' ');
      FirstStretch(s);
      if k == 0 {
        i, j := 0, n;
        assert s[0..n] == s[..n];
      } else {
        assert s[n..] != "" by { if s[n..] == "" { NoTokens(); } }
        i, j := TokenIsStretch(s[n..], k - 1);
        assert s[n..][0] == ' ';
        NotAtSpace(s[n..], i, j);
        StretchLater(s, n, i, j);
        i, j := i + n, j + n;
      }
    }
  }

  lemma StretchLater(s: string, n: nat, i: int, j: int)
    requires n <= |s| && Stretch(s[n..], i, j) && (i > 0 || n == 0 || s[n - 1] == ' ')
    ensures Stretch(s, i + n, j + n) && s[i + n..j + n] == s[n..][i..j]
  {
    forall k | i + n <= k < j + n ensures s[k] != ' ' { assert s[n..][k - n] == s[k]; }
  }

  lemma FirstStretch(s: string)
    requires s != "" && s[0] != ' '
    ensures Stretch(s, 0, Until(s, ' ')) && (Until(s, ' ') < |s| ==> s[Until(s, ' ')] == ' ')
  {
    UntilSpace(s);
  }

  lemma NotAtSpace(s: string, i: int, j: int)
    requires Stretch(s, i, j) && s[0] == ' '
    ensures i > 0
  {
  }

  lemma {:induction false} StretchIsToken(s: string, i: int, j: int) returns (k: nat)
    requires Quote !in s && Stretch(s, i, j)
    ensures k < |Tokens(s)| && Tokens(s)[k] == s[i..j]
    decreases |s|
  {
    hide *;
    assert 0 <= i < j <= |s| by { StretchBounds(s, i, j); }
    PlainStep(s);
    if s[0] == ' ' {
      NotAtSpace(s, i, j);
      StretchSooner(s, 1, i, j);
      k := StretchIsToken(s[1..], i - 1, j - 1);
    } else {
      var n := Until(s, ' ');
      if i == 0 {
        k := 0;
        SameEnd(s, j);
      } else {
        AfterFirst(s, i, j);
        StretchSooner(s, n, i, j);
        var m := StretchIsToken(s[n..], i - n, j - n);
        k := m + 1;
      }
    }
  }

  lemma StretchBounds(s: string, i: int, j: int)
    requires Stretch(s, i, j)
    ensures 0 <= i < j <= |s|
  {
  }

  lemma StretchSooner(s: string, n: nat, i: int, j: int)
    requires Stretch(s, i, j) && n <= i
    ensures Stretch(s[n..], i - n, j - n) && s[n..][i - n..j - n] == s[i..j]
  {
  }

  lemma SameEnd(s: string, j: int)
    requires Stretch(s, 0, j)
    ensures j == Until(s, ' ') && s[0..j] == s[..j]
  {
    UntilSpace(s);
  }

  lemma AfterFirst(s: string, i: int, j: int)
    requires Stretch(s, i, j) && i > 0 && s[0] != ' '
    ensures 0 < Until(s, ' ') < i
  {
    UntilSpace(s);
  }

  // A smart search without quotes matches a text on one line exactly when every stretch of the input
  // without spaces is found in it.
  lemma SmartMatch(q: Search, text: string)
    requires q.smart && Quote !in q.text
    ensures Matches(q, text) <==>
      !HasBreak(text) && forall i, j :: Stretch(q.text, i, j) ==> Found(text, q.text[i..j], q.insensitive)
  {
    hide Found;
    hide Tokens;
    var s := q.text;
    PlainWords(s);
    var ts := Tokens(s);
    if !HasBreak(text) && AllFound(text, Words(s), q.insensitive) {
      forall i, j | Stretch(s, i, j) ensures Found(text, s[i..j], q.insensitive) {
        var k := StretchIsToken(s, i, j);
      }
    }
    if forall i, j :: Stretch(s, i, j) ==> Found(text, s[i..j], q.insensitive) {
      forall k | 0 <= k < |Words(s)| ensures Found(text, Words(s)[k], q.insensitive) {
        if ts == [] {
          FoundPart("", "", text, "", q.insensitive);
          assert "" + "" + text == text;
        } else {
          var i, j := TokenIsStretch(s, k);
        }
      }
    }
  }

  // A phrase in quotes is one word, its spaces included.
  lemma PhraseMatch(q: Search, phrase: string, text: string)
    requires q.smart && phrase != "" && Quote !in phrase && !HasBreak(phrase) && q.text == [Quote] + phrase + [Quote]
    ensures Matches(q, text) <==> !HasBreak(text) && Found(text, phrase, q.insensitive)
  {
    hide Found;
    var s := q.text;
    var n := |phrase| + 2;
    assert s[1..] == phrase + [Quote] && s[1..n - 1] == phrase && s[..n] == s && s[n..] == "";
    UntilJoin(phrase, [Quote], Quote);
    assert Until([Quote], Quote) == 0;
    assert Tokens(s) == [s] + Tokens("");
    WithoutQuoteIs(phrase);
    assert Word(s) == phrase;
    assert WordsOf([s]) == [Word(s)] + WordsOf([s][1..]) && [s][1..] == [];
    var ws := Words(s);
    assert ws == [phrase] && ws[0] == phrase;
    assert AllFound(text, ws, q.insensitive) <==> Found(text, ws[0], q.insensitive);
  }

  // A smart search matches no text of several lines.
  lemma OneLine(q: Search, text: string)
    requires q.smart && ('\n' in text || '\r' in text || '\U{2028}' in text || '\U{2029}' in text)
    ensures !Matches(q, text)
  {
    var c := if '\n' in text then '\n' else if '\r' in text then '\r' else if '\U{2028}' in text then '\U{2028}' else '\U{2029}';
    BreakIn(text, c);
  }
}
