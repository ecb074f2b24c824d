/**
  What the passes do to single directives: the text a directive compiles to,
  and the interplay of passes that share a marker.
 */
module Directives {
  import opened Text
  import opened PhpStrings
  import opened Balanced
  import opened Patterns
  import opened Preg
  import opened Locate
  import opened Passes
  import opened Compiler

  /** A word that does not start at `i` because one of its characters differs. */
  lemma NotStartsAt(t: string, i: nat, w: string, k: nat)
    requires k < |w| && (i + k >= |t| || t[i + k] != w[k])
    ensures !StartsAt(t, i, w)
  {
  }

  /** A whitespace run followed by a character that is not whitespace ends there. */
  lemma WsEndAt(t: string, i: nat, j: nat)
    requires i <= j <= |t|
    requires forall k :: i <= k < j ==> IsSpace(t[k])
    requires j == |t| || !IsSpace(t[j])
    ensures WsEnd(t, i) == j
  {
  }

  /** A word occurs at the start of a concatenation that begins with it. */
  lemma StartsAtJoin(a: string, w: string, b: string)
    ensures StartsAt(a + w + b, |a|, w)
  {
    assert (a + w + b)[|a|..|a| + |w|] == w;
  }

  lemma TakeJoin(u: string, v: string, n: nat)
    requires n <= |u|
    ensures (u + v)[0..n] == u[0..n] && u[0..|u|] == u
  {
  }

  lemma DropJoin(u: string, v: string, y: string)
    ensures (u + v + y)[|u|..|u + v + y|] == v + y
  {
  }

  /** A pattern matching the whole text from its first index is replaced by
      its expansion, and is the only match there. */
  lemma SingleMatch(p: Pattern, t: string, h: Hit, tmpl: seq<Piece>)
    requires MatchAt(p, t, 0) == Some(h) && h.end == |t|
    ensures Replace(p, t, tmpl) == Expand(tmpl, h)
    ensures Matches(p, t) == [h]
  {
    MarkerAbsentNoMatch(p, t);
    WholeMatchReplaced(Scanner(p), t, tmpl, h);
  }

  /** A pattern matching the whole text from its first index finds that
      match and no other. */
  lemma OnlyMatch(p: Pattern, t: string, h: Hit)
    requires MatchAt(p, t, 0) == Some(h) && h.end == |t|
    ensures Matches(p, t) == [h]
  {
    MarkerAbsentNoMatch(p, t);
    WholeMatchReplaced(Scanner(p), t, [], h);
  }

  // ---------------------------------------------------------------------
  // Block openers.

  /** The keywords the alternation tries before `kw` do not occur after the
      `@` when `kw` does and is followed by whitespace or `(`. */
  lemma KeywordsBefore(t: string, a: nat, i: nat)
    requires i < |OpeningKeywords|
    requires StartsAt(t, a + 1, OpeningKeywords[i])
    requires var n := a + 1 + |OpeningKeywords[i]|; n < |t| && (IsSpace(t[n]) || t[n] == '(')
    ensures forall k :: 0 <= k < i ==> !StartsAt(t, a + 1, OpeningKeywords[k])
  {
    var kw := OpeningKeywords[i];
    assert t[a + 1..a + 1 + |kw|][0] == t[a + 1];
    forall k | 0 <= k < i
      ensures !StartsAt(t, a + 1, OpeningKeywords[k])
    {
      if i == 3 && k == 2 {
        NotStartsAt(t, a + 1, OpeningKeywords[k], 3);
      } else {
        NotStartsAt(t, a + 1, OpeningKeywords[k], 0);
      }
    }
  }

  /** The opener matches at the start of a text whose `@` is at `a` and whose
      `i`-th keyword, after `@`, is followed by groups ending at `e`, when no
      earlier keyword occurs there. */
  lemma OpeningMatchAt(t: string, a: nat, i: nat, c: nat, e: nat, whole: string, before: string, after: string)
    requires a < |t| && WsEnd(t, 0) == a && t[a] == '@'
    requires i < |OpeningKeywords| && StartsAt(t, a + 1, OpeningKeywords[i])
    requires forall k :: 0 <= k < i ==> !StartsAt(t, a + 1, OpeningKeywords[k])
    requires WsEnd(t, a + 1 + |OpeningKeywords[i]|) == c && GroupsEnd(t, c) == Some(e)
    requires t[0..e] == whole && t[0..a] == before && t[a + 1 + |OpeningKeywords[i]|..e] == after
    ensures MatchAt(Opening, t, 0) == Some(Hit(0, e, [whole, before, OpeningKeywords[i], after]))
  {
    OpeningAtIs(t, a, i, c, e);
    OpeningMatchIs(t, Hit(0, e, [whole, before, OpeningKeywords[i], after]));
  }

  lemma OpeningAtIs(t: string, a: nat, i: nat, c: nat, e: nat)
    requires a < |t| && WsEnd(t, 0) == a && t[a] == '@'
    requires i < |OpeningKeywords| && StartsAt(t, a + 1, OpeningKeywords[i])
    requires forall k :: 0 <= k < i ==> !StartsAt(t, a + 1, OpeningKeywords[k])
    requires WsEnd(t, a + 1 + |OpeningKeywords[i]|) == c && GroupsEnd(t, c) == Some(e)
    ensures var kw := OpeningKeywords[i];
            OpeningAt(t, 0) == Some(Hit(0, e, [t[0..e], t[0..a], kw, t[a + 1 + |kw|..e]]))
  {
    OpeningAltHit(t, a, OpeningKeywords, i, c, e);
    OpeningAltSkips(t, a, OpeningKeywords, 0, i);
    assert OpeningAt(t, 0) == OpeningAlt(t, 0, a, OpeningKeywords, 0);
  }

  lemma OpeningMatchIs(t: string, h: Hit)
    requires |t| > 0 && OpeningAt(t, 0) == Some(h)
    ensures MatchAt(Opening, t, 0) == Some(h)
  {
    assert DirectiveIn(Opening, t, 0) == OpeningAt(t, 0);
  }

  lemma OpeningAltHit(t: string, a: nat, kws: seq<Word>, i: nat, c: nat, e: nat)
    requires a < |t| && i < |kws| && StartsAt(t, a + 1, kws[i])
    requires WsEnd(t, a + 1 + |kws[i]|) == c && GroupsEnd(t, c) == Some(e)
    ensures var kw := kws[i];
            OpeningAlt(t, 0, a, kws, i) == Some(Hit(0, e, [t[0..e], t[0..a], kw, t[a + 1 + |kw|..e]]))
  {
  }

  /** Everything the opener scanner checks in `t`: the `@` at `a`, the
      `i`-th keyword after it and no earlier one, and the group from `c` to
      the end. */
  lemma OpeningFacts(t: string, kw: Word, i: nat, a: nat, c: nat, w: string, w2: string, g: string)
    requires i < |OpeningKeywords| && OpeningKeywords[i] == kw
    requires a + 1 + |kw| <= c < |t| && WsEnd(t, 0) == a && t[a] == '@' && StartsAt(t, a + 1, kw)
    requires WsEnd(t, a + 1 + |kw|) == c && GroupsEnd(t, c) == Some(|t|)
    requires IsSpace(t[a + 1 + |kw|]) || t[a + 1 + |kw|] == '('
    requires t[0..|t|] == t && t[0..a] == w && t[a + 1 + |kw|..|t|] == w2 + g
    ensures a < |t| && StartsAt(t, a + 1, OpeningKeywords[i])
    ensures forall k :: 0 <= k < i ==> !StartsAt(t, a + 1, OpeningKeywords[k])
    ensures WsEnd(t, a + 1 + |OpeningKeywords[i]|) == c
    ensures t[a + 1 + |OpeningKeywords[i]|..|t|] == w2 + g
  {
    KeywordsBefore(t, a, i);
  }

  /** Where the parts of `w@kw w2 g` sit in `t`. */
  lemma OpeningLayout(t: string, w: string, kw: Word, w2: string, g: string) returns (a: nat, c: nat)
    requires AllSpace(w) && AllSpace(w2) && IsGroup(g)
    requires t == w + "@" + kw + w2 + g
    ensures a == |w| && c == a + 1 + |kw| + |w2| && c < |t|
    ensures WsEnd(t, 0) == a && t[a] == '@' && StartsAt(t, a + 1, kw)
    ensures WsEnd(t, a + 1 + |kw|) == c && GroupsEnd(t, c) == Some(|t|)
    ensures IsSpace(t[a + 1 + |kw|]) || t[a + 1 + |kw|] == '('
    ensures t[0..|t|] == t && t[0..a] == w && t[a + 1 + |kw|..|t|] == w2 + g
  {
    a, c := |w|, |w| + 1 + |kw| + |w2|;
    OpeningPieces(t, w, kw, w2, g);
    OpeningLayoutAt(t, a, c, w, kw, w2, g);
  }

  /** `OpeningLayout` from the slices of the text alone. */
  lemma OpeningLayoutAt(t: string, a: nat, c: nat, w: string, kw: Word, w2: string, g: string)
    requires AllSpace(w) && AllSpace(w2) && IsGroup(g)
    requires a + 1 + |kw| + |w2| == c && c + |g| == |t|
    requires t[0..a] == w && t[a] == '@' && t[a + 1..a + 1 + |kw|] == kw
    requires t[a + 1 + |kw|..c] == w2 && t[c..c + |g|] == g && t[a + 1 + |kw|..|t|] == w2 + g
    ensures WsEnd(t, 0) == a && StartsAt(t, a + 1, kw)
    ensures WsEnd(t, a + 1 + |kw|) == c && GroupsEnd(t, c) == Some(|t|)
    ensures IsSpace(t[a + 1 + |kw|]) || t[a + 1 + |kw|] == '('
    ensures t[0..|t|] == t
  {
    GroupAtIndex(t, c, g);
    OpeningAtFacts(t, a, c, w, kw, w2, g);
  }

  /** A balanced group that ends the text is all that `(?R)+` takes there. */
  lemma GroupAtIndex(t: string, c: nat, g: string)
    requires IsGroup(g) && c + |g| == |t| && t[c..c + |g|] == g
    ensures GroupsEnd(t, c) == Some(|t|)
  {
    GroupsEndSingle(t, c, g);
  }

  /** The slices of `w@kw w2 g` that are its parts. */
  lemma OpeningPieces(t: string, w: string, kw: Word, w2: string, g: string)
    requires t == w + "@" + kw + w2 + g
    ensures var a := |w|;
            var b := a + 1 + |kw|;
            var c := b + |w2|;
            && |t| == c + |g| && t[0..a] == w && t[a] == '@' && t[a + 1..b] == kw
            && t[b..c] == w2 && t[c..c + |g|] == g && t[b..|t|] == w2 + g
  {
  }

  /** The scanner's view of a text whose slices are `w`, `@`, `kw`, `w2`
      and the group `g`. */
  lemma OpeningAtFacts(t: string, a: nat, c: nat, w: string, kw: Word, w2: string, g: string)
    requires AllSpace(w) && AllSpace(w2) && |g| > 0 && g[0] == '('
    requires a + 1 + |kw| + |w2| == c && c + |g| == |t|
    requires t[0..a] == w && t[a] == '@' && t[a + 1..a + 1 + |kw|] == kw
    requires t[a + 1 + |kw|..c] == w2 && t[c..c + |g|] == g && t[a + 1 + |kw|..|t|] == w2 + g
    ensures WsEnd(t, 0) == a && StartsAt(t, a + 1, kw)
    ensures WsEnd(t, a + 1 + |kw|) == c
    ensures IsSpace(t[a + 1 + |kw|]) || t[a + 1 + |kw|] == '('
    ensures t[0..|t|] == t
  {
    var b := a + 1 + |kw|;
    forall k | 0 <= k < a
      ensures IsSpace(t[k])
    {
      assert t[k] == t[0..a][k];
    }
    WsEndAt(t, 0, a);
    forall k | b <= k < c
      ensures IsSpace(t[k])
    {
      assert t[k] == t[b..c][k - b];
    }
    assert t[c] == g[0];
    WsEndAt(t, b, c);
    if b < c {
      assert t[b] == w2[0];
    }
  }

  /** `w@kw w2(...)`: the opener takes the keyword, the whitespace after it
      and one whole balanced group, nested parentheses included. */
  lemma OpeningMatch(w: string, kw: Word, w2: string, g: string)
    requires AllSpace(w) && AllSpace(w2) && kw in OpeningKeywords && IsGroup(g)
    ensures var t := w + "@" + kw + w2 + g;
            MatchAt(Opening, t, 0) == Some(Hit(0, |t|, [t, w, kw, w2 + g]))
  {
    var t := w + "@" + kw + w2 + g;
    var i :| 0 <= i < |OpeningKeywords| && OpeningKeywords[i] == kw;
    var a, c := OpeningLayout(t, w, kw, w2, g);
    OpeningFacts(t, kw, i, a, c, w, w2, g);
    OpeningMatchAt(t, a, i, c, |t|, t, w, w2 + g);
  }

  /** Keywords of the alternation that do not occur after `@` are passed over. */
  lemma {:induction false} OpeningAltSkips(t: string, a: nat, kws: seq<Word>, k: nat, i: nat)
    requires a < |t| && k <= i < |kws|
    requires forall m :: k <= m < i ==> !StartsAt(t, a + 1, kws[m])
    ensures OpeningAlt(t, 0, a, kws, k) == OpeningAlt(t, 0, a, kws, i)
    decreases i - k
  {
    if k < i {
      OpeningAltStep(t, a, kws, k);
      OpeningAltSkips(t, a, kws, k + 1, i);
    }
  }

  /** A keyword that does not occur after `@` is passed over. */
  lemma OpeningAltStep(t: string, a: nat, kws: seq<Word>, k: nat)
    requires a < |t| && k < |kws| && !StartsAt(t, a + 1, kws[k])
    ensures OpeningAlt(t, 0, a, kws, k) == OpeningAlt(t, 0, a, kws, k + 1)
  {
    assert KeywordHit(t, 0, a, kws[k]) == None;
  }

  /** `@if (cond)` compiles to `<?php if (cond): ?>`, the whitespace before
      `@` and after the keyword kept, whatever parentheses `cond` nests. */
  lemma OpeningCompiles(w: string, kw: Word, w2: string, g: string)
    requires AllSpace(w) && AllSpace(w2) && kw in OpeningKeywords && IsGroup(g)
    ensures CompileOpenings(w + "@" + kw + w2 + g) == w + "<?php " + kw + w2 + g + ": ?>"
  {
    var t := w + "@" + kw + w2 + g;
    OpeningMatch(w, kw, w2, g);
    var h := Hit(0, |t|, [t, w, kw, w2 + g]);
    SingleMatch(Opening, t, h, OpeningCode);
    ExpandOpening(h);
    Regroup(w + "<?php " + kw, w2, g, ": ?>");
  }

  lemma Regroup(p: string, b: string, c: string, q: string)
    ensures p + (b + c) + q == p + b + c + q
  {
  }

  lemma ExpandOpening(h: Hit)
    ensures Expand(OpeningCode, h) == Group(h, 1) + "<?php " + Group(h, 2) + Group(h, 3) + ": ?>"
  {
    var c := OpeningCode;
    assert c[1..][1..][1..][1..][1..] == [];
  }

  /** A balanced group starts at `i`. */
  ghost predicate OpensGroup(t: string, i: nat) {
    exists j :: i < j <= |t| && IsGroup(t[i..j])
  }

  /** No block opener in `t` is complete: wherever `@` and an opener keyword
      occur, no balanced group follows the whitespace after the keyword. */
  ghost predicate NoCompleteOpener(t: string) {
    forall a: nat, kw: Word :: a < |t| && t[a] == '@' && kw in OpeningKeywords && StartsAt(t, a + 1, kw) ==>
      !OpensGroup(t, WsEnd(t, a + 1 + |kw|))
  }

  /** An opener that is never closed is left as it is: when no `@kw` is
      followed by a balanced group, as in `@if(f(x)` or `@while(`, the
      opener pass changes nothing. */
  lemma UnclosedOpeningUnchanged(t: string)
    requires NoCompleteOpener(t)
    ensures CompileOpenings(t) == t
  {
    MarkerAbsentNoMatch(Opening, t);
    forall s: nat | s <= |t|
      ensures Scanner(Opening)(t, s).None?
    {
      DirectiveMatch(Opening, t, s);
      NoOpeningAt(t, s);
    }
    NoMatchUnchanged(Scanner(Opening), t, OpeningCode);
  }

  /** `@if(f(x)` is left as it is: the group after `if` never closes. */
  lemma UnclosedIfUnchanged()
    ensures CompileOpenings("@if(f(x)") == "@if(f(x)"
  {
    var t := "@if(f(x)";
    UnclosedIfGroup(t);
    forall a: nat, kw: Word | a < |t| && t[a] == '@' && kw in OpeningKeywords && StartsAt(t, a + 1, kw)
      ensures !OpensGroup(t, WsEnd(t, a + 1 + |kw|))
    {
      assert a == 0;
      assert kw == "if";
      assert WsEnd(t, 3) == 3;
      GroupsEndSome(t, 3);
    }
    UnclosedOpeningUnchanged(t);
  }

  /** The group after `@if` in `@if(f(x)` ends with depth one still open. */
  lemma UnclosedIfGroup(t: string)
    requires t == "@if(f(x)"
    ensures GroupEnd(t, 3).None?
  {
    OpenDepth(t, 3);
    DepthStep(t, 3, 4);
    DepthStep(t, 3, 5);
    DepthStep(t, 3, 6);
    DepthStep(t, 3, 7);
    assert CloseFrom(t, 3, 8, 1) == None;
    assert CloseFrom(t, 3, 4, 1) == CloseFrom(t, 3, 5, 1) == CloseFrom(t, 3, 6, 2) == CloseFrom(t, 3, 7, 2) == CloseFrom(t, 3, 8, 1);
  }

  /** Without a complete opener the opener pattern matches nowhere. */
  lemma NoOpeningAt(t: string, s: nat)
    requires s <= |t| && NoCompleteOpener(t)
    ensures OpeningAt(t, s).None?
  {
    if NotAfterWord(t, s) {
      var a := WsEnd(t, s);
      if a < |t| && t[a] == '@' {
        forall k | 0 <= k < |OpeningKeywords|
          ensures KeywordHit(t, s, a, OpeningKeywords[k]).None?
        {
          NoKeywordGroups(t, a, OpeningKeywords[k]);
        }
        OpeningAltNone(t, s, a, OpeningKeywords, 0);
      }
    }
  }

  /** After an `@`, no keyword of an incomplete opener is followed by groups. */
  lemma NoKeywordGroups(t: string, a: nat, kw: Word)
    requires a < |t| && t[a] == '@' && kw in OpeningKeywords && NoCompleteOpener(t)
    ensures KeywordGroups(t, a, kw).None?
  {
    if StartsAt(t, a + 1, kw) {
      assert !OpensGroup(t, WsEnd(t, a + 1 + |kw|));
      GroupsEndSome(t, WsEnd(t, a + 1 + |kw|));
    }
  }

  /** The alternation fails when every keyword from `k` on fails. */
  lemma {:induction false} OpeningAltNone(t: string, s: nat, a: nat, kws: seq<Word>, k: nat)
    requires s <= a < |t| && k <= |kws|
    requires forall j :: k <= j < |kws| ==> KeywordHit(t, s, a, kws[j]).None?
    ensures OpeningAlt(t, s, a, kws, k).None?
    decreases |kws| - k
  {
    if k < |kws| {
      OpeningAltNone(t, s, a, kws, k + 1);
    }
  }

  // ---------------------------------------------------------------------
  // `@else`, and the `@elseif` it would swallow.

  /** A pattern matching at the start of the text and nowhere after its match
      replaces that prefix and keeps the rest. */
  lemma LeadingMatch(p: Pattern, t: string, h: Hit, tmpl: seq<Piece>)
    requires MatchAt(p, t, 0) == Some(h)
    requires forall s: nat :: h.end <= s <= |t| ==> MatchAt(p, t, s).None?
    ensures Replace(p, t, tmpl) == Expand(tmpl, h) + t[h.end..]
    ensures Matches(p, t) == [h]
  {
    MarkerAbsentNoMatch(p, t);
    LeadingMatchReplaced(Scanner(p), t, tmpl, h);
  }

  /** A character of `w` that `t` lacks from `from` on keeps `w` from
      occurring there. */
  lemma Missing(t: string, from: nat, w: string, j: nat)
    requires j < |w|
    requires forall k :: from <= k < |t| ==> t[k] != w[j]
    ensures !OccursFrom(t, from, w)
  {
    forall i: nat | from <= i <= |t|
      ensures !StartsAt(t, i, w)
    {
      if i + |w| <= |t| {
        assert t[i..i + |w|][j] == t[i + j];
      }
    }
  }

  lemma ExpandElse(h: Hit)
    ensures Expand(ElseCode, h) == Group(h, 1) + "<?php else: ?>" + Group(h, 2)
  {
    var c := ElseCode;
    assert c[1..][1..][1..] == [];
  }

  /** `w@else w2` compiles to `w<?php else: ?>w2`, both whitespace runs kept. */
  lemma ElseCompiles(w: string, w2: string)
    requires AllSpace(w) && AllSpace(w2)
    ensures CompileElse(w + "@else" + w2) == w + "<?php else: ?>" + w2
  {
    var t := w + "@else" + w2;
    ElseLayout(w, w2, t);
    var h := ElseHitAt(t, |w|, w, w2);
    ElseWhole(t, h, w, w2);
  }

  /** Where the parts of `w@else w2` sit. */
  lemma ElseLayout(w: string, w2: string, t: string)
    requires AllSpace(w) && AllSpace(w2) && t == w + "@else" + w2
    ensures |t| == |w| + 5 + |w2|
    ensures forall k :: 0 <= k < |w| ==> IsSpace(t[k])
    ensures t[|w|] == '@' && StartsAt(t, |w| + 1, "else")
    ensures forall k :: |w| + 5 <= k < |t| ==> IsSpace(t[k])
    ensures t[0..|w|] == w && t[|w| + 5..|t|] == w2
  {
    var a := |w|;
    StartsAtJoin(w, "@else", w2);
    assert t[a..a + 5][1..] == t[a + 1..a + 5];
    TakeJoin(w + "@else", w2, a);
    TakeJoin(w, "@else", a);
    DropJoin(w, "@else", w2);
  }

  /** The `@else` match over a text laid out as `w@else w2`, by positions. */
  lemma ElseHitAt(t: string, a: nat, w: string, w2: string) returns (h: Hit)
    requires a + 5 <= |t|
    requires forall k :: 0 <= k < a ==> IsSpace(t[k])
    requires t[a] == '@' && StartsAt(t, a + 1, "else")
    requires forall k :: a + 5 <= k < |t| ==> IsSpace(t[k])
    requires t[0..a] == w && t[a + 5..|t|] == w2
    ensures MatchAt(PlainMatcher("else"), t, 0) == Some(h) && h.end == |t|
    ensures Group(h, 1) == w && Group(h, 2) == w2
  {
    WsEndAt(t, 0, a);
    WsEndAt(t, a + 5, |t|);
    h := Hit(0, |t|, [t, w, w2]);
    assert t[0..|t|] == t;
    assert MatchIn(PlainMatcher("else"), t, 0) == PlainAt(t, 0, "else");
  }

  /** A text that is one `@else` match is replaced by that match's code. */
  lemma ElseWhole(t: string, h: Hit, w: string, w2: string)
    requires MatchAt(PlainMatcher("else"), t, 0) == Some(h) && h.end == |t|
    requires Group(h, 1) == w && Group(h, 2) == w2
    ensures CompileElse(t) == w + "<?php else: ?>" + w2
  {
    SingleMatch(PlainMatcher("else"), t, h, ElseCode);
    ExpandElse(h);
  }

  /** On its own, the `@else` pass takes the start of `@elseif`: the pattern
      has no word boundary after the keyword, so what follows `@else` is
      left behind as text. */
  lemma ElseSwallowsKeyword(y: string)
    requires |y| > 0 && !IsSpace(y[0]) && '@' !in y
    ensures CompileElse("@else" + y) == "<?php else: ?>" + y
  {
    var t := "@else" + y;
    assert t[1..5] == "else" && t[5..] == y && t[0..5] == "@else";
    var h := ElseLeadingHit(t);
    ElseLeading(t, h, y);
  }

  /** `@else` at the start of a text, followed by neither whitespace nor
      anything else the pattern takes. */
  lemma ElseLeadingHit(t: string) returns (h: Hit)
    requires 5 < |t| && t[0] == '@' && t[1..5] == "else" && !IsSpace(t[5]) && t[0..5] == "@else"
    ensures MatchAt(PlainMatcher("else"), t, 0) == Some(h) && h.end == 5
    ensures Group(h, 1) == "" && Group(h, 2) == ""
  {
    WsEndAt(t, 0, 0);
    WsEndAt(t, 5, 5);
    h := Hit(0, 5, ["@else", "", ""]);
    assert t[0..0] == "" && t[5..5] == "";
    assert MatchIn(PlainMatcher("else"), t, 0) == PlainAt(t, 0, "else");
  }

  /** A leading `@else` match with no `@` after it: only that prefix is
      replaced. */
  lemma ElseLeading(t: string, h: Hit, y: string)
    requires MatchAt(PlainMatcher("else"), t, 0) == Some(h) && h.end == 5 && 5 <= |t|
    requires Group(h, 1) == "" && Group(h, 2) == "" && t[5..] == y && '@' !in y
    ensures CompileElse(t) == "<?php else: ?>" + y
  {
    forall k | 5 <= k < |t|
      ensures t[k] != '@'
    {
      assert t[k] == y[k - 5];
    }
    Missing(t, 5, "@", 0);
    LeadingMatch(PlainMatcher("else"), t, h, ElseCode);
    ExpandElse(h);
    assert Expand(ElseCode, h) == "<?php else: ?>";
    assert CompileElse(t) == Replace(PlainMatcher("else"), t, ElseCode);
  }

  /** A character of `w` missing from `t`: `w` does not occur in `t`. */
  lemma MissingChar(t: string, w: string, j: nat)
    requires j < |w| && w[j] !in t
    ensures !OccursFrom(t, 0, w)
  {
    Missing(t, 0, w, j);
  }

  /** `w` occurs in `x + y + z` only inside `y` when `x` holds no first
      character of `w` and `z` holds neither its first nor its last. */
  lemma AbsentAround(x: string, y: string, z: string, w: string)
    requires |w| > 0 && w[0] !in x && w[0] !in z && w[|w| - 1] !in z
    requires !OccursFrom(y, 0, w)
    ensures !OccursFrom(x + y + z, 0, w)
  {
    var t := x + y + z;
    forall i: nat | i <= |t|
      ensures !StartsAt(t, i, w)
    {
      if i < |x| {
        assert t[i] == x[i];
        NotStartsAt(t, i, w, 0);
      } else if i >= |x| + |y| {
        if i < |t| {
          assert t[i] == z[i - |x| - |y|];
        }
        NotStartsAt(t, i, w, 0);
      } else if i + |w| <= |x| + |y| {
        assert !StartsAt(y, i - |x|, w);
        assert t[i..i + |w|] == y[i - |x|..i - |x| + |w|];
      } else {
        var l := i + |w| - 1;
        if l < |t| {
          assert t[l] == z[l - |x| - |y|];
        }
        NotStartsAt(t, i, w, |w| - 1);
      }
    }
  }

  /** The passes before the openers leave text without `{{` and double
      backticks alone. */
  lemma FrontPassesUnchanged(t: string)
    requires !OccursFrom(t, 0, "{{") && !OccursFrom(t, 0, "``")
    ensures CompileCodes(CompileEchos(CompileArrays(CompileComments(t)))) == t
  {
  }

  /** The passes after the openers leave text without `@` and `get_` alone. */
  lemma BackPassesUnchanged(theme: Theme, t: string)
    requires '@' !in t && !OccursFrom(t, 0, "get_")
    ensures CompileLoop(CompilePartials(theme, CompileIncludes(theme, CompileElse(CompileClosings(t))))) == t
  {
    MissingChar(t, "@", 0);
    PartialsWithoutCalls(theme, t);
  }

  /** `@elseif(...)` alone, through the opener pass. */
  lemma ElseifOpening(g: string)
    requires IsGroup(g)
    ensures CompileOpenings("@elseif" + g) == "<?php elseif" + g + ": ?>"
  {
    assert "" + "@" + "elseif" + "" == "@elseif";
    assert "" + "<?php " + "elseif" + "" == "<?php elseif";
    OpeningCompiles("", "elseif", "", g);
  }

  /** Through the whole pipeline `@elseif(...)` reaches the opener pass
      before the `@else` pass and becomes an `elseif`; on its own the `@else`
      pass would have made `<?php else: ?>if(...)` of it. The condition may
      hold anything but a directive, a tag or a partial call. */
  lemma ElseifCompiles(theme: Theme, g: string)
    requires IsGroup(g) && '@' !in g
    requires !OccursFrom(g, 0, "{{") && !OccursFrom(g, 0, "``") && !OccursFrom(g, 0, "get_")
    ensures CompileString(theme, "@elseif" + g) == "<?php elseif" + g + ": ?>"
    ensures CompileElse("@elseif" + g) == "<?php else: ?>if" + g
  {
    var t := "@elseif" + g;
    var u := "<?php elseif" + g + ": ?>";
    ElseifTextLacks(g);
    FrontPassesUnchanged(t);
    ElseifOpening(g);
    ElseifCodeLacks(g);
    BackPassesUnchanged(theme, u);
    PipelineOrder(theme, t);
    ElseifElse(g);
  }

  /** No tag starts in `@elseif(...)` outside the condition. */
  lemma ElseifTextLacks(g: string)
    requires !OccursFrom(g, 0, "{{") && !OccursFrom(g, 0, "``")
    ensures !OccursFrom("@elseif" + g, 0, "{{") && !OccursFrom("@elseif" + g, 0, "``")
  {
    assert "@elseif" + g + "" == "@elseif" + g;
    AbsentAround("@elseif", g, "", "{{");
    AbsentAround("@elseif", g, "", "``");
  }

  /** The `elseif` code adds no `@` and no partial call to the condition. */
  lemma ElseifCodeLacks(g: string)
    requires '@' !in g && !OccursFrom(g, 0, "get_")
    ensures var u := "<?php elseif" + g + ": ?>"; '@' !in u && !OccursFrom(u, 0, "get_")
  {
    assert '@' !in "<?php elseif" && 'g' !in "<?php elseif";
    assert '@' !in ": ?>" && 'g' !in ": ?>" && '_' !in ": ?>";
    AbsentAround("<?php elseif", g, ": ?>", "get_");
  }

  lemma ElseifElse(g: string)
    requires '@' !in g
    ensures CompileElse("@elseif" + g) == "<?php else: ?>if" + g
  {
    assert "@else" + ("if" + g) == "@elseif" + g;
    ElseSwallowsKeyword("if" + g);
    assert "<?php else: ?>" + ("if" + g) == "<?php else: ?>if" + g;
  }
}
