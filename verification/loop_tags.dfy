/**
  The loop pass on templates made of loop directives and plain text between
  them. The matches are exactly the directives, in order, each with the
  whitespace around it; the code chosen for the `i`-th one depends on the
  keyword matched before it. In place, every directive receives its own
  code between its own whitespace; `str_replace`, on directives with no
  whitespace around them, gives every copy of a keyword the code chosen for
  its first copy.
 */
module LoopTags {
  import opened Text
  import opened PhpStrings
  import opened Patterns
  import opened Preg
  import opened Passes
  import opened Directives

  /** A loop keyword after its `@`. */
  function At(k: string): string {
    "@" + k
  }

  function Ats(ks: seq<string>): (r: seq<string>)
    ensures |r| == |ks|
    ensures forall i :: 0 <= i < |ks| ==> r[i] == At(ks[i])
  {
    seq(|ks|, i requires 0 <= i < |ks| => At(ks[i]))
  }

  /** `ys[0] cs[0] ys[1] cs[1] ... ys[n]`: pieces `cs` with text between. */
  function Render(ys: seq<string>, cs: seq<string>): string
    requires |ys| == |cs| + 1
    decreases |cs|
  {
    if |cs| == 0 then ys[0] else ys[0] + cs[0] + Render(ys[1..], cs[1..])
  }

  /** The texts around loop directives: no `@`, and no whitespace next to
      a directive, which the pattern's `(\s*)` groups would take into the
      directive's match. The template may still start and end with
      whitespace: only a text after a directive (all but the first) must not
      start with it, and only a text before one (all but the last) must not
      end with it. */
  predicate Between(ys: seq<string>) {
    && (forall j :: 0 <= j < |ys| ==> '@' !in ys[j])
    && (forall j :: 0 < j < |ys| && |ys[j]| > 0 ==> !IsSpace(ys[j][0]))
    && (forall j :: 0 <= j < |ys| - 1 && |ys[j]| > 0 ==> !IsSpace(ys[j][|ys[j]| - 1]))
  }

  /** A loop directive as the loop pattern matches it: the whitespace before
      the `@` (`$matches[1]`), the keyword (`$matches[2]`) and the whitespace
      after it (`$matches[3]`). */
  datatype Directive = Directive(lead: string, kw: string, trail: string)

  /** The text a directive's match covers: `$matches[0]`. */
  function Written(d: Directive): string {
    d.lead + At(d.kw) + d.trail
  }

  function Writtens(ds: seq<Directive>): (r: seq<string>)
    ensures |r| == |ds|
    ensures forall i :: 0 <= i < |ds| ==> r[i] == Written(ds[i])
  {
    seq(|ds|, i requires 0 <= i < |ds| => Written(ds[i]))
  }

  function Kws(ds: seq<Directive>): (r: seq<string>)
    ensures |r| == |ds|
    ensures forall i :: 0 <= i < |ds| ==> r[i] == ds[i].kw
  {
    seq(|ds|, i requires 0 <= i < |ds| => ds[i].kw)
  }

  /** Directives with no whitespace around them. */
  function Bare(ks: seq<string>): (r: seq<Directive>)
    ensures |r| == |ks|
    ensures forall i :: 0 <= i < |ks| ==> r[i] == Directive("", ks[i], "")
  {
    seq(|ks|, i requires 0 <= i < |ks| => Directive("", ks[i], ""))
  }

  /** A template of loop directives `ds` with the texts `ys` between them.
      Where two directives meet with no text between them, all the
      whitespace between them is the first one's trail, since its greedy
      `(\s*)` takes it. */
  predicate LoopLayout(ys: seq<string>, ds: seq<Directive>) {
    && |ys| == |ds| + 1
    && Between(ys)
    && (forall j :: 0 <= j < |ds| ==> ds[j].kw in LoopKeywords && AllSpace(ds[j].lead) && AllSpace(ds[j].trail))
    && (forall j :: 0 < j < |ds| && ys[j] == "" ==> ds[j].lead == "")
  }

  /** A template of the loop directives `ks` with no whitespace around any
      of them. */
  predicate LoopTemplate(ys: seq<string>, ks: seq<string>) {
    && |ys| == |ks| + 1
    && Between(ys)
    && (forall j :: 0 <= j < |ks| ==> ks[j] in LoopKeywords)
  }

  /** A template with no whitespace around its directives is a layout of
      bare directives. */
  lemma BareLayout(ys: seq<string>, ks: seq<string>)
    requires LoopTemplate(ys, ks)
    ensures LoopLayout(ys, Bare(ks))
    ensures Writtens(Bare(ks)) == Ats(ks) && Kws(Bare(ks)) == ks && OwnCodes(Bare(ks)) == Codes(ks)
  {
    forall i | 0 <= i < |ks|
      ensures Writtens(Bare(ks))[i] == Ats(ks)[i]
    {
      assert "" + At(ks[i]) + "" == At(ks[i]);
    }
    assert Kws(Bare(ks)) == ks;
    forall i | 0 <= i < |ks|
      ensures OwnCodes(Bare(ks))[i] == Codes(ks)[i]
    {
      assert "" + LoopCode(ks, i) + "" == LoopCode(ks, i);
    }
  }

  // ---------------------------------------------------------------------
  // Which code each directive is given.

  /** The code chosen for each match, by position. */
  function Codes(ks: seq<string>): (r: seq<string>)
    ensures |r| == |ks|
    ensures forall i :: 0 <= i < |ks| ==> r[i] == LoopCode(ks, i)
  {
    seq(|ks|, i requires 0 <= i < |ks| => LoopCode(ks, i))
  }

  /** The code each directive receives in place: its leading whitespace,
      the code chosen for its position, its trailing whitespace. */
  function OwnCodes(ds: seq<Directive>): (r: seq<string>)
    ensures |r| == |ds|
    ensures forall i :: 0 <= i < |ds| ==> r[i] == ds[i].lead + LoopCode(Kws(ds), i) + ds[i].trail
  {
    seq(|ds|, i requires 0 <= i < |ds| => ds[i].lead + LoopCode(Kws(ds), i) + ds[i].trail)
  }

  /** The index of the first copy of `k` in `ks`. */
  function First(ks: seq<string>, k: string): (f: nat)
    requires k in ks
    ensures f < |ks| && ks[f] == k
    ensures forall j :: 0 <= j < f ==> ks[j] != k
  {
    if ks[0] == k then 0 else 1 + First(ks[1..], k)
  }

  /** The code each directive ends up with under `str_replace`: the one
      chosen for the first copy of its keyword. */
  function FirstCodes(ks: seq<string>): (r: seq<string>)
    ensures |r| == |ks|
    ensures forall i :: 0 <= i < |ks| ==> r[i] == LoopCode(ks, First(ks, ks[i]))
  {
    seq(|ks|, i requires 0 <= i < |ks| => LoopCode(ks, First(ks, ks[i])))
  }

  /** `@startloop` and `@noposts` always get their fixed code; `@endloop`
      closes only the `if` exactly when the loop directive matched just
      before it is `@noposts`, and closes both the `while` and the `if`
      otherwise, also when it is the first match. */
  lemma EndLoopChoice(ks: seq<string>, k: nat)
    requires k < |ks|
    ensures ks[k] == "startloop" ==> LoopCode(ks, k) == StartLoopCode
    ensures ks[k] == "noposts" ==> LoopCode(ks, k) == NoPostsCode
    ensures ks[k] == "endloop" ==>
              (LoopCode(ks, k) == EndLoopAfterNoPostsCode <==> k > 0 && ks[k - 1] == "noposts")
    ensures ks[k] == "endloop" && !(k > 0 && ks[k - 1] == "noposts") ==> LoopCode(ks, k) == EndLoopCode
  {
    assert |EndLoopAfterNoPostsCode| != |EndLoopCode|;
  }

  /** No code contains `@`, so no code is mistaken for a directive. */
  lemma CodesPlain(ks: seq<string>, k: nat)
    requires k < |ks|
    ensures '@' !in LoopCode(ks, k)
  {
    StartCodePlain();
    CloseCodesPlain();
  }

  lemma StartCodePlain()
    ensures '@' !in StartLoopCode
  {
    assert '@' !in "<?php if ( have_posts() ) : ";
    assert '@' !in "while ( have_posts() ) : the_post(); ?>";
  }

  lemma CloseCodesPlain()
    ensures '@' !in NoPostsCode && '@' !in EndLoopAfterNoPostsCode && '@' !in EndLoopCode
  {
  }


  // ---------------------------------------------------------------------
  // The matches.

  /** The loop keywords begin with different letters. */
  lemma KeywordHeads(k1: string, k2: string)
    requires k1 in LoopKeywords && k2 in LoopKeywords && k1 != k2
    ensures |k1| > 0 && |k2| > 0 && k1[0] != k2[0] && '@' !in k1
  {
  }

  /** The index of a loop keyword in the alternation. */
  lemma KeywordIndex(k: string) returns (i: nat)
    requires k in LoopKeywords
    ensures i < |LoopKeywords| && LoopKeywords[i] == k
    ensures forall j :: 0 <= j < i ==> LoopKeywords[j][0] != k[0]
  {
    i :| 0 <= i < |LoopKeywords| && LoopKeywords[i] == k;
  }

  /** The match of directive `d` written at `p`. */
  function DirHit(p: nat, d: Directive): Hit {
    Hit(p, p + |Written(d)|, [Written(d), d.lead, d.kw, d.trail])
  }

  /** Where the parts of a directive written at `p` lie in `t`. */
  lemma DirectiveAt(t: string, p: nat, d: Directive, rest: string)
    requires p <= |t| && t[p..] == Written(d) + rest
    ensures var a := p + |d.lead|;
            var b := a + 1 + |d.kw|;
            var e := p + |Written(d)|;
            && e == b + |d.trail| && e <= |t|
            && t[p..a] == d.lead && t[a] == '@' && t[a + 1..b] == d.kw && t[b..e] == d.trail
            && t[e..] == rest
  {
    var a := p + |d.lead|;
    var b := a + 1 + |d.kw|;
    var e := p + |Written(d)|;
    var u := t[p..];
    assert u[..|d.lead|] == d.lead && u[|d.lead|] == '@';
    assert u[|d.lead| + 1..b - p] == d.kw && u[b - p..e - p] == d.trail && u[e - p..] == rest;
    assert t[p..a] == u[..|d.lead|] && t[a] == u[|d.lead|];
    assert t[a + 1..b] == u[|d.lead| + 1..b - p] && t[b..e] == u[b - p..e - p] && t[e..] == u[e - p..];
  }

  /** A directive written at `p`, followed by the end of the text or by
      something other than whitespace, is a match of the loop pattern. */
  lemma TagHit(t: string, p: nat, d: Directive, rest: string)
    requires d.kw in LoopKeywords && AllSpace(d.lead) && AllSpace(d.trail)
    requires p <= |t| && t[p..] == Written(d) + rest
    requires |rest| == 0 || !IsSpace(rest[0])
    ensures MatchAt(ClosingMatcher(LoopKeywords), t, p) == Some(DirHit(p, d))
  {
    DirectiveAt(t, p, d, rest);
    var a := p + |d.lead|;
    var b := a + 1 + |d.kw|;
    var e := p + |Written(d)|;
    assert WsEnd(t, p) == a by {
      SpaceRun(t, p, a, d.lead);
    }
    assert WsEnd(t, b) == e by {
      if e < |t| {
        assert t[e] == t[e..][0];
      }
      SpaceRun(t, b, e, d.trail);
    }
    PartsHit(t, p, a, b, e, d);
  }

  /** The match of a directive whose parts lie from `p` to `e` in `t`. */
  lemma PartsHit(t: string, p: nat, a: nat, b: nat, e: nat, d: Directive)
    requires d.kw in LoopKeywords
    requires p <= a < b <= e <= |t| && a == p + |d.lead| && b == a + 1 + |d.kw| && e == p + |Written(d)|
    requires t[p..a] == d.lead && t[a] == '@' && t[a + 1..b] == d.kw && t[b..e] == d.trail
    requires WsEnd(t, p) == a && WsEnd(t, b) == e
    ensures MatchAt(ClosingMatcher(LoopKeywords), t, p) == Some(DirHit(p, d))
  {
    var i := KeywordAlt(t, a + 1, d.kw);
    ClosingMatch(t, p, a, i, b, e);
    SameHit(t, p, a, b, e, d);
  }

  /** The closer scanner's hit for a directive's parts is the directive's. */
  lemma SameHit(t: string, p: nat, a: nat, b: nat, e: nat, d: Directive)
    requires p <= a < b <= e <= |t| && b == a + 1 + |d.kw| && e == p + |Written(d)|
    requires t[p..a] == d.lead && t[a] == '@' && t[a + 1..b] == d.kw && t[b..e] == d.trail
    ensures Hit(p, e, [t[p..e], t[p..a], d.kw, t[b..e]]) == DirHit(p, d)
  {
    WrittenSlice(t, p, a, b, e, d);
  }

  /** The loop pattern's match at `s` once its parts are known. */
  lemma ClosingMatch(t: string, s: nat, a: nat, i: nat, b: nat, e: nat)
    requires s <= a < |t| && t[a] == '@' && WsEnd(t, s) == a
    requires i < |LoopKeywords| && FirstAlt(t, a + 1, LoopKeywords) == Some(i)
    requires b == a + 1 + |LoopKeywords[i]| && b <= e <= |t| && WsEnd(t, b) == e
    ensures MatchAt(ClosingMatcher(LoopKeywords), t, s) == Some(Hit(s, e, [t[s..e], t[s..a], LoopKeywords[i], t[b..e]]))
  {
    ClosingAtIs(t, s, LoopKeywords, a, i, e);
    DirectiveMatch(ClosingMatcher(LoopKeywords), t, s);
  }

  /** A loop keyword written at `q` is the alternative the alternation takes. */
  lemma KeywordAlt(t: string, q: nat, k: string) returns (i: nat)
    requires k in LoopKeywords && q + |k| <= |t| && t[q..q + |k|] == k
    ensures i < |LoopKeywords| && LoopKeywords[i] == k
    ensures FirstAlt(t, q, LoopKeywords) == Some(i)
  {
    i := KeywordIndex(k);
    forall j | 0 <= j < i
      ensures !StartsAt(t, q, LoopKeywords[j])
    {
      assert t[q] == t[q..q + |k|][0];
      NotStartsAt(t, q, LoopKeywords[j], 0);
    }
    FirstAltIs(t, q, LoopKeywords, i);
  }

  /** A whitespace text written from `i` to `j`, followed by the end or by
      something other than whitespace, is what a greedy `\s*` takes at `i`. */
  lemma SpaceRun(t: string, i: nat, j: nat, w: string)
    requires i <= j <= |t| && t[i..j] == w && AllSpace(w)
    requires j == |t| || !IsSpace(t[j])
    ensures WsEnd(t, i) == j
  {
    forall k | i <= k < j
      ensures IsSpace(t[k])
    {
      assert t[k] == w[k - i];
    }
    WsEndAt(t, i, j);
  }

  /** The parts of a directive written at `p` make up its text. */
  lemma WrittenSlice(t: string, p: nat, a: nat, b: nat, e: nat, d: Directive)
    requires p <= a < b <= e <= |t| && a + 1 + |d.kw| == b
    requires t[p..a] == d.lead && t[a] == '@' && t[a + 1..b] == d.kw && t[b..e] == d.trail
    ensures t[p..e] == Written(d)
  {
    assert t[p..e] == t[p..a] + [t[a]] + t[a + 1..b] + t[b..e];
  }

  /** Before the start `p` of a directive's match, from `from` on, nothing
      matches when there is no other `@` and no whitespace just before `p`. */
  lemma NoTagBefore(t: string, from: nat, p: nat)
    requires from <= p <= |t|
    requires forall i :: from <= i < p ==> t[i] != '@'
    requires from == p || !IsSpace(t[p - 1])
    ensures forall s: nat :: from <= s < p ==> MatchAt(ClosingMatcher(LoopKeywords), t, s).None?
  {
    forall s: nat | from <= s < p
      ensures MatchAt(ClosingMatcher(LoopKeywords), t, s).None?
    {
      var a := WsEnd(t, s);
    }
  }

  /** The loop matches of a template of loop directives, from `from` on. */
  function TagHits(from: nat, ys: seq<string>, ds: seq<Directive>): (hits: seq<Hit>)
    requires |ys| == |ds| + 1
    ensures |hits| == |ds|
    ensures forall i :: 0 <= i < |ds| ==> hits[i].groups == [Written(ds[i]), ds[i].lead, ds[i].kw, ds[i].trail]
    decreases |ds|
  {
    if |ds| == 0 then []
    else
      var p := from + |ys[0]|;
      [DirHit(p, ds[0])] + TagHits(p + |Written(ds[0])|, ys[1..], ds[1..])
  }

  lemma TagHitsHead(from: nat, ys: seq<string>, ds: seq<Directive>, p: nat, e: nat)
    requires |ys| == |ds| + 1 && |ds| > 0
    requires p == from + |ys[0]| && e == p + |Written(ds[0])|
    ensures TagHits(from, ys, ds) == [DirHit(p, ds[0])] + TagHits(e, ys[1..], ds[1..])
  {
  }

  /** Where `t` continues, from `from`, with `y`, then `c`, then `r`. */
  lemma Pieces(t: string, from: nat, y: string, c: string, r: string)
    requires from <= |t| && t[from..] == y + c + r
    ensures from + |y| + |c| <= |t|
    ensures forall i :: 0 <= i < |y| ==> t[from + i] == y[i]
    ensures t[from + |y|..from + |y| + |c|] == c
    ensures t[from + |y| + |c|..] == r
  {
    var u := t[from..];
    forall i | 0 <= i < |y|
      ensures t[from + i] == y[i]
    {
      assert u[i] == t[from + i];
    }
    assert u[|y|..|y| + |c|] == c;
    assert u[|y| + |c|..] == r;
  }

  /** After the first directive of a layout, the rest of the template
      starts with neither whitespace nor anything the first directive's
      trail could take. */
  lemma RenderHead(ys: seq<string>, ds: seq<Directive>)
    requires LoopLayout(ys, ds) && |ds| > 0
    ensures var r := Render(ys[1..], Writtens(ds[1..])); |r| == 0 || !IsSpace(r[0])
  {
    var ys1, ds1 := ys[1..], ds[1..];
    if |ds1| > 0 {
      assert Writtens(ds1)[0] == Written(ds[1]);
      if |ys[1]| == 0 {
        assert ds[1].lead == "";
        assert Written(ds[1])[0] == '@';
        assert Render(ys1, Writtens(ds1))[0] == '@';
      } else {
        assert Render(ys1, Writtens(ds1))[0] == ys[1][0];
      }
    }
  }

  lemma TemplateTail(ys: seq<string>, ds: seq<Directive>)
    requires LoopLayout(ys, ds) && |ds| > 0
    ensures LoopLayout(ys[1..], ds[1..])
    ensures Writtens(ds)[1..] == Writtens(ds[1..]) && Writtens(ds)[0] == Written(ds[0])
    ensures Render(ys, Writtens(ds)) == ys[0] + Written(ds[0]) + Render(ys[1..], Writtens(ds[1..]))
  {
    assert Writtens(ds)[1..] == Writtens(ds[1..]);
    var ys1, ds1 := ys[1..], ds[1..];
    forall j | 0 < j < |ds1| && ys1[j] == ""
      ensures ds1[j].lead == ""
    {
      assert ys[j + 1] == "" && 0 < j + 1 < |ds|;
    }
  }

  /** `preg_match_all` on a template of loop directives, from `from` on,
      finds exactly the directives, each with its whitespace. */
  lemma {:induction false} TagMatchesFrom(t: string, from: nat, ys: seq<string>, ds: seq<Directive>)
    requires LoopLayout(ys, ds)
    requires from <= |t| && t[from..] == Render(ys, Writtens(ds))
    requires Sound(Scanner(ClosingMatcher(LoopKeywords)), t)
    ensures MatchAllFrom(Scanner(ClosingMatcher(LoopKeywords)), t, from) == TagHits(from, ys, ds)
    decreases |ds|
  {
    if |ds| == 0 {
      NoTagAfter(t, from, ys[0]);
    } else {
      TemplateTail(ys, ds);
      var h := TagStep(t, from, ys, ds);
      TagMatchesFrom(t, h.end, ys[1..], ds[1..]);
      TagHitsCons(MatchAllFrom(Scanner(ClosingMatcher(LoopKeywords)), t, from),
                  MatchAllFrom(Scanner(ClosingMatcher(LoopKeywords)), t, h.end), h, from, ys, ds);
    }
  }

  /** The hits of the first directive followed by those of the rest. */
  lemma TagHitsCons(all: seq<Hit>, rest: seq<Hit>, h: Hit, from: nat, ys: seq<string>, ds: seq<Directive>)
    requires |ys| == |ds| + 1 && |ds| > 0
    requires h == DirHit(from + |ys[0]|, ds[0])
    requires all == [h] + rest && rest == TagHits(h.end, ys[1..], ds[1..])
    ensures all == TagHits(from, ys, ds)
  {
    TagHitsHead(from, ys, ds, h.start, h.end);
  }

  /** After the last directive nothing more matches. */
  lemma NoTagAfter(t: string, from: nat, y: string)
    requires from <= |t| && t[from..] == y && '@' !in y
    requires Sound(Scanner(ClosingMatcher(LoopKeywords)), t)
    ensures MatchAllFrom(Scanner(ClosingMatcher(LoopKeywords)), t, from) == []
  {
    var at := Scanner(ClosingMatcher(LoopKeywords));
    forall i | from <= i < |t|
      ensures t[i] != '@'
    {
      assert t[from..][i - from] == t[i];
    }
    Missing(t, from, "@", 0);
    forall s: nat | from <= s <= |t|
      ensures at(t, s).None?
    {
    }
  }

  /** The first directive from `from` on is the next match, and the scan
      resumes right after it. */
  lemma TagStep(t: string, from: nat, ys: seq<string>, ds: seq<Directive>) returns (h: Hit)
    requires LoopLayout(ys, ds) && |ds| > 0
    requires from <= |t| && t[from..] == Render(ys, Writtens(ds))
    requires Sound(Scanner(ClosingMatcher(LoopKeywords)), t)
    ensures h == DirHit(from + |ys[0]|, ds[0])
    ensures h.end <= |t| && t[h.end..] == Render(ys[1..], Writtens(ds[1..]))
    ensures MatchAllFrom(Scanner(ClosingMatcher(LoopKeywords)), t, from)
            == [h] + MatchAllFrom(Scanner(ClosingMatcher(LoopKeywords)), t, h.end)
  {
    h := TagFound(t, from, ys, ds);
    NextMatch(Scanner(ClosingMatcher(LoopKeywords)), t, from, h);
  }

  /** The match at the first directive from `from` on, with none before it. */
  lemma TagFound(t: string, from: nat, ys: seq<string>, ds: seq<Directive>) returns (h: Hit)
    requires LoopLayout(ys, ds) && |ds| > 0
    requires from <= |t| && t[from..] == Render(ys, Writtens(ds))
    ensures h == DirHit(from + |ys[0]|, ds[0])
    ensures from <= h.start <= h.end <= |t|
    ensures t[h.end..] == Render(ys[1..], Writtens(ds[1..]))
    ensures MatchAt(ClosingMatcher(LoopKeywords), t, h.start) == Some(h)
    ensures forall s: nat :: from <= s < h.start ==> MatchAt(ClosingMatcher(LoopKeywords), t, s).None?
  {
    var p, e := TagLayout(t, from, ys, ds);
    RenderHead(ys, ds);
    TagHit(t, p, ds[0], Render(ys[1..], Writtens(ds[1..])));
    NoTagBefore(t, from, p);
    h := DirHit(p, ds[0]);
  }

  /** Where the first directive of a layout's rendering lies in `t`. */
  lemma TagLayout(t: string, from: nat, ys: seq<string>, ds: seq<Directive>) returns (p: nat, e: nat)
    requires LoopLayout(ys, ds) && |ds| > 0
    requires from <= |t| && t[from..] == Render(ys, Writtens(ds))
    ensures p == from + |ys[0]| && e == p + |Written(ds[0])| && e <= |t|
    ensures t[p..] == Written(ds[0]) + Render(ys[1..], Writtens(ds[1..]))
    ensures t[e..] == Render(ys[1..], Writtens(ds[1..]))
    ensures forall i :: from <= i < p ==> t[i] != '@'
    ensures from == p || !IsSpace(t[p - 1])
  {
    TemplateTail(ys, ds);
    var rest := Render(ys[1..], Writtens(ds[1..]));
    Pieces(t, from, ys[0], Written(ds[0]), rest);
    p := from + |ys[0]|;
    e := p + |Written(ds[0])|;
    assert t[p..] == t[p..e] + t[e..];
    forall i | from <= i < p
      ensures t[i] != '@'
    {
      assert t[i] == ys[0][i - from];
    }
    if from < p {
      assert t[p - 1] == ys[0][|ys[0]| - 1];
    }
  }

  /** `preg_match_all` on a template of loop directives finds exactly the
      directives, in order, each with the whitespace around it:
      `$matches[0]` is the directives' text and `$matches[2]` their
      keywords, and each directive's code sits between its own whitespace. */
  lemma TagMatches(ys: seq<string>, ds: seq<Directive>)
    requires LoopLayout(ys, ds)
    ensures var t := Render(ys, Writtens(ds));
            var hits := Matches(ClosingMatcher(LoopKeywords), t);
            && hits == TagHits(0, ys, ds)
            && Texts(hits) == Writtens(ds) && Kinds(hits) == Kws(ds)
            && LoopCodes(hits) == OwnCodes(ds)
  {
    TagMatchHits(ys, ds);
    HitsCodes(TagHits(0, ys, ds), ds);
  }

  lemma TagMatchHits(ys: seq<string>, ds: seq<Directive>)
    requires LoopLayout(ys, ds)
    ensures Matches(ClosingMatcher(LoopKeywords), Render(ys, Writtens(ds))) == TagHits(0, ys, ds)
  {
    var t := Render(ys, Writtens(ds));
    MarkerAbsentNoMatch(ClosingMatcher(LoopKeywords), t);
    TagMatchesFrom(t, 0, ys, ds);
  }

  /** The texts, keywords and codes of matches that are the directives `ds`. */
  lemma HitsCodes(hits: seq<Hit>, ds: seq<Directive>)
    requires |hits| == |ds|
    requires forall i :: 0 <= i < |ds| ==> hits[i].groups == [Written(ds[i]), ds[i].lead, ds[i].kw, ds[i].trail]
    ensures Texts(hits) == Writtens(ds) && Kinds(hits) == Kws(ds) && LoopCodes(hits) == OwnCodes(ds)
  {
    forall i | 0 <= i < |ds|
      ensures Group(hits[i], 0) == Written(ds[i]) && Group(hits[i], 2) == ds[i].kw
      ensures Group(hits[i], 1) == ds[i].lead && Group(hits[i], 3) == ds[i].trail
    {
    }
    assert Texts(hits) == Writtens(ds);
    assert Kinds(hits) == Kws(ds);
    forall i | 0 <= i < |ds|
      ensures LoopCodes(hits)[i] == OwnCodes(ds)[i]
    {
      assert LoopCodes(hits)[i] == ds[i].lead + LoopCode(Kinds(hits), i) + ds[i].trail;
    }
  }

  /** On a template with no whitespace around its directives, the matched
      texts are the bare directives and each is given the code chosen for
      its position. */
  lemma BareMatches(ys: seq<string>, ks: seq<string>)
    requires LoopTemplate(ys, ks)
    ensures var hits := Matches(ClosingMatcher(LoopKeywords), Render(ys, Ats(ks)));
            Texts(hits) == Ats(ks) && LoopCodes(hits) == Codes(ks)
  {
    BareLayout(ys, ks);
    TagMatches(ys, Bare(ks));
  }

  // ---------------------------------------------------------------------
  // `str_replace`, as written.

  /** The pieces in the middle of `str_replace`: those equal to `needle`
      replaced by `rep`. */
  function Swap(cs: seq<string>, needle: string, rep: string): (r: seq<string>)
    ensures |r| == |cs|
    ensures forall i :: 0 <= i < |cs| ==> r[i] == if cs[i] == needle then rep else cs[i]
  {
    seq(|cs|, i requires 0 <= i < |cs| => if cs[i] == needle then rep else cs[i])
  }

  /** A piece is a loop directive or contains no `@`. */
  predicate LoopPiece(c: string) {
    '@' !in c || exists k :: k in LoopKeywords && c == At(k)
  }

  /** A piece other than `@kw` has no occurrence of `@kw` starting in it,
      even one running on into the text after it. */
  lemma NoNeedleIn(y: string, c: string, r: string, kw: string)
    requires '@' !in y && LoopPiece(c) && kw in LoopKeywords && c != At(kw)
    ensures forall i: nat :: i < |y + c| ==> !StartsAt(y + c + r, i, At(kw))
  {
    var t := y + c + r;
    forall i: nat | i < |y + c|
      ensures !StartsAt(t, i, At(kw))
    {
      if i < |y| {
        NotStartsAt(t, i, At(kw), 0);
      } else if '@' in c {
        var k :| k in LoopKeywords && c == At(k);
        if i == |y| {
          KeywordHeads(k, kw);
          assert t[i + 1] == k[0];
          NotStartsAt(t, i, At(kw), 1);
        } else {
          assert t[i] == k[i - |y| - 1];
          NotStartsAt(t, i, At(kw), 0);
        }
      } else {
        assert t[i] == c[i - |y|];
        NotStartsAt(t, i, At(kw), 0);
      }
    }
  }

  /** Replacing every `@kw` in a rendering replaces exactly the pieces
      that are `@kw`. */
  lemma {:induction false} ReplaceAllPieces(ys: seq<string>, cs: seq<string>, kw: string, rep: string)
    requires |ys| == |cs| + 1 && kw in LoopKeywords
    requires forall j :: 0 <= j < |ys| ==> '@' !in ys[j]
    requires forall j :: 0 <= j < |cs| ==> LoopPiece(cs[j])
    ensures ReplaceAll(Render(ys, cs), At(kw), rep) == Render(ys, Swap(cs, At(kw), rep))
    decreases |cs|
  {
    var needle: Word := At(kw);
    if |cs| == 0 {
      MissingChar(ys[0], needle, 0);
      ReplaceAllAbsent(ys[0], needle, rep);
    } else {
      var r := Render(ys[1..], cs[1..]);
      ReplaceAllPieces(ys[1..], cs[1..], kw, rep);
      assert Swap(cs, needle, rep)[1..] == Swap(cs[1..], needle, rep);
      if cs[0] == needle {
        forall i: nat | i < |ys[0]|
          ensures !StartsAt(ys[0] + needle + r, i, needle)
        {
          NotStartsAt(ys[0] + needle + r, i, needle, 0);
        }
        ReplaceAllLeftmost(ys[0], needle, r, rep);
      } else {
        NoNeedleIn(ys[0], cs[0], r, kw);
        ReplaceAllSkip(ys[0] + cs[0], r, needle, rep);
      }
    }
  }

  /** The pieces after the first `j` pairs of `str_replace`: a directive
      whose keyword first occurs before `j` carries that first copy's code. */
  function Stage(ks: seq<string>, j: nat): (r: seq<string>)
    ensures |r| == |ks|
    ensures forall i :: 0 <= i < |ks| ==>
              r[i] == if First(ks, ks[i]) < j then LoopCode(ks, First(ks, ks[i])) else At(ks[i])
  {
    seq(|ks|, i requires 0 <= i < |ks| =>
      if First(ks, ks[i]) < j then LoopCode(ks, First(ks, ks[i])) else At(ks[i]))
  }

  lemma StagePieces(ks: seq<string>, j: nat)
    requires forall i :: 0 <= i < |ks| ==> ks[i] in LoopKeywords
    ensures forall i :: 0 <= i < |ks| ==> LoopPiece(Stage(ks, j)[i])
  {
    forall i | 0 <= i < |ks|
      ensures LoopPiece(Stage(ks, j)[i])
    {
      if First(ks, ks[i]) < j {
        CodesPlain(ks, First(ks, ks[i]));
      }
    }
  }

  /** One more pair of `str_replace`: the directives with keyword `ks[j]`
      that no earlier pair replaced get the code chosen for match `j`. */
  lemma StageStep(ks: seq<string>, j: nat)
    requires j < |ks|
    ensures Swap(Stage(ks, j), At(ks[j]), LoopCode(ks, j)) == Stage(ks, j + 1)
  {
    forall i | 0 <= i < |ks|
      ensures Swap(Stage(ks, j), At(ks[j]), LoopCode(ks, j))[i] == Stage(ks, j + 1)[i]
    {
      StageStepAt(ks, j, i);
    }
  }

  lemma StageStepAt(ks: seq<string>, j: nat, i: nat)
    requires j < |ks| && i < |ks|
    ensures var f := First(ks, ks[i]);
            var before := if f < j then LoopCode(ks, f) else At(ks[i]);
            var after := if f < j + 1 then LoopCode(ks, f) else At(ks[i]);
            (if before == At(ks[j]) then LoopCode(ks, j) else before) == after
  {
    var f := First(ks, ks[i]);
    if f < j {
      CodesPlain(ks, f);
      assert '@' in At(ks[j]);
    } else if ks[i] == ks[j] {
      assert f == j;
    } else {
      assert At(ks[i])[1..] == ks[i] && At(ks[j])[1..] == ks[j];
    }
  }

  /** The first `j` pairs of `str_replace` on a template of directives. */
  lemma {:induction false} StrReplaceStages(ys: seq<string>, ks: seq<string>, j: nat)
    requires LoopTemplate(ys, ks) && j <= |ks|
    ensures StrReplace(Render(ys, Ats(ks)), Ats(ks)[..j], Codes(ks)[..j]) == Render(ys, Stage(ks, j))
  {
    var t := Render(ys, Ats(ks));
    if j == 0 {
      StageZero(ks);
      assert Ats(ks)[..0] == [] && Codes(ks)[..0] == [];
    } else {
      var i := j - 1;
      StrReplaceStages(ys, ks, i);
      StrReplacePrefix(t, ks, i);
      StageAdvance(ys, ks, i);
    }
  }

  lemma StageZero(ks: seq<string>)
    ensures Stage(ks, 0) == Ats(ks)
  {
  }

  /** The first `j + 1` pairs are the first `j` followed by pair `j`. */
  lemma StrReplacePrefix(t: string, ks: seq<string>, j: nat)
    requires j < |ks|
    ensures StrReplace(t, Ats(ks)[..j + 1], Codes(ks)[..j + 1])
            == ReplaceAll(StrReplace(t, Ats(ks)[..j], Codes(ks)[..j]), At(ks[j]), LoopCode(ks, j))
  {
    assert Ats(ks)[..j + 1] == Ats(ks)[..j] + [At(ks[j])];
    assert Codes(ks)[..j + 1] == Codes(ks)[..j] + [LoopCode(ks, j)];
    StrReplaceInTurn(t, Ats(ks)[..j], Codes(ks)[..j], At(ks[j]), LoopCode(ks, j));
  }

  /** Pair `j` takes the rendering of stage `j` to that of stage `j + 1`. */
  lemma StageAdvance(ys: seq<string>, ks: seq<string>, j: nat)
    requires LoopTemplate(ys, ks) && j < |ks|
    ensures ReplaceAll(Render(ys, Stage(ks, j)), At(ks[j]), LoopCode(ks, j)) == Render(ys, Stage(ks, j + 1))
  {
    StagePieces(ks, j);
    ReplaceAllPieces(ys, Stage(ks, j), ks[j], LoopCode(ks, j));
    StageStep(ks, j);
  }

  /** The loop pass as written, on a template of loop directives: every
      directive gets the code chosen for the first directive with the same
      keyword. */
  lemma LoopAsWritten(ys: seq<string>, ks: seq<string>)
    requires LoopTemplate(ys, ks)
    ensures CompileLoop(Render(ys, Ats(ks))) == Render(ys, FirstCodes(ks))
  {
    BareMatches(ys, ks);
    StrReplaceStages(ys, ks, |ks|);
    assert Ats(ks)[..|ks|] == Ats(ks) && Codes(ks)[..|ks|] == Codes(ks);
    assert Stage(ks, |ks|) == FirstCodes(ks);
  }

  // ---------------------------------------------------------------------
  // In place, as intended.

  /** Replacing the directive matches in place keeps the text between them. */
  lemma {:induction false} SpliceTags(t: string, from: nat, ys: seq<string>, ds: seq<Directive>, reps: seq<string>)
    requires LoopLayout(ys, ds) && |reps| == |ds|
    requires from <= |t| && t[from..] == Render(ys, Writtens(ds))
    requires Ordered(t, from, TagHits(from, ys, ds))
    ensures Splice(t, from, TagHits(from, ys, ds), reps) == Render(ys, reps)
    decreases |ds|
  {
    if |ds| == 0 {
      assert TagHits(from, ys, ds) == [] && Render(ys, Writtens(ds)) == ys[0] && Render(ys, reps) == ys[0];
    } else {
      var e := SpliceNext(t, from, ys, ds);
      SpliceTags(t, e, ys[1..], ds[1..], reps[1..]);
      var h := DirHit(from + |ys[0]|, ds[0]);
      SpliceStep(t, from, ys, reps, h, TagHits(e, ys[1..], ds[1..]));
    }
  }

  /** Where the text after the first directive of a layout starts, and that
      it is again a layout's rendering. */
  lemma SpliceNext(t: string, from: nat, ys: seq<string>, ds: seq<Directive>) returns (e: nat)
    requires LoopLayout(ys, ds) && |ds| > 0
    requires from <= |t| && t[from..] == Render(ys, Writtens(ds))
    requires Ordered(t, from, TagHits(from, ys, ds))
    ensures e == from + |ys[0]| + |Written(ds[0])| && e <= |t|
    ensures t[from..from + |ys[0]|] == ys[0]
    ensures TagHits(from, ys, ds) == [DirHit(from + |ys[0]|, ds[0])] + TagHits(e, ys[1..], ds[1..])
    ensures LoopLayout(ys[1..], ds[1..])
    ensures t[e..] == Render(ys[1..], Writtens(ds[1..]))
    ensures Ordered(t, e, TagHits(e, ys[1..], ds[1..]))
  {
    TemplateTail(ys, ds);
    var rest := Render(ys[1..], Writtens(ds[1..]));
    Pieces(t, from, ys[0], Written(ds[0]), rest);
    var p := from + |ys[0]|;
    e := p + |Written(ds[0])|;
    assert t[from..p] == ys[0] by {
      assert t[from..][..|ys[0]|] == t[from..p];
    }
    TagHitsHead(from, ys, ds, p, e);
    SpliceHeadOrdered(t, from, DirHit(p, ds[0]), TagHits(e, ys[1..], ds[1..]));
  }

  /** The step of `SpliceTags`: the first text, the first replacement, and
      the splice of the rest. */
  lemma SpliceStep(t: string, from: nat, ys: seq<string>, reps: seq<string>, h: Hit, hs: seq<Hit>)
    requires |ys| == |reps| + 1 && |reps| > 0
    requires Ordered(t, from, [h] + hs) && |hs| + 1 == |reps|
    requires h.start <= |t| && t[from..h.start] == ys[0]
    requires Splice(t, h.end, hs, reps[1..]) == Render(ys[1..], reps[1..])
    ensures Splice(t, from, [h] + hs, reps) == Render(ys, reps)
  {
    SpliceHead(t, from, h, hs, reps);
    RenderCons(ys, reps, Splice(t, from, [h] + hs, reps), Splice(t, h.end, hs, reps[1..]));
  }

  /** A rendering is its first text and piece followed by the rendering of
      the rest. */
  lemma RenderCons(ys: seq<string>, cs: seq<string>, whole: string, rest: string)
    requires |ys| == |cs| + 1 && |cs| > 0
    requires rest == Render(ys[1..], cs[1..]) && whole == ys[0] + cs[0] + rest
    ensures whole == Render(ys, cs)
  {
  }

  /** The hits after an ordered first hit are ordered from its end. */
  lemma SpliceHeadOrdered(t: string, from: nat, h: Hit, hs: seq<Hit>)
    requires Ordered(t, from, [h] + hs)
    ensures from <= h.start <= h.end <= |t| && Ordered(t, h.end, hs)
  {
    assert ([h] + hs)[0] == h && ([h] + hs)[1..] == hs;
  }

  /** Splicing a first hit and then the rest. */
  lemma SpliceHead(t: string, from: nat, h: Hit, hs: seq<Hit>, reps: seq<string>)
    requires Ordered(t, from, [h] + hs) && |reps| == |hs| + 1
    ensures from <= h.start <= h.end <= |t| && Ordered(t, h.end, hs)
    ensures Splice(t, from, [h] + hs, reps) == t[from..h.start] + reps[0] + Splice(t, h.end, hs, reps[1..])
  {
    assert ([h] + hs)[0] == h && ([h] + hs)[1..] == hs;
  }

  /** The loop pass in place, on a template of loop directives: every
      directive's match becomes its own code between its own whitespace,
      and the text between directives is kept. */
  lemma LoopInPlace(ys: seq<string>, ds: seq<Directive>)
    requires LoopLayout(ys, ds)
    ensures CompileLoopInPlace(Render(ys, Writtens(ds))) == Render(ys, OwnCodes(ds))
  {
    var t := Render(ys, Writtens(ds));
    TagMatches(ys, ds);
    SpliceTags(t, 0, ys, ds, OwnCodes(ds));
  }

  /** The two agree exactly when every directive's own code is the one
      chosen for the first copy of its keyword; in particular when no
      keyword repeats. */
  lemma LoopVersionsAgree(ys: seq<string>, ks: seq<string>)
    requires LoopTemplate(ys, ks)
    requires forall i :: 0 <= i < |ks| ==> LoopCode(ks, First(ks, ks[i])) == LoopCode(ks, i)
    ensures CompileLoop(Render(ys, Ats(ks))) == CompileLoopInPlace(Render(ys, Ats(ks)))
  {
    LoopAsWritten(ys, ks);
    BareLayout(ys, ks);
    LoopInPlace(ys, Bare(ks));
    assert FirstCodes(ks) == Codes(ks);
  }

  /** Two loops, the second with `@noposts`: as written, the second
      `@endloop` receives the first one's `endwhile; endif;`, which follows
      `endwhile; else:` and so closes the `while` twice; in place it
      receives `endif;`. */
  lemma SecondLoopMisclosed()
    ensures var t := Render(TwoLoopsText, Ats(TwoLoops));
            && t == Join(["@startloop", "@endloop", "@startloop", "@noposts", "@endloop"])
            && CompileLoop(t) == Join([StartLoopCode, EndLoopCode, StartLoopCode, NoPostsCode, EndLoopCode])
            && CompileLoopInPlace(t)
               == Join([StartLoopCode, EndLoopCode, StartLoopCode, NoPostsCode, EndLoopAfterNoPostsCode])
  {
    TwoLoopsAts();
    RenderNoText(TwoLoopsText, Ats(TwoLoops));
    TwoLoopsAsWritten();
    TwoLoopsInPlace();
  }

  lemma TwoLoopsAsWritten()
    ensures CompileLoop(Render(TwoLoopsText, Ats(TwoLoops)))
            == Join([StartLoopCode, EndLoopCode, StartLoopCode, NoPostsCode, EndLoopCode])
  {
    TwoLoopsTemplate();
    TwoLoopsFirstCodes();
    AsWrittenBare(TwoLoopsText, TwoLoops, [StartLoopCode, EndLoopCode, StartLoopCode, NoPostsCode, EndLoopCode]);
  }

  /** The loop pass as written, on directives with no text between them. */
  lemma AsWrittenBare(ys: seq<string>, ks: seq<string>, cs: seq<string>)
    requires LoopTemplate(ys, ks) && (forall j :: 0 <= j < |ys| ==> ys[j] == "") && FirstCodes(ks) == cs
    ensures CompileLoop(Render(ys, Ats(ks))) == Join(cs)
  {
    LoopAsWritten(ys, ks);
    RenderNoText(ys, cs);
  }

  /** The loop pass in place, on directives with no text between them. */
  lemma InPlaceBare(ys: seq<string>, ks: seq<string>, cs: seq<string>)
    requires LoopTemplate(ys, ks) && (forall j :: 0 <= j < |ys| ==> ys[j] == "") && Codes(ks) == cs
    ensures CompileLoopInPlace(Render(ys, Ats(ks))) == Join(cs)
  {
    BareLayout(ys, ks);
    LoopInPlace(ys, Bare(ks));
    RenderNoText(ys, cs);
  }

  lemma TwoLoopsInPlace()
    ensures CompileLoopInPlace(Render(TwoLoopsText, Ats(TwoLoops)))
            == Join([StartLoopCode, EndLoopCode, StartLoopCode, NoPostsCode, EndLoopAfterNoPostsCode])
  {
    TwoLoopsTemplate();
    TwoLoopsOwnCodes();
    InPlaceBare(TwoLoopsText, TwoLoops, [StartLoopCode, EndLoopCode, StartLoopCode, NoPostsCode, EndLoopAfterNoPostsCode]);
  }

  /** The keywords of two consecutive loops, the second with `@noposts`. */
  const TwoLoops: seq<string> := ["startloop", "endloop", "startloop", "noposts", "endloop"]

  /** No text between the directives of `TwoLoops`. */
  const TwoLoopsText: seq<string> := ["", "", "", "", "", ""]

  lemma TwoLoopsTemplate()
    ensures LoopTemplate(TwoLoopsText, TwoLoops)
  {
  }

  /** Under `str_replace` the second `@endloop` gets the first one's code. */
  lemma TwoLoopsFirstCodes()
    ensures FirstCodes(TwoLoops) == [StartLoopCode, EndLoopCode, StartLoopCode, NoPostsCode, EndLoopCode]
  {
    var ks := TwoLoops;
    assert First(ks, ks[4]) == 1 && First(ks, ks[2]) == 0;
  }

  lemma TwoLoopsOwnCodes()
    ensures Codes(TwoLoops) == [StartLoopCode, EndLoopCode, StartLoopCode, NoPostsCode, EndLoopAfterNoPostsCode]
  {
  }

  lemma TwoLoopsAts()
    ensures Ats(TwoLoops) == ["@startloop", "@endloop", "@startloop", "@noposts", "@endloop"]
  {
    assert At("startloop") == "@startloop" && At("endloop") == "@endloop" && At("noposts") == "@noposts";
  }

  /** A list loop laid out one directive per line, the file ending in a
      newline: each directive's line breaks stay around its code. */
  lemma ListLoopInPlace()
    ensures CompileLoopInPlace(ListText) == ListOut
  {
    ListLayout();
    ListRender();
    ListCodes();
    LoopInPlace(ListYs, ListDs);
  }

  const ListYs: seq<string> := ["<ul>", "<li/>", "</ul>\n"]
  const ListDs: seq<Directive> := [Directive("\n", "startloop", "\n"), Directive("\n", "endloop", "\n")]
  /** `<ul>`, `@startloop` and `<li/>` on lines of their own, then
      `@endloop` and `</ul>`, each line ending in a newline. */
  const ListText: string := "<ul>" + "\n@startloop\n" + "<li/>" + "\n@endloop\n" + "</ul>\n"
  /** `ListText` with each directive's code in place of its `@` word. */
  const ListOut: string := "<ul>" + ("\n" + StartLoopCode + "\n") + "<li/>" + ("\n" + EndLoopCode + "\n") + "</ul>\n"

  lemma ListLayout()
    ensures LoopLayout(ListYs, ListDs)
  {
    assert AllSpace("\n");
    assert Between(ListYs);
  }

  lemma ListRender()
    ensures Render(ListYs, Writtens(ListDs)) == ListText
  {
    var cs := Writtens(ListDs);
    assert cs[0] == "\n@startloop\n" && cs[1] == "\n@endloop\n";
    RenderTwo(ListYs, cs);
  }

  lemma ListCodes()
    ensures Render(ListYs, OwnCodes(ListDs)) == ListOut
  {
    var cs := OwnCodes(ListDs);
    var ks := Kws(ListDs);
    assert ks[0] == "startloop" && ks[1] == "endloop";
    assert LoopCode(ks, 0) == StartLoopCode && LoopCode(ks, 1) == EndLoopCode;
    assert cs[0] == "\n" + StartLoopCode + "\n" && cs[1] == "\n" + EndLoopCode + "\n";
    RenderTwo(ListYs, cs);
  }

  /** `@startloop<li/>@endloop</ul>` and a final newline is a template of
      bare directives: the newline touches no directive. */
  lemma BareListTemplate()
    ensures LoopTemplate(["", "<li/>", "</ul>\n"], ["startloop", "endloop"])
    ensures Render(["", "<li/>", "</ul>\n"], Ats(["startloop", "endloop"])) == "@startloop" + "<li/>" + "@endloop" + "</ul>\n"
  {
    assert Between(["", "<li/>", "</ul>\n"]);
    BareListRender(["", "<li/>", "</ul>\n"], Ats(["startloop", "endloop"]));
  }

  lemma BareListRender(ys: seq<string>, cs: seq<string>)
    requires ys == ["", "<li/>", "</ul>\n"] && cs == Ats(["startloop", "endloop"])
    ensures Render(ys, cs) == "@startloop" + "<li/>" + "@endloop" + "</ul>\n"
  {
    assert cs[0] == "@startloop" && cs[1] == "@endloop";
    RenderTwo(ys, cs);
    assert ys[0] + cs[0] == cs[0];
  }

  /** As written, that template's two directives get their own codes and
      the final newline stays. */
  lemma BareListAsWritten()
    ensures CompileLoop("@startloop" + "<li/>" + "@endloop" + "</ul>\n")
            == StartLoopCode + "<li/>" + EndLoopCode + "</ul>\n"
  {
    var ys, ks := ["", "<li/>", "</ul>\n"], ["startloop", "endloop"];
    BareListTemplate();
    LoopAsWritten(ys, ks);
    BareListCodes(ys, ks);
  }

  lemma BareListCodes(ys: seq<string>, ks: seq<string>)
    requires ys == ["", "<li/>", "</ul>\n"] && ks == ["startloop", "endloop"]
    ensures Render(ys, FirstCodes(ks)) == StartLoopCode + "<li/>" + EndLoopCode + "</ul>\n"
  {
    var cs := FirstCodes(ks);
    assert First(ks, ks[0]) == 0 && First(ks, ks[1]) == 1;
    assert LoopCode(ks, 0) == StartLoopCode && LoopCode(ks, 1) == EndLoopCode;
    RenderTwo(ys, cs);
    assert ys[0] + cs[0] == cs[0];
  }

  /** Two pieces with the texts around them. */
  lemma RenderTwo(ys: seq<string>, cs: seq<string>)
    requires |ys| == 3 && |cs| == 2
    ensures Render(ys, cs) == ys[0] + cs[0] + ys[1] + cs[1] + ys[2]
  {
    assert Render(ys[2..], cs[2..]) == ys[2];
    assert Render(ys[1..], cs[1..]) == ys[1] + cs[1] + ys[2];
  }

  /** The pieces one after the other. */
  function Join(cs: seq<string>): string
    decreases |cs|
  {
    if |cs| == 0 then "" else cs[0] + Join(cs[1..])
  }

  /** With no text between them, pieces render as their concatenation. */
  lemma {:induction false} RenderNoText(ys: seq<string>, cs: seq<string>)
    requires |ys| == |cs| + 1 && forall j :: 0 <= j < |ys| ==> ys[j] == ""
    ensures Render(ys, cs) == Join(cs)
    decreases |cs|
  {
    if |cs| > 0 {
      RenderNoText(ys[1..], cs[1..]);
    }
  }
}
