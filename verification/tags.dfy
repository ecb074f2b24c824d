/**
  What the comment, dot-notation, echo, code-block, block-closer, include
  and partial passes do to a template made of a single directive.
 */
module Tags {
  import opened Text
  import opened PhpStrings
  import opened Patterns
  import opened Preg
  import opened Locate
  import opened Passes
  import opened Directives

  /** An occurrence after a prefix is an occurrence in the rest. */
  lemma ShiftStarts(pre: string, u: string, k: nat, w: string)
    ensures StartsAt(pre + u, |pre| + k, w) <==> StartsAt(u, k, w)
  {
    if k + |w| <= |u| {
      assert (pre + u)[|pre| + k..|pre| + k + |w|] == u[k..k + |w|];
    }
  }

  // ---------------------------------------------------------------------
  // Comments.

  lemma ExpandComment(h: Hit)
    ensures Expand(CommentCode, h) == "<?php /* " + Group(h, 1) + " */ ?>"
  {
    var c := CommentCode;
    assert c[1..][1..][1..] == [];
  }

  /** `{{--c--}}` becomes `<?php /* c */ ?>` when the comment runs to the
      first `--}}`. */
  lemma CommentCompiles(c: string)
    requires forall k: nat :: k < |c| ==> !StartsAt(c + "--}}", k, "--}}")
    ensures CompileComments("{{--" + c + "--}}") == "<?php /* " + c + " */ ?>"
  {
    var u := c + "--}}";
    var t := "{{--" + u;
    assert t == "{{--" + c + "--}}";
    var h := CommentHit(c, t);
    SingleMatch(CommentTag, t, h, CommentCode);
    ExpandComment(h);
  }

  lemma CommentHit(c: string, t: string) returns (h: Hit)
    requires forall k: nat :: k < |c| ==> !StartsAt(c + "--}}", k, "--}}")
    requires t == "{{--" + (c + "--}}")
    ensures h == Hit(0, |t|, [t, c]) && MatchAt(CommentTag, t, 0) == Some(h)
  {
    assert t[0..4] == "{{--";
    CommentEnd(c, t);
    assert t[0..|t|] == t && t[4..4 + |c|] == c;
    h := Hit(0, |t|, [t, c]);
    assert MatchIn(CommentTag, t, 0) == CommentAt(t, 0);
  }

  /** The first `--}}` after the opening is the one that closes the comment. */
  lemma CommentEnd(c: string, t: string)
    requires forall k: nat :: k < |c| ==> !StartsAt(c + "--}}", k, "--}}")
    requires t == "{{--" + (c + "--}}")
    ensures FindFirst(t, 4, "--}}") == Some(4 + |c|)
  {
    var u := c + "--}}";
    assert u[|c|..|c| + 4] == "--}}";
    ShiftStarts("{{--", u, |c|, "--}}");
    forall k: nat | 4 <= k < 4 + |c|
      ensures !StartsAt(t, k, "--}}")
    {
      ShiftStarts("{{--", u, k - 4, "--}}");
    }
    FindFirstAt(t, 4, 4 + |c|, "--}}");
  }

  /** The first occurrence from `from` on is at `e` when `w` occurs at `e`
      and nowhere between. */
  lemma FindFirstAt(t: string, from: nat, e: nat, w: Word)
    requires from <= e <= |t| && StartsAt(t, e, w)
    requires forall k: nat :: from <= k < e ==> !StartsAt(t, k, w)
    ensures FindFirst(t, from, w) == Some(e)
    decreases e - from
  {
    if from < e {
      FindFirstAt(t, from + 1, e, w);
    }
  }

  // ---------------------------------------------------------------------
  // Dot-notation arrays.

  /** `{{ p.c }}`, for a single word character `c`, becomes
      `<?php echo p['c']; ?>` with the whitespace inside the braces kept
      around the code. Only the last dot is a subscript: `{{ a.b.c }}`
      becomes `<?php echo a.b['c']; ?>`. */
  lemma ArrayCompiles(w: string, p: string, c: char, w2: string)
    requires AllSpace(w) && AllSpace(w2) && |p| > 0 && !IsSpace(p[0]) && !OccursFrom(p, 0, "}}") && IsWord(c)
    ensures CompileArrays("{{" + w + p + "." + [c] + w2 + "}}")
            == w + "<?php echo " + p + "['" + [c] + "']; ?>" + w2
  {
    var t := "{{" + w + p + "." + [c] + w2 + "}}";
    var h := ArrayHit(w, p, c, w2, t);
    ArrayWhole(t, h, w, p, c, w2);
  }

  /** Only the last dot of a dotted expression becomes a subscript:
      `{{x.y.c}}` becomes `<?php echo x.y['c']; ?>`. */
  lemma ArrayTwoDots(x: string, y: string, c: char)
    requires |x| > 0 && !IsSpace(x[0]) && '}' !in x && '}' !in y && IsWord(c)
    ensures CompileArrays("{{" + x + "." + y + "." + [c] + "}}") == "<?php echo " + x + "." + y + "['" + [c] + "']; ?>"
  {
    var p := x + "." + y;
    NoBraceNoClose(p);
    ArrayCompiles("", p, c, "");
    TwoDotsText(x, y, c, p);
  }

  lemma TwoDotsText(x: string, y: string, c: char, p: string)
    requires p == x + "." + y
    ensures "{{" + "" + p + "." + [c] + "" + "}}" == "{{" + x + "." + y + "." + [c] + "}}"
    ensures "" + "<?php echo " + p + "['" + [c] + "']; ?>" + "" == "<?php echo " + x + "." + y + "['" + [c] + "']; ?>"
  {
  }

  /** A text without `}` has no `}}`. */
  lemma NoBraceNoClose(p: string)
    requires '}' !in p
    ensures !OccursFrom(p, 0, "}}")
  {
    forall i: nat | i <= |p|
      ensures !StartsAt(p, i, "}}")
    {
      if i + 2 <= |p| {
        assert p[i..i + 2][0] == p[i];
      }
    }
  }

  /** A text that is one array match is replaced by that match's code. */
  lemma ArrayWhole(t: string, h: Hit, w: string, p: string, c: char, w2: string)
    requires IsWord(c) && h == Hit(0, |t|, [t, w, p, [c], w2]) && MatchAt(ArrayTag, t, 0) == Some(h)
    ensures CompileArrays(t) == w + "<?php echo " + p + "['" + [c] + "']; ?>" + w2
  {
    OnlyMatch(ArrayTag, t, h);
    ArrayOneMatch(t, h);
    StrReplaceWhole(t, ArrayCode(h));
    ArrayCodeOne(h, c);
  }

  lemma ArrayOneMatch(t: string, h: Hit)
    requires Matches(ArrayTag, t) == [h] && |h.groups| > 0 && h.groups[0] == t
    ensures CompileArrays(t) == StrReplace(t, [t], [ArrayCode(h)])
  {
    OneHitTexts(h);
    OneHitArrayCodes(h);
  }

  /** A single-character key is one subscript. */
  lemma ArrayCodeOne(h: Hit, c: char)
    requires |h.groups| == 5 && h.groups[3] == [c] && IsWord(c)
    ensures ArrayCode(h) == Group(h, 1) + "<?php echo " + Group(h, 2) + "['" + [c] + "']; ?>" + Group(h, 4)
  {
    assert [c][1..] == [] && c != '.';
    assert Explode('.', [c]) == [[c] + ""] + [""][1..];
  }

  lemma ArrayHit(w: string, p: string, c: char, w2: string, t: string) returns (h: Hit)
    requires AllSpace(w) && AllSpace(w2) && |p| > 0 && !IsSpace(p[0]) && !OccursFrom(p, 0, "}}") && IsWord(c)
    requires t == "{{" + w + p + "." + [c] + w2 + "}}"
    ensures h == Hit(0, |t|, [t, w, p, [c], w2]) && MatchAt(ArrayTag, t, 0) == Some(h)
  {
    ArrayLayout(w, p, c, w2, t);
    h := ArrayAtBody(t, 2 + |w|, 2 + |w| + |p|, w, p, c, w2);
  }

  /** The array match over a text laid out as `{{ p.c }}`, by positions. */
  lemma ArrayAtBody(t: string, b: nat, d: nat, w: string, p: string, c: char, w2: string) returns (h: Hit)
    requires 2 <= b < d && |t| == d + 2 + |w2| + 2
    requires StartsAt(t, 0, "{{") && StartsAt(t, d + 2 + |w2|, "}}")
    requires forall k :: 2 <= k < b ==> IsSpace(t[k])
    requires forall k :: b <= k && k + 2 <= d ==> !StartsAt(t, k, "}}")
    requires forall k :: d + 2 <= k < d + 2 + |w2| ==> IsSpace(t[k])
    requires !IsSpace(t[b]) && t[d] == '.' && t[d + 1] == c && IsWord(c) && !IsSpace(t[d + 2 + |w2|])
    requires t[0..|t|] == t && t[2..b] == w && t[b..d] == p && t[d + 2..d + 2 + |w2|] == w2
    ensures h == Hit(0, |t|, [t, w, p, [c], w2]) && MatchAt(ArrayTag, t, 0) == Some(h)
  {
    var e := d + 2 + |w2|;
    WsEndAt(t, 2, b);
    WsEndAt(t, d + 2, e);
    NoKeyEndBefore(t, b, d);
    ArrayDotFrom(t, b, b + 1, d, e);
    var j: nat := b - 2;
    var h0 := Hit(0, e + 2, [t[0..e + 2], t[2..b], t[b..d], [t[d + 1]], t[d + 2..e]]);
    ArrayAtTry(t, j, b, h0);
    TagMatch(t, 0);
    h := Hit(0, |t|, [t, w, p, [c], w2]);
    ArrayHitIs(t, b, d, e, w, p, c, w2, h0, h);
  }

  lemma ArrayHitIs(t: string, b: nat, d: nat, e: nat, w: string, p: string, c: char, w2: string, h0: Hit, h: Hit)
    requires 2 <= b <= d && d + 2 <= e && e + 2 == |t| && t[d + 1] == c
    requires t[2..b] == w && t[b..d] == p && t[d + 2..e] == w2
    requires h0 == Hit(0, e + 2, [t[0..e + 2], t[2..b], t[b..d], [t[d + 1]], t[d + 2..e]])
    requires h == Hit(0, |t|, [t, w, p, [c], w2])
    ensures h0 == h
  {
    assert t[0..e + 2] == t;
  }

  /** At the start of the text the array scanner tries the whitespace run
      after `{{` at its full length first, and the lazy body from one
      character on. */
  lemma ArrayAtTry(t: string, j: nat, b: nat, h: Hit)
    requires StartsAt(t, 0, "{{") && b == 2 + j && WsEnd(t, 2) == b && b < |t|
    requires ArrayDot(t, 0, b, b + 1) == Some(h)
    ensures ArrayAt(t, 0) == Some(h)
  {
    assert ArrayTry(t, 0, j) == Some(h);
  }

  /** Where the parts of `{{ p.c }}` sit. */
  lemma ArrayLayout(w: string, p: string, c: char, w2: string, t: string)
    requires AllSpace(w) && AllSpace(w2) && |p| > 0 && !IsSpace(p[0]) && !OccursFrom(p, 0, "}}") && IsWord(c)
    requires t == "{{" + w + p + "." + [c] + w2 + "}}"
    ensures var b := 2 + |w|;
            var d := b + |p|;
            && |t| == d + 2 + |w2| + 2
            && StartsAt(t, 0, "{{") && StartsAt(t, d + 2 + |w2|, "}}")
            && (forall k :: 2 <= k < b ==> IsSpace(t[k]))
            && (forall k :: b <= k && k + 2 <= d ==> !StartsAt(t, k, "}}"))
            && (forall k :: d + 2 <= k < d + 2 + |w2| ==> IsSpace(t[k]))
            && !IsSpace(t[b]) && t[d] == '.' && t[d + 1] == c && !IsSpace(t[d + 2 + |w2|])
            && t[0..|t|] == t && t[2..b] == w && t[b..d] == p && t[d + 2..d + 2 + |w2|] == w2
  {
    var b := 2 + |w|;
    var d := b + |p|;
    assert t[0..2] == "{{";
    assert t[d + 2 + |w2|..d + 2 + |w2| + 2] == "}}";
    assert t[2..b] == w && t[b..d] == p && t[d + 2..d + 2 + |w2|] == w2;
    BodyNoClose(t, b, p, '}');
  }

  /** A dot at `k` where the lazy `(.+?)` of the array pattern can stop: a
      word character, whitespace and `}}` follow it. */
  predicate KeyEnd(t: string, k: nat) {
    k + 1 < |t| && t[k] == '.' && IsWord(t[k + 1]) && StartsAt(t, WsEnd(t, k + 2), "}}")
  }

  /** Before the dot at `d`, in a prefix without `}}`, the lazy body cannot stop. */
  lemma NoKeyEndBefore(t: string, b: nat, d: nat)
    requires b < d && d + 1 < |t| && t[d] == '.'
    requires forall k :: b <= k && k + 2 <= d ==> !StartsAt(t, k, "}}")
    ensures forall k :: b < k < d ==> !KeyEnd(t, k)
  {
    forall k | b < k < d
      ensures !KeyEnd(t, k)
    {
      NoKeyEndAt(t, b, d, k);
    }
  }

  /** A dot before `d` is followed by a word character only inside the
      prefix, and the whitespace after that character ends at the latest on
      the dot at `d`; no `}}` starts there. */
  lemma NoKeyEndAt(t: string, b: nat, d: nat, k: nat)
    requires b < k < d && d + 1 < |t| && t[d] == '.'
    requires forall m :: b <= m && m + 2 <= d ==> !StartsAt(t, m, "}}")
    ensures !KeyEnd(t, k)
  {
    if t[k] == '.' && IsWord(t[k + 1]) {
      var v := WsEnd(t, k + 2);
      assert v <= d;
      assert v + 2 <= |t| && v <= d < v + 2 ==> t[d] == t[v..v + 2][d - v];
    }
  }

  /** The lazy `(.+?)` from `b` grows, from the candidate dot at `d0` on,
      up to the dot at `d` followed by a word character, whitespace and `}}`. */
  lemma ArrayDotFrom(t: string, b: nat, d0: nat, d: nat, e: nat)
    requires StartsAt(t, 0, "{{") && 2 <= b < d0 <= d && d + 1 < |t|
    requires forall k :: d0 <= k < d ==> !KeyEnd(t, k)
    requires t[d] == '.' && IsWord(t[d + 1]) && WsEnd(t, d + 2) == e && StartsAt(t, e, "}}")
    ensures ArrayDot(t, 0, b, d0) == Some(Hit(0, e + 2, [t[0..e + 2], t[2..b], t[b..d], [t[d + 1]], t[d + 2..e]]))
    decreases d - d0
  {
    if d0 < d {
      assert !KeyEnd(t, d0);
      ArrayDotFrom(t, b, d0 + 1, d, e);
    }
  }

  /** The converse of `ArrayCompiles`: without a dot the lazy body can stop
      at, the array pass finds nothing and leaves the text alone, so
      `{{ post.title }}` is left for the echo pass. */
  lemma ArrayNeedsKeyEnd(t: string)
    requires forall k: nat :: !KeyEnd(t, k)
    ensures Matches(ArrayTag, t) == []
    ensures CompileArrays(t) == t
  {
    forall s: nat | s <= |t|
      ensures MatchAt(ArrayTag, t, s).None?
    {
      assert MatchIn(ArrayTag, t, s) == TagIn(ArrayTag, t, s);
      if StartsAt(t, s, "{{") {
        ArrayTryNone(t, s, WsEnd(t, s + 2) - (s + 2));
      }
    }
    MarkerAbsentNoMatch(ArrayTag, t);
    assert Texts([]) == [] && ArrayCodes([]) == [];
  }

  /** Every whitespace run the array pattern tries fails without a key end. */
  lemma ArrayTryNone(t: string, s: nat, j: nat)
    requires StartsAt(t, s, "{{") && s + 2 + j <= |t|
    requires forall k: nat :: !KeyEnd(t, k)
    ensures ArrayTry(t, s, j).None?
    decreases j
  {
    ArrayDotNone(t, s, s + 2 + j, s + 3 + j);
    if j > 0 {
      ArrayTryNone(t, s, j - 1);
    }
  }

  /** The lazy body grows to the end of the text without a key end. */
  lemma ArrayDotNone(t: string, s: nat, b: nat, d: nat)
    requires StartsAt(t, s, "{{") && s + 2 <= b < d <= |t| + 1
    requires forall k: nat :: !KeyEnd(t, k)
    ensures ArrayDot(t, s, b, d).None?
    decreases |t| + 1 - d
  {
    if d + 1 < |t| {
      assert !KeyEnd(t, d);
      ArrayDotNone(t, s, b, d + 1);
    }
  }

  // ---------------------------------------------------------------------
  // Echos.

  lemma ExpandEcho(h: Hit)
    ensures Expand(EchoCode, h) == "<?php echo " + Group(h, 1) + "; ?>"
  {
    var c := EchoCode;
    assert c[1..][1..][1..] == [];
  }

  /** The body `x` of a tag closed by `stop` twice, followed by the
      whitespace `w`: it starts and ends with a character other than
      whitespace, and the closing delimiter starts nowhere before the one
      that follows `w`. */
  predicate Body(x: string, w: string, stop: char) {
    |x| > 0 && !IsSpace(x[0]) && !IsSpace(x[|x| - 1]) && !OccursFrom(x + w + [stop], 0, [stop, stop])
  }

  /** No closing delimiter starts in a text laid out at `b` that has none. */
  lemma BodyNoClose(t: string, b: nat, y: string, stop: char)
    requires !OccursFrom(y, 0, [stop, stop]) && b + |y| <= |t| && t[b..b + |y|] == y
    ensures forall k :: b <= k && k + 2 <= b + |y| ==> !StartsAt(t, k, [stop, stop])
  {
    forall k | b <= k && k + 2 <= b + |y|
      ensures !StartsAt(t, k, [stop, stop])
    {
      SliceStartsAt(t, b, y, k, [stop, stop]);
    }
  }

  /** A word inside a slice starts there exactly when it starts in the text. */
  lemma SliceStartsAt(t: string, b: nat, y: string, k: nat, c: string)
    requires b <= k && k + |c| <= b + |y| <= |t| && t[b..b + |y|] == y
    ensures StartsAt(t, k, c) <==> StartsAt(y, k - b, c)
  {
    var u := t[k..k + |c|];
    var v := y[k - b..k - b + |c|];
    forall m | 0 <= m < |c|
      ensures u[m] == v[m]
    {
      assert t[k + m] == t[b..b + |y|][k - b + m];
    }
    assert u == v;
  }

  /** `{{ x }}` becomes `<?php echo x; ?>`: the whitespace on either side of
      the expression is dropped. */
  lemma EchoCompiles(w: string, x: string, w2: string)
    requires AllSpace(w) && AllSpace(w2) && Body(x, w2, '}')
    ensures CompileEchos("{{" + w + x + w2 + "}}") == "<?php echo " + x + "; ?>"
  {
    var t := "{{" + w + x + w2 + "}}";
    var h := EchoHit(w, x, w2, t);
    SingleMatch(EchoTag, t, h, EchoCode);
    ExpandEcho(h);
  }

  /** Braces inside the expression are kept: `{{ {v} }}`, as in
      `{{ {$name} }}`, becomes `<?php echo {v}; ?>`. */
  lemma EchoWithBraces(v: string)
    requires '}' !in v
    ensures CompileEchos("{{ {" + v + "} }}") == "<?php echo {" + v + "}; ?>"
  {
    var x := "{" + v + "}";
    BracesBody(v, x);
    EchoCompiles(" ", x, " ");
    BracesTag(v, x);
    BracesCode(v, x);
  }

  lemma BracesTag(v: string, x: string)
    requires x == "{" + v + "}"
    ensures "{{" + " " + x + " " + "}}" == "{{ {" + v + "} }}"
  {
    assert "{{ {" == "{{" + " " + "{" && "} }}" == "}" + " " + "}}";
  }

  lemma BracesCode(v: string, x: string)
    requires x == "{" + v + "}"
    ensures "<?php echo " + x + "; ?>" == "<?php echo {" + v + "}; ?>"
  {
    assert "<?php echo {" == "<?php echo " + "{" && "}; ?>" == "}" + "; ?>";
  }

  lemma BracesBody(v: string, x: string)
    requires '}' !in v && x == "{" + v + "}"
    ensures Body(x, " ", '}')
  {
    var y := x + " " + ['}'];
    forall i: nat | i <= |y|
      ensures !StartsAt(y, i, ['}', '}'])
    {
      if i + 2 <= |y| {
        assert y[i..i + 2][0] == y[i] && y[i..i + 2][1] == y[i + 1];
        if 1 <= i <= |v| {
          assert y[i] == v[i - 1];
        }
      }
    }
  }

  lemma EchoHit(w: string, x: string, w2: string, t: string) returns (h: Hit)
    requires AllSpace(w) && AllSpace(w2) && Body(x, w2, '}')
    requires t == "{{" + w + x + w2 + "}}"
    ensures h == Hit(0, |t|, [t, x]) && MatchAt(EchoTag, t, 0) == Some(h)
  {
    EchoLayout(w, x, w2);
    h := EchoHitAt(t, 2 + |w|, 2 + |w| + |x|, 2 + |w| + |x| + |w2|, x);
  }

  /** The echo match over a text laid out as `{{ x }}`, by positions. */
  lemma EchoHitAt(t: string, b: nat, q: nat, e: nat, x: string) returns (h: Hit)
    requires 2 <= b < q <= e && |t| == e + 2
    requires StartsAt(t, 0, "{{") && StartsAt(t, e, "}}")
    requires forall k :: 2 <= k < b ==> IsSpace(t[k])
    requires forall k :: b <= k < q ==> !StartsAt(t, k, "}}")
    requires forall k :: q <= k < e ==> IsSpace(t[k])
    requires !IsSpace(t[b]) && !IsSpace(t[q - 1]) && !IsSpace(t[e])
    requires t[b..q] == x
    ensures h == Hit(0, |t|, [t, x]) && MatchAt(EchoTag, t, 0) == Some(h)
  {
    WsEndAt(t, 2, b);
    WsEndAt(t, q, e);
    LazyBodyBefore(t, b, q, e, "}}");
    EchoAtBody(t, b, q, e);
    h := Hit(0, |t|, [t, x]);
    assert MatchIn(EchoTag, t, 0) == EchoAt(t, 0);
  }

  /** An echo whose leading whitespace ends at `b`, whose lazy body ends at
      `q` and whose trailing whitespace ends at the closing `}}` at `e`. */
  lemma EchoAtBody(t: string, b: nat, q: nat, e: nat)
    requires StartsAt(t, 0, "{{") && 2 <= b <= |t| && WsEnd(t, 2) == b
    requires LazyBody(t, b + 1, "}}") == Some(q) && q <= e && WsEnd(t, q) == e && e + 2 == |t|
    ensures EchoAt(t, 0) == Some(Hit(0, |t|, [t, t[b..q]]))
  {
    assert t[0..|t|] == t;
    assert EchoTry(t, 0, b - 2) == Some(Hit(0, |t|, [t, t[b..q]]));
  }

  /** A lazy body between `b` and `q` in which no closing delimiter starts,
      ending with a character other than whitespace,
      followed by whitespace up to the delimiter at `e`, stops at `q`. */
  lemma LazyBodyBefore(t: string, b: nat, q: nat, e: nat, close: Word)
    requires b < q <= e && StartsAt(t, e, close) && !IsSpace(close[0])
    requires forall k :: b <= k < q ==> !StartsAt(t, k, close)
    requires !IsSpace(t[q - 1])
    requires forall k :: q <= k < e ==> IsSpace(t[k])
    ensures LazyBody(t, b + 1, close) == Some(q)
  {
    CloseAfterSpace(t, q, e, close);
    NoCloseBefore(t, b, q, close);
    LazyBodyAt(t, b + 1, q, close);
  }

  /** Whitespace from `q` up to the delimiter: the delimiter follows the
      whitespace run at `q`. */
  lemma CloseAfterSpace(t: string, q: nat, e: nat, close: Word)
    requires q <= e && StartsAt(t, e, close) && !IsSpace(close[0])
    requires forall k :: q <= k < e ==> IsSpace(t[k])
    ensures StartsAt(t, WsEnd(t, q), close)
  {
    StartsAtFirstChar(t, e, close);
    WsEndAt(t, q, e);
  }

  /** No candidate end inside such a body is followed by the delimiter. */
  lemma NoCloseBefore(t: string, b: nat, q: nat, close: Word)
    requires b < q <= |t|
    requires forall k :: b <= k < q ==> !StartsAt(t, k, close)
    requires !IsSpace(t[q - 1])
    ensures forall p :: b + 1 <= p < q ==> !StartsAt(t, WsEnd(t, p), close)
  {
    forall p | b + 1 <= p < q
      ensures !StartsAt(t, WsEnd(t, p), close)
    {
      NoCloseInBody(t, b, q, p, close);
    }
  }

  /** Inside such a body the whitespace after any shorter candidate ends
      on a character of the body, where no delimiter starts. */
  lemma NoCloseInBody(t: string, b: nat, q: nat, p: nat, close: Word)
    requires b < p < q <= |t|
    requires forall k :: b <= k < q ==> !StartsAt(t, k, close)
    requires !IsSpace(t[q - 1])
    ensures !StartsAt(t, WsEnd(t, p), close)
  {
    assert WsEnd(t, p) < q;
  }

  /** Where the parts of `{{ w x w2 }}` sit. */
  lemma EchoLayout(w: string, x: string, w2: string)
    requires AllSpace(w) && AllSpace(w2) && Body(x, w2, '}')
    ensures var t := "{{" + w + x + w2 + "}}";
            var b := 2 + |w|;
            var q := b + |x|;
            && |t| == q + |w2| + 2
            && StartsAt(t, 0, "{{") && StartsAt(t, q + |w2|, "}}")
            && (forall k :: 2 <= k < b ==> IsSpace(t[k]))
            && (forall k :: b <= k < q ==> !StartsAt(t, k, "}}"))
            && (forall k :: q <= k < q + |w2| ==> IsSpace(t[k]))
            && !IsSpace(t[b]) && !IsSpace(t[q - 1]) && !IsSpace(t[q + |w2|])
            && t[b..q] == x
  {
    var t := "{{" + w + x + w2 + "}}";
    var b := 2 + |w|;
    var q := b + |x|;
    assert t[0..2] == "{{";
    assert t[q + |w2|..q + |w2| + 2] == "}}";
    assert t[b..q] == x;
    assert t[b..q + |w2| + 1] == x + w2 + "}";
    BodyNoClose(t, b, x + w2 + "}", '}');
  }

  /** The lazy body stops at the first end after which the closing
      delimiter follows. */
  lemma LazyBodyAt(t: string, from: nat, q: nat, close: Word)
    requires from <= q <= |t| && StartsAt(t, WsEnd(t, q), close)
    requires forall p :: from <= p < q ==> !StartsAt(t, WsEnd(t, p), close)
    ensures LazyBody(t, from, close) == Some(q)
    decreases q - from
  {
    if from < q {
      LazyBodyAt(t, from + 1, q, close);
    }
  }

  // ---------------------------------------------------------------------
  // Code blocks.

  lemma ExpandCode(h: Hit)
    ensures Expand(CodeCode, h) == Group(h, 1) + "<?php " + Group(h, 2) + Group(h, 3) + Group(h, 4) + "?>"
  {
    var c := CodeCode;
    assert c[1..][1..][1..][1..][1..][1..] == [];
  }

  /** A code block between double backticks becomes a PHP block holding
      the text between them, whitespace and all; the whitespace before the
      block is kept in front of it. */
  lemma CodeCompiles(w: string, w1: string, x: string, w3: string)
    requires AllSpace(w) && AllSpace(w1) && AllSpace(w3) && Body(x, w3, '`')
    ensures CompileCodes(w + "``" + w1 + x + w3 + "``") == w + "<?php " + w1 + x + w3 + "?>"
  {
    var t := w + "``" + w1 + x + w3 + "``";
    var h := CodeHit(w, w1, x, w3, t);
    SingleMatch(CodeBlock, t, h, CodeCode);
    ExpandCode(h);
  }

  lemma CodeHit(w: string, w1: string, x: string, w3: string, t: string) returns (h: Hit)
    requires AllSpace(w) && AllSpace(w1) && AllSpace(w3) && Body(x, w3, '`')
    requires t == w + "``" + w1 + x + w3 + "``"
    ensures h == Hit(0, |t|, [t, w, w1, x, w3]) && MatchAt(CodeBlock, t, 0) == Some(h)
  {
    CodeLayout(w, w1, x, w3, t);
    var a := |w|;
    var b := a + 2 + |w1|;
    h := CodeHitAt(t, a, b, b + |x|, b + |x| + |w3|, w, w1, x, w3);
  }

  /** The code-block match over a text laid out as `w``w1 x w3```, by positions. */
  lemma CodeHitAt(t: string, a: nat, b: nat, q: nat, e: nat, w: string, w1: string, x: string, w3: string)
    returns (h: Hit)
    requires a + 2 <= b < q <= e && |t| == e + 2
    requires forall k :: 0 <= k < a ==> IsSpace(t[k])
    requires StartsAt(t, a, "``") && StartsAt(t, e, "``")
    requires forall k :: a + 2 <= k < b ==> IsSpace(t[k])
    requires forall k :: b <= k < q ==> !StartsAt(t, k, "``")
    requires forall k :: q <= k < e ==> IsSpace(t[k])
    requires !IsSpace(t[a]) && !IsSpace(t[b]) && !IsSpace(t[q - 1]) && !IsSpace(t[e])
    requires t[0..a] == w && t[a + 2..b] == w1 && t[b..q] == x && t[q..e] == w3
    ensures h == Hit(0, |t|, [t, w, w1, x, w3]) && MatchAt(CodeBlock, t, 0) == Some(h)
  {
    WsEndAt(t, 0, a);
    WsEndAt(t, a + 2, b);
    LazyBodyBefore(t, b, q, e, "``");
    WsEndAt(t, q, e);
    CodeAtBody(t, a, b, q, e, w, w1, x, w3);
    h := Hit(0, |t|, [t, w, w1, x, w3]);
    assert MatchIn(CodeBlock, t, 0) == CodeAt(t, 0);
  }

  /** A code block whose parts end at `a`, `b`, `q` and `e`. */
  lemma CodeAtBody(t: string, a: nat, b: nat, q: nat, e: nat, w: string, w1: string, x: string, w3: string)
    requires a + 2 <= b <= q <= e && e + 2 == |t|
    requires WsEnd(t, 0) == a && StartsAt(t, a, "``") && WsEnd(t, a + 2) == b
    requires LazyBody(t, b + 1, "``") == Some(q) && WsEnd(t, q) == e
    requires t[0..a] == w && t[a + 2..b] == w1 && t[b..q] == x && t[q..e] == w3
    ensures CodeAt(t, 0) == Some(Hit(0, |t|, [t, w, w1, x, w3]))
  {
    CodeAtTry(t, a, b);
    CodeTryFound(t, 0, a, b, q, e);
    CodeHitIs(t, a, b, q, e, w, w1, x, w3);
  }

  lemma CodeHitIs(t: string, a: nat, b: nat, q: nat, e: nat, w: string, w1: string, x: string, w3: string)
    requires a + 2 <= b <= q <= e && e + 2 == |t|
    requires t[0..a] == w && t[a + 2..b] == w1 && t[b..q] == x && t[q..e] == w3
    ensures Hit(0, e + 2, [t[0..e + 2], t[0..a], t[a + 2..b], t[b..q], t[q..e]]) == Hit(0, |t|, [t, w, w1, x, w3])
  {
    assert t[0..e + 2] == t;
  }

  /** The code-block scanner, with the whitespace run after the opening
      delimiter ending at `b`, takes the body up to the first closing delimiter. */
  lemma CodeTryFound(t: string, s: nat, a: nat, b: nat, q: nat, e: nat)
    requires s <= a && StartsAt(t, a, "``") && a + 2 <= b <= |t|
    requires LazyBody(t, b + 1, "``") == Some(q) && WsEnd(t, q) == e
    ensures CodeTry(t, s, a, b) == Some(Hit(s, e + 2, [t[s..e + 2], t[s..a], t[a + 2..b], t[b..q], t[q..e]]))
  {
  }

  /** At the start of the text the code-block scanner tries the whitespace
      run after the opening delimiter at its full length first. */
  lemma CodeAtTry(t: string, a: nat, b: nat)
    requires WsEnd(t, 0) == a && StartsAt(t, a, "``") && WsEnd(t, a + 2) == b
    ensures CodeAt(t, 0) == CodeTry(t, 0, a, b)
  {
  }

  /** Where the parts of `w``w1 x w3``` sit. */
  lemma CodeLayout(w: string, w1: string, x: string, w3: string, t: string)
    requires AllSpace(w) && AllSpace(w1) && AllSpace(w3) && Body(x, w3, '`')
    requires t == w + "``" + w1 + x + w3 + "``"
    ensures var a := |w|;
            var b := a + 2 + |w1|;
            var q := b + |x|;
            var e := q + |w3|;
            && |t| == e + 2
            && (forall k :: 0 <= k < a ==> IsSpace(t[k]))
            && StartsAt(t, a, "``") && StartsAt(t, e, "``")
            && (forall k :: a + 2 <= k < b ==> IsSpace(t[k]))
            && (forall k :: b <= k < q ==> !StartsAt(t, k, "``"))
            && (forall k :: q <= k < e ==> IsSpace(t[k]))
            && !IsSpace(t[a]) && !IsSpace(t[b]) && !IsSpace(t[q - 1]) && !IsSpace(t[e])
            && t[0..a] == w && t[a + 2..b] == w1 && t[b..q] == x && t[q..e] == w3
  {
    CodeSlices(w, w1, x, w3, t);
    var a := |w|;
    var b := a + 2 + |w1|;
    var q := b + |x|;
    CodeChars(t, a, b, q, q + |w3|, w, w1, x, w3);
  }

  /** The characters of a text whose slices are `w`, `w1`, `x` and `w3`. */
  lemma CodeChars(t: string, a: nat, b: nat, q: nat, e: nat, w: string, w1: string, x: string, w3: string)
    requires AllSpace(w) && AllSpace(w1) && AllSpace(w3) && Body(x, w3, '`')
    requires a + 2 <= b <= q <= e && |t| == e + 2 && t[e..e + 2] == "``"
    requires t[0..a] == w && t[a + 2..b] == w1 && t[b..q] == x && t[q..e] == w3
    ensures forall k :: 0 <= k < a ==> IsSpace(t[k])
    ensures forall k :: a + 2 <= k < b ==> IsSpace(t[k])
    ensures forall k :: b <= k < q ==> !StartsAt(t, k, "``")
    ensures forall k :: q <= k < e ==> IsSpace(t[k])
    ensures b < q && !IsSpace(t[b]) && !IsSpace(t[q - 1])
  {
    forall k | 0 <= k < a
      ensures IsSpace(t[k])
    {
      assert t[k] == t[0..a][k];
    }
    forall k | a + 2 <= k < b
      ensures IsSpace(t[k])
    {
      assert t[k] == t[a + 2..b][k - (a + 2)];
    }
    assert t[b..e + 1] == t[b..q] + t[q..e] + [t[e]];
    assert t[e] == t[e..e + 2][0];
    BodyNoClose(t, b, x + w3 + "`", '`');
    forall k | q <= k < e
      ensures IsSpace(t[k])
    {
      assert t[k] == t[q..e][k - q];
    }
    assert t[b] == x[0] && t[q - 1] == x[|x| - 1];
  }

  /** The slices of `w``w1 x w3``` that are its parts. */
  lemma CodeSlices(w: string, w1: string, x: string, w3: string, t: string)
    requires t == w + "``" + w1 + x + w3 + "``"
    ensures var a := |w|;
            var b := a + 2 + |w1|;
            var q := b + |x|;
            var e := q + |w3|;
            && |t| == e + 2 && t[a..a + 2] == "``" && t[e..e + 2] == "``"
            && t[0..a] == w && t[a + 2..b] == w1 && t[b..q] == x && t[q..e] == w3
  {
  }

  // ---------------------------------------------------------------------
  // Block closers.

  lemma ExpandClosing(h: Hit)
    ensures Expand(ClosingCode, h) == Group(h, 1) + "<?php " + Group(h, 2) + "; ?>" + Group(h, 3)
  {
    var c := ClosingCode;
    assert c[1..][1..][1..][1..][1..] == [];
  }

  /** The alternation of closers takes the keyword that is there when
      whitespace or the end of the text follows it: `endfor` is not taken
      for the start of `endforeach`, which is tried before it. */
  lemma ClosingAlt(t: string, p: nat, kw: string) returns (i: nat)
    requires kw in ClosingKeywords && StartsAt(t, p, kw)
    requires p + |kw| == |t| || IsSpace(t[p + |kw|])
    ensures i < |ClosingKeywords| && ClosingKeywords[i] == kw
    ensures FirstAlt(t, p, ClosingKeywords) == Some(i)
  {
    assert t[p..p + |kw|][3] == t[p + 3];
    if kw == "endif" {
      i := 0;
    } else if kw == "endforeach" {
      NotStartsAt(t, p, "endif", 3);
      i := 1;
    } else if kw == "endfor" {
      NotStartsAt(t, p, "endif", 3);
      NotStartsAt(t, p, "endforeach", 6);
      i := 2;
    } else {
      NotStartsAt(t, p, "endif", 3);
      NotStartsAt(t, p, "endforeach", 3);
      NotStartsAt(t, p, "endfor", 3);
      i := 3;
    }
  }

  /** `w@kw w2`, for a closing keyword, becomes `w<?php kw; ?>w2`, both
      whitespace runs kept. */
  lemma ClosingCompiles(w: string, kw: string, w2: string)
    requires AllSpace(w) && AllSpace(w2) && kw in ClosingKeywords
    ensures CompileClosings(w + "@" + kw + w2) == w + "<?php " + kw + "; ?>" + w2
  {
    var t := w + "@" + kw + w2;
    var h := ClosingHit(w, kw, w2, t);
    SingleMatch(ClosingMatcher(ClosingKeywords), t, h, ClosingCode);
    ExpandClosing(h);
  }

  lemma ClosingHit(w: string, kw: string, w2: string, t: string) returns (h: Hit)
    requires AllSpace(w) && AllSpace(w2) && kw in ClosingKeywords
    requires t == w + "@" + kw + w2
    ensures MatchAt(ClosingMatcher(ClosingKeywords), t, 0) == Some(h) && h.end == |t|
    ensures Group(h, 1) == w && Group(h, 2) == kw && Group(h, 3) == w2
  {
    ClosingLayout(w, kw, w2);
    var i := ClosingAlt(t, |w| + 1, kw);
    h := AltHitAt(t, |w|, ClosingKeywords, i, w, w2);
  }

  /** The closer match of a text with whitespace up to `a`, `@` there, the
      alternative the alternation takes, and whitespace after it to the end. */
  lemma AltHitAt(t: string, a: nat, alts: seq<Word>, i: nat, w: string, w2: string) returns (h: Hit)
    requires i < |alts| && a + 1 + |alts[i]| <= |t|
    requires forall k :: 0 <= k < a ==> IsSpace(t[k])
    requires t[a] == '@' && FirstAlt(t, a + 1, alts) == Some(i)
    requires forall k :: a + 1 + |alts[i]| <= k < |t| ==> IsSpace(t[k])
    requires t[0..a] == w && t[a + 1 + |alts[i]|..|t|] == w2
    ensures MatchAt(ClosingMatcher(alts), t, 0) == Some(h) && h.end == |t|
    ensures Group(h, 1) == w && Group(h, 2) == alts[i] && Group(h, 3) == w2
  {
    WsEndAt(t, 0, a);
    WsEndAt(t, a + 1 + |alts[i]|, |t|);
    ClosingAtIs(t, 0, alts, a, i, |t|);
    DirectiveMatch(ClosingMatcher(alts), t, 0);
    h := Hit(0, |t|, [t[0..|t|], w, alts[i], w2]);
  }

  /** Where the parts of `w@kw w2` sit. */
  lemma ClosingLayout(w: string, kw: string, w2: string)
    requires AllSpace(w) && AllSpace(w2) && kw in ClosingKeywords
    ensures var t := w + "@" + kw + w2;
            var a := |w|;
            var e := a + 1 + |kw|;
            && |t| == e + |w2|
            && (forall k :: 0 <= k < a ==> IsSpace(t[k]))
            && t[a] == '@' && StartsAt(t, a + 1, kw)
            && (forall k :: e <= k < |t| ==> IsSpace(t[k]))
            && t[0..|t|] == t && t[0..a] == w && t[e..|t|] == w2
  {
    var t := w + "@" + kw + w2;
    var a := |w|;
    assert t[a + 1..a + 1 + |kw|] == kw;
    assert t[0..a] == w;
    assert t[a + 1 + |kw|..|t|] == w2;
  }

  // ---------------------------------------------------------------------
  // Includes.

  /** `w@include (arg)` becomes `w` followed by the call that renders the
      theme file `arg` names, or `arg` itself when it names none. The
      argument is everything up to the last `)` of the line, whitespace
      before it excepted. */
  lemma IncludeCompiles(theme: Theme, w: string, w2: string, arg: string)
    requires AllSpace(w) && AllSpace(w2) && '\n' !in arg && (|arg| == 0 || !IsSpace(arg[0]))
    ensures CompileIncludes(theme, w + "@include" + w2 + "(" + arg + ")")
            == w + InsertCall(IncludeTarget(theme, arg))
  {
    var t := w + "@include" + w2 + "(" + arg + ")";
    var h := IncludeHit(w, w2, arg, t);
    IncludeWhole(theme, t, h, w, arg);
  }

  /** A text that is one include match is replaced by that match's code. */
  lemma IncludeWhole(theme: Theme, t: string, h: Hit, w: string, arg: string)
    requires h == Hit(0, |t|, [t, w, arg]) && MatchAt(OpenMatcher("include"), t, 0) == Some(h)
    ensures CompileIncludes(theme, t) == w + InsertCall(IncludeTarget(theme, arg))
  {
    OnlyMatch(OpenMatcher("include"), t, h);
    IncludeOneMatch(theme, t, h);
    StrReplaceWhole(t, w + InsertCall(IncludeTarget(theme, arg)));
  }

  lemma IncludeOneMatch(theme: Theme, t: string, h: Hit)
    requires Matches(OpenMatcher("include"), t) == [h] && |h.groups| == 3 && h.groups[0] == t
    ensures CompileIncludes(theme, t)
            == StrReplace(t, [t], [h.groups[1] + InsertCall(IncludeTarget(theme, h.groups[2]))])
  {
    OneHitTexts(h);
    OneHitIncludeCodes(theme, h);
  }

  lemma IncludeHit(w: string, w2: string, arg: string, t: string) returns (h: Hit)
    requires AllSpace(w) && AllSpace(w2) && '\n' !in arg && (|arg| == 0 || !IsSpace(arg[0]))
    requires t == w + "@include" + w2 + "(" + arg + ")"
    ensures h == Hit(0, |t|, [t, w, arg]) && MatchAt(OpenMatcher("include"), t, 0) == Some(h)
  {
    IncludeLayout(w, w2, arg, t);
    h := IncludeHitAt(t, |w|, |w| + 8 + |w2|, w, arg);
  }

  /** The include match over a text laid out as `w@include w2(arg)`, by
      positions. */
  lemma IncludeHitAt(t: string, a: nat, p: nat, w: string, arg: string) returns (h: Hit)
    requires a + 8 <= p && p + 2 <= |t|
    requires forall k :: 0 <= k < a ==> IsSpace(t[k])
    requires t[a] == '@' && StartsAt(t, a + 1, "include")
    requires forall k :: a + 8 <= k < p ==> IsSpace(t[k])
    requires t[p] == '(' && !IsSpace(t[p + 1])
    requires forall k :: p + 1 <= k < |t| ==> t[k] != '\n'
    requires t[|t| - 1] == ')'
    requires t[0..a] == w && t[p + 1..|t| - 1] == arg
    ensures h == Hit(0, |t|, [t, w, arg]) && MatchAt(OpenMatcher("include"), t, 0) == Some(h)
  {
    IncludeScanAt(t, a, p);
    OpenAtBody(t, a, p, |t| - 1, w, arg);
    h := Hit(0, |t|, [t, w, arg]);
  }

  /** What the include scanner finds in a text laid out as `w@include w2(arg)`,
      by positions. */
  lemma IncludeScanAt(t: string, a: nat, p: nat)
    requires a + 8 <= p && p + 2 <= |t|
    requires forall k :: 0 <= k < a ==> IsSpace(t[k])
    requires t[a] == '@' && StartsAt(t, a + 1, "include")
    requires forall k :: a + 8 <= k < p ==> IsSpace(t[k])
    requires t[p] == '(' && !IsSpace(t[p + 1])
    requires forall k :: p + 1 <= k < |t| ==> t[k] != '\n'
    requires t[|t| - 1] == ')'
    ensures WsEnd(t, 0) == a && WsEnd(t, a + 8) == p && WsEnd(t, p + 1) == p + 1
    ensures LineEnd(t, p + 1) == |t| && GreedyArg(t, p + 1, |t|) == Some(|t| - 1) && WsEnd(t, |t| - 1) == |t| - 1
  {
    WsEndAt(t, 0, a);
    WsEndAt(t, a + 8, p);
    WsEndAt(t, p + 1, p + 1);
    WsEndAt(t, |t| - 1, |t| - 1);
    LineEndAt(t, p + 1, |t|);
    GreedyLast(t, p + 1);
  }

  /** A text ending with `)`: the greedy argument runs up to it. */
  lemma GreedyLast(t: string, b: nat)
    requires b < |t| && t[|t| - 1] == ')'
    ensures GreedyArg(t, b, |t|) == Some(|t| - 1)
  {
    WsEndAt(t, |t| - 1, |t| - 1);
    assert GreedyArg(t, b, |t| - 1) == Some(|t| - 1);
  }

  /** With no line feed from `i` on, the line runs to the end of the text. */
  lemma LineEndAt(t: string, i: nat, j: nat)
    requires i <= j == |t|
    requires forall k :: i <= k < j ==> t[k] != '\n'
    ensures LineEnd(t, i) == j
    decreases j - i
  {
    if i < j {
      LineEndAt(t, i + 1, j);
    }
  }

  /** An include whose `@` is at `a`, whose `(` is at `p` and whose
      argument runs from just after `p` to the closing `)` at `e`. */
  lemma OpenAtBody(t: string, a: nat, p: nat, e: nat, w: string, arg: string)
    requires a < p < e && e + 1 == |t|
    requires WsEnd(t, 0) == a && t[a] == '@' && StartsAt(t, a + 1, "include")
    requires WsEnd(t, a + 8) == p && t[p] == '(' && WsEnd(t, p + 1) == p + 1
    requires LineEnd(t, p + 1) == |t| && GreedyArg(t, p + 1, |t|) == Some(e) && WsEnd(t, e) == e
    requires t[0..a] == w && t[p + 1..e] == arg
    ensures MatchAt(OpenMatcher("include"), t, 0) == Some(Hit(0, |t|, [t, w, arg]))
  {
    OpenTryFirst(t, 0, a, p, e);
    OpenAtTry(t, a, p);
    DirectiveMatch(OpenMatcher("include"), t, 0);
    assert t[0..e + 1] == t;
  }

  /** The first try, with no whitespace after `(`, succeeds when the
      greedy argument ends at `e` right before the `)`. */
  lemma OpenTryFirst(t: string, s: nat, a: nat, p: nat, e: nat)
    requires s <= a < p < |t|
    requires GreedyArg(t, p + 1, LineEnd(t, p + 1)) == Some(e) && WsEnd(t, e) == e
    ensures OpenTry(t, s, a, p, 0) == Some(Hit(s, e + 1, [t[s..e + 1], t[s..a], t[p + 1..e]]))
  {
  }

  /** At the start of the text the include scanner tries the whitespace run
      after `(` at its full length first. */
  lemma OpenAtTry(t: string, a: nat, p: nat)
    requires a < p < |t|
    requires WsEnd(t, 0) == a && t[a] == '@' && StartsAt(t, a + 1, "include")
    requires WsEnd(t, a + 8) == p && t[p] == '(' && WsEnd(t, p + 1) == p + 1
    ensures OpenAt(t, 0, "include") == OpenTry(t, 0, a, p, 0)
  {
  }

  /** Where the parts of `w@include w2(arg)` sit. */
  lemma IncludeLayout(w: string, w2: string, arg: string, t: string)
    requires AllSpace(w) && AllSpace(w2) && '\n' !in arg && (|arg| == 0 || !IsSpace(arg[0]))
    requires t == w + "@include" + w2 + "(" + arg + ")"
    ensures var a := |w|;
            var p := a + 8 + |w2|;
            && |t| == p + 1 + |arg| + 1
            && (forall k :: 0 <= k < a ==> IsSpace(t[k]))
            && t[a] == '@' && StartsAt(t, a + 1, "include")
            && (forall k :: a + 8 <= k < p ==> IsSpace(t[k]))
            && t[p] == '(' && !IsSpace(t[p + 1])
            && (forall k :: p + 1 <= k < |t| ==> t[k] != '\n')
            && t[|t| - 1] == ')'
            && t[0..a] == w && t[p + 1..|t| - 1] == arg
  {
    var a := |w|;
    var p := a + 8 + |w2|;
    assert t[a + 1..a + 8] == "include";
    forall k | p + 1 <= k < |t| - 1
      ensures t[k] != '\n'
    {
      assert t[k] == arg[k - p - 1];
    }
    assert t[0..a] == w && t[p + 1..|t| - 1] == arg;
  }

  // ---------------------------------------------------------------------
  // WordPress partials.

  /** The code a found partial template is replaced with. */
  function PartialCode(file: string): string {
    "<?php " + ClassName + "::insert('" + file + "',get_defined_vars()); ?>"
  }

  /** `get_kind()` becomes the call that renders `kind.php` when the theme
      has that file, and is left alone when it has not. */
  lemma PartialCompiles(theme: Theme, kind: string)
    requires kind in PartialKinds
    ensures var file := LocateFile(theme, [kind + ".php"]);
            CompilePartials(theme, "get_" + kind + "()")
            == if Truthy(file) then PartialCode(file) else "get_" + kind + "()"
  {
    var t := "get_" + kind + "()";
    var file := LocateFile(theme, [kind + ".php"]);
    PartialLayout(kind, t);
    PartialWhole(theme, kind, t);
  }

  /** `w<?php get_kind(); ?>`, the way a theme writes the call, becomes `w`
      followed by the call that renders `kind.php` when the theme has that
      file: the PHP tag, the semicolon and the closing tag go with the call.
      Without the file the text is left alone. */
  lemma PartialTagCompiles(theme: Theme, w: string, kind: string)
    requires kind in PartialKinds && !OccursFrom(w, 0, "get_")
    ensures var t := w + "<?php get_" + kind + "(); ?>";
            var file := LocateFile(theme, [kind + ".php"]);
            CompilePartials(theme, t) == if Truthy(file) then w + PartialCode(file) else t
  {
    var t := w + "<?php get_" + kind + "(); ?>";
    var call := "get_" + kind + "()";
    var file := LocateFile(theme, [kind + ".php"]);
    PartialTagLayout(w, kind, t, call);
    NoGetUpTo(t, w);
    var h := PartialTagMatch(kind, t, |w|, call);
    CallFile(theme, kind, call);
    PartialTagSteps(theme, t, |w|, call, h, file);
  }

  /** The template a bare `get_kind()` names is `kind.php`. */
  lemma CallFile(theme: Theme, kind: string, call: string)
    requires kind in PartialKinds && call == "get_" + kind + "()"
    ensures TemplateFile(theme, Trim(call)) == LocateFile(theme, [kind + ".php"])
    ensures |call| >= 4 && call[..4] == "get_"
  {
    PartialLayout(kind, call);
    var h := PartialCallFacts(kind, call);
    PartialFile(theme, kind, call, h);
  }

  /** The partial pass on a text holding one partial call `h` inside a PHP
      tag at `n`. */
  lemma PartialTagSteps(theme: Theme, t: string, n: nat, call: Word, h: Hit, file: string)
    requires Matches(PartialCall, t) == [h] && Group(h, 0) == call && Group(h, 1) == ""
    requires TemplateFile(theme, Trim(call)) == file
    requires |call| >= 4 && call[..4] == "get_" && TagLaidOut(t, n, call)
    requires forall a: nat :: a <= n ==> !StartsAt(t, a, "get_")
    ensures CompilePartials(theme, t) == if Truthy(file) then t[..n] + PartialCode(file) else t
  {
    PartialRulesOne(theme, call, [h], file);
    if Truthy(file) {
      CallTagReplaced(t, n, call, PartialCode(file));
    }
  }

  /** The partial pass finds the call of `w<?php get_kind(); ?>` and nothing
      else. */
  lemma PartialTagMatch(kind: string, t: string, n: nat, call: string) returns (h: Hit)
    requires kind in PartialKinds && call == "get_" + kind + "()" && TagLaidOut(t, n, call)
    requires forall a: nat :: a <= n ==> !StartsAt(t, a, "get_")
    ensures Matches(PartialCall, t) == [h]
    ensures Group(h, 0) == call && Group(h, 1) == ""
  {
    assert var c := n + 10 + |kind|;
           && |t| == c + 6 && StartsAt(t, n, "<?php") && t[n + 5] == ' '
           && t[n + 6..n + 10] == "get_" && t[n + 10..c] == kind && t[c] == '(' && t[c + 1] == ')'
           && t[n + 6..c + 2] == call && t[c + 2] == ';' by {
      CallParts(t, n + 6, kind, call);
    }
    h := PartialTagHit(kind, t, n, call);
  }

  /** `t` holds, from `n` on, `call` inside a PHP tag, with the `;`: the
      way a theme writes a partial call. */
  predicate TagLaidOut(t: string, n: nat, call: string) {
    var c := n + 6 + |call|;
    && |t| == c + 4 && StartsAt(t, n, "<?php") && t[n + 5] == ' ' && t[n + 6..c] == call
    && t[c] == ';' && t[c + 1] == ' ' && StartsAt(t, c + 2, "?>")
  }

  /** Where the parts of `w<?php get_kind(); ?>` sit. */
  lemma PartialTagLayout(w: string, kind: string, t: string, call: string)
    requires t == w + "<?php get_" + kind + "(); ?>" && call == "get_" + kind + "()"
    ensures t[..|w|] == w && |w| < |t| && t[|w|] == '<' && TagLaidOut(t, |w|, call)
  {
    var n := |w|;
    var c := n + 6 + |call|;
    assert t == w + "<?php " + call + "; ?>";
    assert t[n..n + 5] == "<?php";
    assert t[n + 6..c] == call;
    assert t[c + 2..c + 4] == "?>";
  }

  /** The parts of `get_kind()` where it sits in `t`. */
  lemma CallParts(t: string, m: nat, kind: string, call: string)
    requires call == "get_" + kind + "()" && m + |call| <= |t| && t[m..m + |call|] == call
    ensures var c := m + 4 + |kind|;
            && t[m..m + 4] == "get_" && t[m + 4..c] == kind && t[c] == '(' && t[c + 1] == ')'
  {
    var c := m + 4 + |kind|;
    assert call[..4] == "get_" && call[4..4 + |kind|] == kind;
    assert call[4 + |kind|] == '(' && call[5 + |kind|] == ')';
    SubSlice(t, m, m + |call|, 0, 4);
    SubSlice(t, m, m + |call|, 4, 4 + |kind|);
    assert t[c] == t[m..m + |call|][4 + |kind|] && t[c + 1] == t[m..m + |call|][5 + |kind|];
  }

  /** A slice of a slice is a slice. */
  lemma SubSlice(t: string, a: nat, b: nat, i: nat, j: nat)
    requires a <= b <= |t| && i <= j <= b - a
    ensures t[a..b][i..j] == t[a + i..a + j]
  {
    assert |t[a..b][i..j]| == |t[a + i..a + j]|;
    forall k | 0 <= k < j - i
      ensures t[a..b][i..j][k] == t[a + i..a + j][k]
    {
    }
  }

  /** A prefix without `get_`, followed by `<`: no `get_` begins in it. */
  lemma NoGetUpTo(t: string, w: string)
    requires |w| < |t| && t[..|w|] == w && t[|w|] == '<' && !OccursFrom(w, 0, "get_")
    ensures forall a: nat :: a <= |w| ==> !StartsAt(t, a, "get_")
  {
    var n := |w|;
    forall a: nat | a <= n
      ensures !StartsAt(t, a, "get_")
    {
      if a + 4 <= n {
        assert t[a..a + 4] == w[a..a + 4];
        assert !StartsAt(w, a, "get_");
      } else {
        NotStartsAt(t, a, "get_", n - a);
      }
    }
  }

  /** The partial pass on `w<?php get_kind(); ?>`, whose call begins at
      `n + 6`, finds that call and nothing else. */
  lemma PartialTagHit(kind: string, t: string, n: nat, call: string) returns (h: Hit)
    requires kind in PartialKinds
    requires var c := n + 10 + |kind|;
             && |t| == c + 6 && StartsAt(t, n, "<?php") && t[n + 5] == ' '
             && t[n + 6..n + 10] == "get_" && t[n + 10..c] == kind && t[c] == '(' && t[c + 1] == ')'
             && t[n + 6..c + 2] == call && t[c + 2] == ';'
    requires forall a: nat :: a <= n ==> !StartsAt(t, a, "get_")
    ensures Matches(PartialCall, t) == [h]
    ensures Group(h, 0) == call && Group(h, 1) == ""
  {
    var m := n + 6;
    var c := m + 4 + |kind|;
    assert t[m] == t[m..m + 4][0];
    WsEndAt(t, m, m);
    var i := PartialAlt(t, kind, m + 4);
    assert t[m..m] == "";
    h := Hit(m, c + 2, [t[m..c + 2], "", kind, ""]);
    assert h.start == n + 6 && h.end + 4 == |t| && t[h.end] == ';';
    assert Group(h, 0) == call && Group(h, 1) == "";
    assert PartialArgs(t, m, m, kind) == Some(h) by {
      NoArgsHit(t, m, kind);
    }
    assert MatchAt(PartialCall, t, m) == Some(h) by {
      assert PartialAt(t, m) == Some(h);
      assert MatchIn(PartialCall, t, m) == PartialAt(t, m);
    }
    SolePartial(t, n, h);
  }

  /** A partial call right after `<?php ` at `n`, followed by `; ?>` and
      with no `get_` before it, is the only one. */
  lemma SolePartial(t: string, n: nat, h: Hit)
    requires h.start == n + 6 && h.end + 4 == |t| && t[h.end] == ';'
    requires MatchAt(PartialCall, t, h.start) == Some(h)
    requires StartsAt(t, n, "<?php")
    requires forall a: nat :: a <= n ==> !StartsAt(t, a, "get_")
    ensures Matches(PartialCall, t) == [h]
  {
    PartialsBefore(t, n);
    NoGetAfter(t, h.end);
    SoleMatch(PartialCall, t, h);
  }

  /** Before the call, within `w<?php `, the partial pattern finds nothing. */
  lemma PartialsBefore(t: string, n: nat)
    requires n + 6 <= |t| && StartsAt(t, n, "<?php")
    requires forall a: nat :: a <= n ==> !StartsAt(t, a, "get_")
    ensures forall s: nat :: s < n + 6 ==> MatchAt(PartialCall, t, s).None?
  {
    var tag := t[n..n + 5];
    assert tag == "<?php";
    assert t[n] == tag[0] && t[n + 1] == tag[1] && t[n + 2] == tag[2];
    assert t[n + 3] == tag[3] && t[n + 4] == tag[4];
    forall s: nat | s < n + 6
      ensures MatchAt(PartialCall, t, s).None?
    {
      assert MatchIn(PartialCall, t, s) == PartialAt(t, s);
      if s <= n {
        NoPartialUpTo(t, n, s);
      } else {
        NoPartialInTag(t, n, s);
      }
    }
  }

  /** Up to a `<` at `n` with no `get_` before it, a partial call cannot
      begin: the whitespace it skips stops by `n`. */
  lemma NoPartialUpTo(t: string, n: nat, s: nat)
    requires s <= n < |t| && t[n] == '<'
    requires forall a: nat :: a <= n ==> !StartsAt(t, a, "get_")
    ensures PartialAt(t, s).None?
  {
    var a := WsEnd(t, s);
    assert a <= n;
  }

  /** Inside `<?php `, a partial call cannot begin. */
  lemma NoPartialInTag(t: string, n: nat, s: nat)
    requires n < s < n + 6 <= |t|
    requires t[n] == '<' && t[n + 1] == '?' && t[n + 2] == 'p' && t[n + 3] == 'h' && t[n + 4] == 'p'
    ensures PartialAt(t, s).None?
  {
    if s <= n + 4 {
      WsEndAt(t, s, s);
      NotStartsAt(t, s, "get_", 0);
    } else {
      assert IsWord(t[s - 1]);
    }
  }

  /** From a `;` four characters before the end, `get_` does not occur. */
  lemma NoGetAfter(t: string, e: nat)
    requires e + 4 == |t| && t[e] == ';'
    ensures !OccursFrom(t, e, "get_")
  {
    NotStartsAt(t, e, "get_", 0);
  }

  /** The call pattern at the opening tag takes the tag, the call, the `;`
      and the closing tag: all of the text from `n` on. */
  lemma CallTagReplaced(t: string, n: nat, call: Word, code: string)
    requires |call| >= 4 && call[..4] == "get_" && TagLaidOut(t, n, call)
    requires forall a: nat :: a <= n ==> !StartsAt(t, a, "get_")
    ensures ReplaceEach(t, [Rule(InsertedCall(call), code)]) == t[..n] + code
  {
    assert call[0] == call[..4][0] && t[n] == t[n..n + 5][0];
    var h := CallTagHit(t, n, call);
    CallsBefore(t, n, call);
    TrailingMatchReplaced(InsertedCall(call), t, [Lit(code)], h);
    assert Expand([Lit(code)], h) == code + "";
  }

  /** At the opening tag the call pattern takes its `\s*` whole, then the
      call, the `;` and the closing tag. */
  lemma CallTagHit(t: string, n: nat, call: Word) returns (h: Hit)
    requires TagLaidOut(t, n, call) && call[0] == 'g'
    ensures h.start == n && h.end == |t| && MatchAt(InsertedCall(call), t, n) == Some(h)
  {
    var c := n + 6 + |call|;
    assert t[n + 6] == t[n + 6..c][0];
    WsEndAt(t, n + 5, n + 6);
    WsEndAt(t, c + 1, c + 2);
    h := Hit(n, |t|, [t[n..|t|]]);
    assert CallTail(t, n, c) == h;
    assert CallTagTry(t, n, call, 1) == Some(h);
    assert MatchIn(InsertedCall(call), t, n) == CallAt(t, n, call);
  }

  /** Before an opening tag at `n`, with no `get_` up to it, a call that
      begins with `get_` is not found. */
  lemma CallsBefore(t: string, n: nat, call: Word)
    requires |call| >= 4 && call[..4] == "get_"
    requires n < |t| && t[n] == '<'
    requires forall a: nat :: a <= n ==> !StartsAt(t, a, "get_")
    ensures forall s: nat :: s < n ==> MatchAt(InsertedCall(call), t, s).None?
  {
    forall a: nat | a <= n
      ensures !StartsAt(t, a, call)
    {
      StartsWithGet(t, a, call);
    }
    forall s: nat | s < n
      ensures MatchAt(InsertedCall(call), t, s).None?
    {
      assert MatchIn(InsertedCall(call), t, s) == CallAt(t, s, call);
      if s + 5 > n {
        NotStartsAt(t, s, "<?php", n - s);
      }
      if StartsAt(t, s, "<?php") {
        var j := WsEnd(t, s + 5) - (s + 5);
        assert s + 5 + j <= n;
        CallTryNone(t, s, call, j, n);
      }
    }
  }

  /** Where a call beginning with `get_` begins, `get_` begins. */
  lemma StartsWithGet(t: string, a: nat, call: string)
    requires |call| >= 4 && call[..4] == "get_"
    ensures StartsAt(t, a, call) ==> StartsAt(t, a, "get_")
  {
    if a + |call| <= |t| {
      assert t[a..a + 4] == t[a..a + |call|][..4];
    }
  }

  /** The tries after `<?php` with runs of `j` characters or fewer all end
      by `n`, where the call does not begin. */
  lemma CallTryNone(t: string, s: nat, call: Word, j: nat, n: nat)
    requires s + 5 + j <= n <= |t|
    requires forall a: nat :: a <= n ==> !StartsAt(t, a, call)
    ensures CallTagTry(t, s, call, j).None?
    decreases j
  {
    if j > 0 {
      CallTryNone(t, s, call, j - 1, n);
    }
  }

  /** `get_kind()` at `m`, after a character that is not a word character,
      is a partial call with no argument. */
  lemma PartialHitAt(kind: string, t: string, m: nat) returns (h: Hit)
    requires kind in PartialKinds
    requires var c := m + 4 + |kind|;
             && c + 2 <= |t| && t[m..m + 4] == "get_" && t[m + 4..c] == kind
             && t[c] == '(' && t[c + 1] == ')'
    requires m == 0 || !IsWord(t[m - 1])
    ensures var e := m + 4 + |kind| + 2;
            && h.start == m && h.end == e && MatchAt(PartialCall, t, m) == Some(h)
            && Group(h, 0) == t[m..e] && Group(h, 1) == "" && Group(h, 2) == kind && Group(h, 3) == ""
  {
    var c := m + 4 + |kind|;
    assert t[m] == t[m..m + 4][0];
    WsEndAt(t, m, m);
    var i := PartialAlt(t, kind, m + 4);
    assert t[m..m] == "";
    h := Hit(m, c + 2, [t[m..c + 2], "", kind, ""]);
    assert PartialArgs(t, m, m, kind) == Some(h) by {
      NoArgsHit(t, m, kind);
    }
    assert StartsAt(t, m, "get_");
    PartialAtArgs(t, m, i, h);
  }

  /** A partial call at `m`, with no whitespace in front, is the match its
      arguments give. */
  lemma PartialAtArgs(t: string, m: nat, i: nat, h: Hit)
    requires i < |PartialKinds| && m + 4 + |PartialKinds[i]| <= |t|
    requires NotAfterWord(t, m) && WsEnd(t, m) == m && StartsAt(t, m, "get_")
    requires FirstAlt(t, m + 4, PartialKinds) == Some(i)
    requires PartialArgs(t, m, m, PartialKinds[i]) == Some(h)
    ensures MatchAt(PartialCall, t, m) == Some(h)
  {
    var a := WsEnd(t, m);
    assert StartsAt(t, a, "get_") && FirstAlt(t, a + 4, PartialKinds) == Some(i);
    assert PartialAt(t, m) == Some(h);
    assert MatchIn(PartialCall, t, m) == PartialAt(t, m);
  }

  /** Empty parentheses right after the kind close the call. */
  lemma NoArgsHit(t: string, m: nat, kind: Word)
    requires var c := m + 4 + |kind|; c + 2 <= |t| && t[c] == '(' && t[c + 1] == ')'
    ensures var c := m + 4 + |kind|;
            PartialArgs(t, m, m, kind) == Some(Hit(m, c + 2, [t[m..c + 2], t[m..m], kind, ""]))
  {
    var c := m + 4 + |kind|;
    WsEndAt(t, c, c);
    WsEndAt(t, c + 1, c + 1);
    assert QuotedEnd(t, c + 1).None?;
  }

  /** The partial pass on a text laid out as `get_kind()`, by positions. */
  lemma PartialWhole(theme: Theme, kind: string, t: string)
    requires kind in PartialKinds
    requires |t| == 4 + |kind| + 2 && t[0..4] == "get_" && t[4..4 + |kind|] == kind
    requires t[4 + |kind|] == '(' && t[4 + |kind| + 1] == ')'
    ensures var file := LocateFile(theme, [kind + ".php"]);
            CompilePartials(theme, t) == if Truthy(file) then PartialCode(file) else t
  {
    var h := PartialCallFacts(kind, t);
    PartialFile(theme, kind, t, h);
    PartialSteps(theme, t, h, LocateFile(theme, [kind + ".php"]));
  }

  /** Where the parts of `get_kind()` sit. */
  lemma PartialLayout(kind: string, t: string)
    requires t == "get_" + kind + "()"
    ensures |t| == 4 + |kind| + 2 && t[0..4] == "get_" && t[4..4 + |kind|] == kind
    ensures t[4 + |kind|] == '(' && t[4 + |kind| + 1] == ')'
  {
    assert t[0..4] == "get_" && t[4..4 + |kind|] == kind;
  }

  /** The partial pass on a text that is one partial call `h`, whose
      template is `file`. */
  lemma PartialSteps(theme: Theme, t: Word, h: Hit, file: string)
    requires t[0] != '<' && Matches(PartialCall, t) == [h]
    requires Group(h, 0) == t && Group(h, 1) == "" && TemplateFile(theme, Trim(t)) == file
    ensures CompilePartials(theme, t) == if Truthy(file) then PartialCode(file) else t
  {
    PartialRulesOne(theme, t, [h], file);
    if Truthy(file) {
      ReplaceOneCall(t, PartialCode(file));
    }
  }

  /** `get_kind()` is the one partial call of its text, and names `kind.php`. */
  lemma PartialCallFacts(kind: string, t: string) returns (h: Hit)
    requires kind in PartialKinds
    requires |t| == 4 + |kind| + 2 && t[0..4] == "get_" && t[4..4 + |kind|] == kind
    requires t[4 + |kind|] == '(' && t[4 + |kind| + 1] == ')'
    ensures t[0] == 'g' && t[|t| - 1] == ')' && Matches(PartialCall, t) == [h]
    ensures Group(h, 0) == t && Group(h, 1) == "" && Group(h, 2) == kind && Group(h, 3) == ""
  {
    assert t[0..4][0] == t[0];
    h := PartialHit(kind, t);
    OnlyMatch(PartialCall, t, h);
  }

  /** The rule of a call, applied to the call's own text, gives the code. */
  lemma ReplaceOneCall(t: Word, code: string)
    requires t[0] != '<'
    ensures ReplaceEach(t, [Rule(InsertedCall(t), code)]) == code
  {
    var h := CallHit(t);
    SingleMatch(InsertedCall(t), t, h, [Lit(code)]);
    assert Expand([Lit(code)], h) == code + "";
  }

  /** One partial call yields one rule when its template is found and none
      otherwise. */
  lemma PartialRulesOne(theme: Theme, call: Word, hits: seq<Hit>, file: string)
    requires |hits| == 1 && Group(hits[0], 0) == call && Group(hits[0], 1) == ""
    requires TemplateFile(theme, Trim(call)) == file
    ensures PartialRules(theme, hits, 0) == if Truthy(file) then [Rule(InsertedCall(call), PartialCode(file))] else []
  {
    PartialRulesLast(theme, hits);
  }

  lemma PartialRulesLast(theme: Theme, hits: seq<Hit>)
    requires |hits| == 1 && |Group(hits[0], 0)| > 0
    ensures PartialRules(theme, hits, 1) == []
  {
  }

  /** The partial call matched again on its own text names `kind.php`. */
  lemma PartialFile(theme: Theme, kind: string, t: string, h: Hit)
    requires kind in PartialKinds && |t| > 0 && t[0] == 'g' && t[|t| - 1] == ')'
    requires Matches(PartialCall, t) == [h] && Group(h, 2) == kind && Group(h, 3) == ""
    ensures TemplateFile(theme, Trim(t)) == LocateFile(theme, [kind + ".php"])
  {
    TrimWhole(t);
    TemplateFileOf(theme, t, h);
    KindKept(kind);
    NoSlugNames(kind);
  }

  /** The template of a call that is matched once: its kind and its quoted
      argument name the candidates. */
  lemma TemplateFileOf(theme: Theme, call: string, h: Hit)
    requires Matches(PartialCall, call) == [h]
    ensures TemplateFile(theme, call)
            == LocateFile(theme, TemplateNames(StripQuotesAndSpace(Group(h, 2)), Group(h, 3)))
  {
  }

  /** A partial kind has no quote or whitespace to strip. */
  lemma KindKept(kind: string)
    requires kind in PartialKinds
    ensures StripQuotesAndSpace(kind) == kind
  {
    assert forall k :: 0 <= k < |kind| ==> 'a' <= kind[k] <= 'z';
    LowerKept(kind);
  }

  /** Lower-case letters are neither quotes nor whitespace. */
  lemma LowerKept(s: string)
    requires forall k :: 0 <= k < |s| ==> 'a' <= s[k] <= 'z'
    ensures StripQuotesAndSpace(s) == s
  {
    forall k | 0 <= k < |s|
      ensures s[k] != '"' && s[k] != '\'' && !IsSpace(s[k])
    {
    }
  }

  /** Without a quoted argument the only candidate is `kind.php`. */
  lemma NoSlugNames(kind: string)
    ensures TemplateNames(kind, "") == [kind + ".php"]
  {
    assert Trim("") == "";
  }

  /** A string that starts and ends with a character `trim` keeps is its
      own trim. */
  lemma TrimWhole(s: string)
    requires |s| > 0 && !IsTrimChar(s[0]) && !IsTrimChar(s[|s| - 1])
    ensures Trim(s) == s
  {
    assert TrimStart(s, 0) == 0;
    assert TrimStop(s, 0, |s|) == |s|;
    assert s[0..|s|] == s;
  }

  /** `get_kind()` on its own is one partial call with no argument. */
  lemma PartialHit(kind: string, t: string) returns (h: Hit)
    requires kind in PartialKinds
    requires |t| == 4 + |kind| + 2 && t[0..4] == "get_" && t[4..4 + |kind|] == kind
    requires t[4 + |kind|] == '(' && t[4 + |kind| + 1] == ')'
    ensures MatchAt(PartialCall, t, 0) == Some(h) && h.end == |t|
    ensures Group(h, 0) == t && Group(h, 1) == "" && Group(h, 2) == kind && Group(h, 3) == ""
  {
    h := PartialHitAt(kind, t, 0);
    assert t[0..|t|] == t;
  }

  /** The partial kinds begin with different letters, so the alternation
      takes the one that is there. */
  lemma PartialAlt(t: string, kind: string, b: nat) returns (i: nat)
    requires kind in PartialKinds && StartsAt(t, b, kind)
    ensures i < |PartialKinds| && PartialKinds[i] == kind
    ensures FirstAlt(t, b, PartialKinds) == Some(i)
  {
    assert t[b..b + |kind|][0] == t[b];
    if kind == "header" {
      i := 0;
    } else if kind == "footer" {
      NotStartsAt(t, b, "header", 0);
      i := 1;
    } else {
      NotStartsAt(t, b, "header", 0);
      NotStartsAt(t, b, "footer", 0);
      i := 2;
    }
  }

  /** The search pattern built for a call, applied to the call's own text,
      matches all of it: there is no PHP tag or `;` around it. */
  lemma CallHit(t: Word) returns (h: Hit)
    requires t[0] != '<'
    ensures h == Hit(0, |t|, [t]) && MatchAt(InsertedCall(t), t, 0) == Some(h)
  {
    assert !StartsAt(t, 0, "<?php") by {
      NotStartsAt(t, 0, "<?php", 0);
    }
    assert t[0..|t|] == t;
    WsEndAt(t, |t|, |t|);
    h := Hit(0, |t|, [t]);
    assert CallTail(t, 0, |t|) == h;
    assert MatchIn(InsertedCall(t), t, 0) == CallAt(t, 0, t);
  }
}
