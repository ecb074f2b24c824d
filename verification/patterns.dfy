/**
  The regular expressions of the template compiler, each written out as a
  scanner that answers one question: does the pattern match at index `s`, and
  if so where does the match end and what did each capture group take?

  Each scanner reproduces the backtracking order of PCRE for its one pattern:
  greedy quantifiers try the longest run first, lazy ones the shortest, and
  when the rest of the pattern fails the scanner retries with the next
  choice exactly as the regular-expression engine would. Where a backtracking
  step provably cannot produce a different match (a greedy `\s*` followed by a
  character that is not whitespace, say) the comment says so and the scanner
  does not repeat it. The echo delimiters are the default `{{` and `}}`, the
  code delimiters the default pair of double backticks.
 */
module Patterns {
  import opened Text
  import opened Balanced

  /** One match: where it starts and ends in the subject, and the text of
      each capture group, group 0 being the whole match. A group that did not
      take part in the match holds "", as in PHP's match arrays. */
  datatype Hit = Hit(start: nat, end: nat, groups: seq<string>)

  /** Group `n` of a hit, "" when it has no such group. */
  function Group(h: Hit, n: nat): string {
    if n < |h.groups| then h.groups[n] else ""
  }

  /** `h` is a non-empty match of `t` starting at `s` whose group 0 is the matched text. */
  predicate HitOf(t: string, s: nat, h: Hit) {
    && h.start == s
    && s < h.end <= |t|
    && |h.groups| > 0
    && h.groups[0] == t[s..h.end]
  }

  lemma OccursAt(t: string, i: nat, w: string)
    requires StartsAt(t, i, w)
    ensures OccursFrom(t, i, w)
  {
  }

  lemma AtSign(t: string, a: nat)
    requires a < |t| && t[a] == '@'
    ensures StartsAt(t, a, "@")
  {
    assert t[a..a + 1] == [t[a]];
  }

  // ---------------------------------------------------------------------
  // Comments: {{--((.|\s)*?)--}}
  // `(.|\s)` matches every character, and the lazy `*?` stops at the first
  // `--}}` after the opening `{{--`.

  function CommentAt(t: string, s: nat): (r: Option<Hit>)
    requires s <= |t|
    ensures r.Some? <==> StartsAt(t, s, "{{--") && OccursFrom(t, s + 4, "--}}")
    ensures r.Some? ==> HitOf(t, s, r.value) && |r.value.groups| == 2
    ensures r.Some? ==> s + 8 <= r.value.end && StartsAt(t, r.value.end - 4, "--}}")
                        && r.value.groups[1] == t[s + 4..r.value.end - 4]
    ensures r.Some? ==> forall k: nat :: s + 4 <= k < r.value.end - 4 ==> !StartsAt(t, k, "--}}")
  {
    if !StartsAt(t, s, "{{--") then None
    else
      match FindFirst(t, s + 4, "--}}")
      case None => None
      case Some(k) => Some(Hit(s, k + 4, [t[s..k + 4], t[s + 4..k]]))
  }

  // ---------------------------------------------------------------------
  // Dot-notation arrays: {{(\s*)(.+?)\.([\w0-9])(\s*)}} with the `s` flag.
  // The leading `(\s*)` first takes the whole whitespace run; for each of
  // its lengths, longest first, the lazy `(.+?)` grows one character at a
  // time until a `.`, one word character, whitespace and `}}` follow. With
  // the `s` flag `.` also matches line feeds, so the search may run past a
  // `}}` into a later tag. The trailing `(\s*)` is followed by `}`, which is
  // not whitespace, so only its longest run can succeed.

  function ArrayAt(t: string, s: nat): (r: Option<Hit>)
    requires s <= |t|
    ensures r.Some? ==> HitOf(t, s, r.value) && |r.value.groups| == 5 && StartsAt(t, s, "{{")
  {
    if !StartsAt(t, s, "{{") then None
    else ArrayTry(t, s, WsEnd(t, s + 2) - (s + 2))
  }

  /** The leading `(\s*)` takes `j` characters; shorter runs are tried next. */
  function ArrayTry(t: string, s: nat, j: nat): (r: Option<Hit>)
    requires StartsAt(t, s, "{{") && s + 2 + j <= |t|
    ensures r.Some? ==> HitOf(t, s, r.value) && |r.value.groups| == 5
    decreases j
  {
    match ArrayDot(t, s, s + 2 + j, s + 3 + j)
    case Some(h) => Some(h)
    case None => if j == 0 then None else ArrayTry(t, s, j - 1)
  }

  /** The lazy `(.+?)` runs from `b` to the candidate dot at `d`. */
  function ArrayDot(t: string, s: nat, b: nat, d: nat): (r: Option<Hit>)
    requires StartsAt(t, s, "{{") && s + 2 <= b < d <= |t| + 1
    ensures r.Some? ==> HitOf(t, s, r.value) && |r.value.groups| == 5
    decreases |t| + 1 - d
  {
    if d + 1 >= |t| then None
    else if t[d] == '.' && IsWord(t[d + 1]) && StartsAt(t, WsEnd(t, d + 2), "}}") then
      var w := WsEnd(t, d + 2);
      Some(Hit(s, w + 2, [t[s..w + 2], t[s + 2..b], t[b..d], [t[d + 1]], t[d + 2..w]]))
    else ArrayDot(t, s, b, d + 1)
  }

  // ---------------------------------------------------------------------
  // Echos: {{\s*(.+?)\s*}} with the `s` flag, and code blocks:
  // (?<!\w)(\s*)``(\s*)(.+?)(\s*)`` with the `s` flag. Both are a lazy body
  // followed by optional whitespace and a closing delimiter.

  /** The lazy body grows from its shortest length: the first end `q >= from`
      after which whitespace and `close` follow. */
  function LazyBody(t: string, from: nat, close: Word): (r: Option<nat>)
    requires from <= |t| + 1
    ensures r.Some? ==> from <= r.value <= |t| && StartsAt(t, WsEnd(t, r.value), close)
    decreases |t| + 1 - from
  {
    if from > |t| then None
    else if StartsAt(t, WsEnd(t, from), close) then Some(from)
    else LazyBody(t, from + 1, close)
  }

  /** The lazy body is the shortest: no earlier end is followed by the
      closing delimiter. */
  lemma {:induction false} LazyBodyShortest(t: string, from: nat, close: Word)
    requires from <= |t| + 1
    ensures LazyBody(t, from, close).Some? ==>
              forall q :: from <= q < LazyBody(t, from, close).value ==> !StartsAt(t, WsEnd(t, q), close)
    decreases |t| + 1 - from
  {
    if from <= |t| && !StartsAt(t, WsEnd(t, from), close) {
      LazyBodyShortest(t, from + 1, close);
    }
  }

  function EchoAt(t: string, s: nat): (r: Option<Hit>)
    requires s <= |t|
    ensures r.Some? ==> HitOf(t, s, r.value) && |r.value.groups| == 2 && StartsAt(t, s, "{{")
  {
    if !StartsAt(t, s, "{{") then None
    else EchoTry(t, s, WsEnd(t, s + 2) - (s + 2))
  }

  /** The leading `\s*` takes `j` characters; shorter runs are tried next. */
  function EchoTry(t: string, s: nat, j: nat): (r: Option<Hit>)
    requires StartsAt(t, s, "{{") && s + 2 + j <= |t|
    ensures r.Some? ==> HitOf(t, s, r.value) && |r.value.groups| == 2
    decreases j
  {
    var b := s + 2 + j;
    match LazyBody(t, b + 1, "}}")
    case Some(q) =>
      var w := WsEnd(t, q);
      Some(Hit(s, w + 2, [t[s..w + 2], t[b..q]]))
    case None => if j == 0 then None else EchoTry(t, s, j - 1)
  }

  function CodeAt(t: string, s: nat): (r: Option<Hit>)
    requires s <= |t|
    ensures r.Some? ==> HitOf(t, s, r.value) && |r.value.groups| == 5 && OccursFrom(t, s, "``")
  {
    if !NotAfterWord(t, s) then None
    else
      // The leading (\s*) is followed by a backtick, which is not whitespace:
      // only its longest run can succeed.
      var a := WsEnd(t, s);
      if !StartsAt(t, a, "``") then None
      else
        OccursAt(t, a, "``");
        CodeTry(t, s, a, WsEnd(t, a + 2))
  }

  /** The `(\s*)` after the opening delimiter ends at `b`; shorter runs are tried next. */
  function CodeTry(t: string, s: nat, a: nat, b: nat): (r: Option<Hit>)
    requires s <= a && StartsAt(t, a, "``") && a + 2 <= b <= |t|
    ensures r.Some? ==> HitOf(t, s, r.value) && |r.value.groups| == 5
    decreases b
  {
    match LazyBody(t, b + 1, "``")
    case Some(q) =>
      var w := WsEnd(t, q);
      Some(Hit(s, w + 2, [t[s..w + 2], t[s..a], t[a + 2..b], t[b..q], t[q..w]]))
    case None => if b == a + 2 then None else CodeTry(t, s, a, b - 1)
  }

  // ---------------------------------------------------------------------
  // Block openers:
  // (?(R)\((?:[^\(\)]|(?R))*\)|(?<!\w)(\s*)@(if|elseif|foreach|for|while)(\s*(?R)+))
  // At the top level the condition (?(R)...) is false, so the second branch
  // matches; every (?R) re-enters the pattern with the condition true, i.e.
  // matches one balanced group.

  const OpeningKeywords: seq<Word> := ["if", "elseif", "foreach", "for", "while"]

  function OpeningAt(t: string, s: nat): (r: Option<Hit>)
    requires s <= |t|
    ensures r.Some? ==> HitOf(t, s, r.value) && |r.value.groups| == 4 && OccursFrom(t, s, "@")
    ensures r.Some? ==> 0 < r.value.end <= |t| && t[r.value.end - 1] == ')'
  {
    if !NotAfterWord(t, s) then None
    else
      var a := WsEnd(t, s);
      if !(a < |t| && t[a] == '@') then None
      else
        AtSign(t, a);
        var r := OpeningAlt(t, s, a, OpeningKeywords, 0);
        assert r.Some? ==> HitOf(t, s, r.value) && t[r.value.end - 1] == ')';
        r
  }

  /** Tries keyword `k` of the alternation, then the later ones. After a
      keyword, the greedy `\s*` is followed by `(`, so only its longest run
      can succeed, and `(?R)+` takes every adjacent group; nothing follows it
      in the pattern, so taking fewer groups never helps. */
  function OpeningAlt(t: string, s: nat, a: nat, kws: seq<Word>, k: nat): (r: Option<Hit>)
    requires s <= a < |t| && k <= |kws|
    ensures r.Some? ==> OpenerHit(t, s, r.value)
    decreases |kws| - k
  {
    if k == |kws| then None
    else
      var h := KeywordHit(t, s, a, kws[k]);
      if h.Some? then h else OpeningAlt(t, s, a, kws, k + 1)
  }

  /** The opener match when `kw` is the alternative tried after the `@` at `a`. */
  function KeywordHit(t: string, s: nat, a: nat, kw: Word): (r: Option<Hit>)
    requires s <= a < |t|
    ensures r.Some? ==> OpenerHit(t, s, r.value)
  {
    var g := KeywordGroups(t, a, kw);
    if g.Some? then Some(OpeningHit(t, s, a, kw, g.value)) else None
  }

  /** A match of the block-opener pattern at `s`: four groups, ending with `)`. */
  predicate OpenerHit(t: string, s: nat, h: Hit) {
    HitOf(t, s, h) && |h.groups| == 4 && t[h.end - 1] == ')'
  }

  /** The opener match of `kw` whose groups end at `e`. */
  function OpeningHit(t: string, s: nat, a: nat, kw: Word, e: nat): (h: Hit)
    requires s <= a && a + 1 + |kw| < e <= |t| && t[e - 1] == ')'
    ensures OpenerHit(t, s, h)
  {
    Hit(s, e, [t[s..e], t[s..a], kw, t[a + 1 + |kw|..e]])
  }

  /** Where `(?R)+` ends when `kw` follows the `@` at `a`, after the
      whitespace `\s*` takes. */
  function KeywordGroups(t: string, a: nat, kw: Word): (g: Option<nat>)
    requires a < |t|
    ensures g.Some? ==> a + 1 + |kw| < g.value <= |t| && t[g.value - 1] == ')'
  {
    if StartsAt(t, a + 1, kw) then GroupsEnd(t, WsEnd(t, a + 1 + |kw|)) else None
  }

  // ---------------------------------------------------------------------
  // createClosingMatcher(alts): (\s*)@(alt1|alt2|...)(\s*)
  // No lookbehind. The trailing (\s*) always succeeds, so the first
  // alternative that occurs after `@` is the one taken.

  function ClosingAt(t: string, s: nat, alts: seq<Word>): (r: Option<Hit>)
    requires s <= |t|
    ensures r.Some? ==> HitOf(t, s, r.value) && |r.value.groups| == 4 && OccursFrom(t, s, "@")
    ensures r.Some? ==> r.value.groups[2] in alts
  {
    var a := WsEnd(t, s);
    if !(a < |t| && t[a] == '@') then None
    else
      AtSign(t, a);
      match FirstAlt(t, a + 1, alts)
      case None => None
      case Some(k) =>
        var kw := alts[k];
        var e := WsEnd(t, a + 1 + |kw|);
        Some(Hit(s, e, [t[s..e], t[s..a], kw, t[a + 1 + |kw|..e]]))
  }

  /** The closer match at `s` once its parts are known: the whitespace ends
      at the `@` at `a`, alternative `i` follows and its whitespace ends at `e`. */
  lemma ClosingAtIs(t: string, s: nat, alts: seq<Word>, a: nat, i: nat, e: nat)
    requires s <= a < |t| && t[a] == '@' && WsEnd(t, s) == a
    requires i < |alts| && FirstAlt(t, a + 1, alts) == Some(i)
    requires a + 1 + |alts[i]| <= e <= |t| && WsEnd(t, a + 1 + |alts[i]|) == e
    ensures ClosingAt(t, s, alts) == Some(Hit(s, e, [t[s..e], t[s..a], alts[i], t[a + 1 + |alts[i]|..e]]))
  {
  }

  // ---------------------------------------------------------------------
  // createPlainMatcher(word): (?<!\w)(\s*)@word(\s*)

  function PlainAt(t: string, s: nat, word: Word): (r: Option<Hit>)
    requires s <= |t|
    ensures r.Some? ==> HitOf(t, s, r.value) && |r.value.groups| == 3 && OccursFrom(t, s, "@")
    ensures r.Some? <==> NotAfterWord(t, s) && WsEnd(t, s) < |t| && t[WsEnd(t, s)] == '@'
                         && StartsAt(t, WsEnd(t, s) + 1, word)
    ensures r.Some? ==> var a := WsEnd(t, s);
                        r.value.end == WsEnd(t, a + 1 + |word|)
                        && r.value.groups == [t[s..r.value.end], t[s..a], t[a + 1 + |word|..r.value.end]]
  {
    if !NotAfterWord(t, s) then None
    else
      var a := WsEnd(t, s);
      if !(a < |t| && t[a] == '@' && StartsAt(t, a + 1, word)) then None
      else
        AtSign(t, a);
        var e := WsEnd(t, a + 1 + |word|);
        Some(Hit(s, e, [t[s..e], t[s..a], t[a + 1 + |word|..e]]))
  }

  // ---------------------------------------------------------------------
  // createOpenMatcher(word): (?<!\w)(\s*)@word\s*\(\s*(.*)\s*\)
  // No `s` flag: `.` stops at a line feed. The `\s*` before `(` can only
  // succeed at its longest run. The `\s*` after `(` is tried longest first;
  // for each length the greedy `(.*)` is tried from the end of the line
  // backwards until whitespace and `)` follow it.

  function OpenAt(t: string, s: nat, word: Word): (r: Option<Hit>)
    requires s <= |t|
    ensures r.Some? ==> HitOf(t, s, r.value) && |r.value.groups| == 3 && OccursFrom(t, s, "@")
  {
    if !NotAfterWord(t, s) then None
    else
      var a := WsEnd(t, s);
      if !(a < |t| && t[a] == '@' && StartsAt(t, a + 1, word)) then None
      else
        AtSign(t, a);
        var p := WsEnd(t, a + 1 + |word|);
        if !(p < |t| && t[p] == '(') then None
        else OpenTry(t, s, a, p, WsEnd(t, p + 1) - (p + 1))
  }

  /** The `\s*` after `(` takes `j` characters; shorter runs are tried next. */
  function OpenTry(t: string, s: nat, a: nat, p: nat, j: nat): (r: Option<Hit>)
    requires s <= a < p && p + 1 + j <= |t|
    ensures r.Some? ==> HitOf(t, s, r.value) && |r.value.groups| == 3
    decreases j
  {
    var b := p + 1 + j;
    match GreedyArg(t, b, LineEnd(t, b))
    case Some(e) =>
      var w := WsEnd(t, e);
      Some(Hit(s, w + 1, [t[s..w + 1], t[s..a], t[b..e]]))
    case None => if j == 0 then None else OpenTry(t, s, a, p, j - 1)
  }

  /** The greedy `(.*)` from `b` tried with end `e`, then shorter: the longest
      argument after which whitespace and `)` follow. */
  function GreedyArg(t: string, b: nat, e: nat): (r: Option<nat>)
    requires b <= e <= |t|
    ensures r.Some? ==> b <= r.value <= e && WsEnd(t, r.value) < |t| && t[WsEnd(t, r.value)] == ')'
    ensures r.Some? ==> forall e' :: r.value < e' <= e ==> !(WsEnd(t, e') < |t| && t[WsEnd(t, e')] == ')')
    ensures r.None? ==> forall e' :: b <= e' <= e ==> !(WsEnd(t, e') < |t| && t[WsEnd(t, e')] == ')')
    decreases e - b
  {
    var w := WsEnd(t, e);
    if w < |t| && t[w] == ')' then Some(e)
    else if e == b then None
    else GreedyArg(t, b, e - 1)
  }

  // ---------------------------------------------------------------------
  // WordPress partials:
  // (?<!\w)(\s*)get_(header|footer|sidebar)\s*\(\s*((?:"|')\w*(?:"|'))?\s*\)
  // No keyword is a prefix of another, so at most one alternative occurs and
  // backtracking into the alternation cannot help. The `\s*` before `(` and
  // the `\w*` before the closing quote are followed by characters outside
  // their class, so only their longest runs can succeed. The optional quoted
  // group is tried first; without it the next `\s*` and `)` must follow the
  // whitespace after `(`. Shorter runs of the `\s*` after `(` leave a
  // whitespace character where the quote or `)` would have to be, so they
  // can only reproduce the match without the group.

  const PartialKinds: seq<Word> := ["header", "footer", "sidebar"]

  predicate IsQuote(c: char) {
    c == '"' || c == '\''
  }

  /** End of `(?:"|')\w*(?:"|')` at `c`, if it occurs there. */
  function QuotedEnd(t: string, c: nat): (r: Option<nat>)
    requires c <= |t|
    ensures r.Some? ==> c + 2 <= r.value <= |t| && IsQuote(t[c]) && IsQuote(t[r.value - 1])
    ensures r.Some? ==> forall k :: c < k < r.value - 1 ==> IsWord(t[k])
  {
    if c < |t| && IsQuote(t[c]) then
      var w := WordEnd(t, c + 1);
      if w < |t| && IsQuote(t[w]) then Some(w + 1) else None
    else None
  }

  function PartialAt(t: string, s: nat): (r: Option<Hit>)
    requires s <= |t|
    ensures r.Some? ==> HitOf(t, s, r.value) && |r.value.groups| == 4 && OccursFrom(t, s, "get_")
    ensures r.Some? ==> r.value.groups[2] in PartialKinds
  {
    if !NotAfterWord(t, s) then None
    else
      var a := WsEnd(t, s);
      if !StartsAt(t, a, "get_") then None
      else
        OccursAt(t, a, "get_");
        match FirstAlt(t, a + 4, PartialKinds)
        case None => None
        case Some(k) => PartialArgs(t, s, a, PartialKinds[k])
  }

  /** The rest of a partial call, after `get_kw`: the parentheses and the
      optional quoted slug between them. */
  function PartialArgs(t: string, s: nat, a: nat, kw: Word): (r: Option<Hit>)
    requires s <= a && a + 4 + |kw| <= |t|
    ensures r.Some? ==> HitOf(t, s, r.value) && |r.value.groups| == 4 && r.value.groups[2] == kw
  {
    var p := WsEnd(t, a + 4 + |kw|);
    if !(p < |t| && t[p] == '(') then None
    else
      var c := WsEnd(t, p + 1);
      var q := QuotedEnd(t, c);
      if q.Some? && WsEnd(t, q.value) < |t| && t[WsEnd(t, q.value)] == ')' then
        var e := WsEnd(t, q.value) + 1;
        Some(Hit(s, e, [t[s..e], t[s..a], kw, t[c..q.value]]))
      else if c < |t| && t[c] == ')' then
        Some(Hit(s, c + 1, [t[s..c + 1], t[s..a], kw, ""]))
      else None
  }

  // ---------------------------------------------------------------------
  // The search patterns compilePartials builds for each partial call found:
  // (<\?php\s*)?LIT\;?(\s*\?>)?  where LIT is the call's text, quoted.
  // The optional opening tag is tried first, its `\s*` longest first; then
  // the pattern without it. The optional `;` and closing tag are taken when
  // present; the pattern ends after them, so nothing forces a retry.

  function CallAt(t: string, s: nat, lit: Word): (r: Option<Hit>)
    requires s <= |t|
    ensures r.Some? ==> HitOf(t, s, r.value) && |r.value.groups| == 1 && OccursFrom(t, s, lit)
  {
    var tagged := if StartsAt(t, s, "<?php") then CallTagTry(t, s, lit, WsEnd(t, s + 5) - (s + 5)) else None;
    if tagged.Some? then tagged
    else if StartsAt(t, s, lit) then
      OccursAt(t, s, lit);
      Some(CallTail(t, s, s + |lit|))
    else None
  }

  /** The `\s*` after `<?php` takes `j` characters; shorter runs are tried next. */
  function CallTagTry(t: string, s: nat, lit: Word, j: nat): (r: Option<Hit>)
    requires s + 5 + j <= |t|
    ensures r.Some? ==> HitOf(t, s, r.value) && |r.value.groups| == 1 && OccursFrom(t, s, lit)
    decreases j
  {
    var i := s + 5 + j;
    if StartsAt(t, i, lit) then
      OccursAt(t, i, lit);
      Some(CallTail(t, s, i + |lit|))
    else if j == 0 then None
    else CallTagTry(t, s, lit, j - 1)
  }

  /** The optional `;` and `\s*?>` after the call text ending at `i`. */
  function CallTail(t: string, s: nat, i: nat): (h: Hit)
    requires s < i <= |t|
    ensures HitOf(t, s, h) && |h.groups| == 1 && i <= h.end
  {
    var k := if i < |t| && t[i] == ';' then i + 1 else i;
    var w := WsEnd(t, k);
    var e := if StartsAt(t, w, "?>") then w + 2 else k;
    Hit(s, e, [t[s..e]])
  }

  // ---------------------------------------------------------------------
  // Dispatch.

  /** The patterns of the compiler: the fixed ones, and the three matcher
      builders applied to their keywords. */
  datatype Pattern =
    | CommentTag
    | ArrayTag
    | EchoTag
    | CodeBlock
    | Opening
    | ClosingMatcher(alts: seq<Word>)
    | PlainMatcher(word: Word)
    | OpenMatcher(word: Word)
    | PartialCall
    | InsertedCall(lit: Word)

  /** A literal every match of the pattern contains. */
  function Marker(p: Pattern): Word {
    match p
    case CommentTag => "{{"
    case ArrayTag => "{{"
    case EchoTag => "{{"
    case CodeBlock => "``"
    case Opening => "@"
    case ClosingMatcher(_) => "@"
    case PlainMatcher(_) => "@"
    case OpenMatcher(_) => "@"
    case PartialCall => "get_"
    case InsertedCall(lit) => lit
  }

  /** Does `p` match at `s`? Every match is non-empty and contains the
      pattern's marker at or after `s`; past the end of the text nothing matches. */
  function MatchAt(p: Pattern, t: string, s: nat): (r: Option<Hit>)
    ensures r.Some? ==> HitOf(t, s, r.value)
    ensures r.Some? ==> OccursFrom(t, s, Marker(p))
  {
    if s > |t| then None else MatchIn(p, t, s)
  }

  /** `MatchAt` at an index inside the text, one scanner per pattern. */
  function MatchIn(p: Pattern, t: string, s: nat): (r: Option<Hit>)
    requires s <= |t|
    ensures r.Some? ==> HitOf(t, s, r.value)
    ensures r.Some? ==> OccursFrom(t, s, Marker(p))
  {
    match p
    case CommentTag => TagIn(p, t, s)
    case ArrayTag => TagIn(p, t, s)
    case EchoTag => TagIn(p, t, s)
    case CodeBlock => CodeAt(t, s)
    case PartialCall => PartialAt(t, s)
    case InsertedCall(lit) => CallAt(t, s, lit)
    case _ => DirectiveIn(p, t, s)
  }

  /** The scanners of the `{{` tags. */
  function TagIn(p: Pattern, t: string, s: nat): (r: Option<Hit>)
    requires s <= |t| && (p.CommentTag? || p.ArrayTag? || p.EchoTag?)
    ensures Marker(p) == "{{"
    ensures r.Some? ==> HitOf(t, s, r.value) && OccursFrom(t, s, "{{")
  {
    var r := match p
      case CommentTag => CommentAt(t, s)
      case ArrayTag => ArrayAt(t, s)
      case EchoTag => EchoAt(t, s);
    if r.Some? then
      assert StartsAt(t, s, "{{") by {
        if p.CommentTag? {
          assert t[s..s + 2] == t[s..s + 4][..2];
        }
      }
      OccursAt(t, s, "{{");
      r
    else r
  }

  /** The scanners of the `@` directives. */
  function DirectiveIn(p: Pattern, t: string, s: nat): (r: Option<Hit>)
    requires s <= |t| && (p.Opening? || p.ClosingMatcher? || p.PlainMatcher? || p.OpenMatcher?)
    ensures Marker(p) == "@"
    ensures r.Some? ==> HitOf(t, s, r.value) && OccursFrom(t, s, "@")
  {
    match p
    case Opening => OpeningAt(t, s)
    case ClosingMatcher(alts) => ClosingAt(t, s, alts)
    case PlainMatcher(word) => PlainAt(t, s, word)
    case OpenMatcher(word) => OpenAt(t, s, word)
  }

  /** The `{{` tags are scanned by their own scanners. */
  lemma TagMatch(t: string, s: nat)
    requires s <= |t|
    ensures MatchAt(CommentTag, t, s) == CommentAt(t, s)
    ensures MatchAt(ArrayTag, t, s) == ArrayAt(t, s)
    ensures MatchAt(EchoTag, t, s) == EchoAt(t, s)
  {
    assert TagIn(CommentTag, t, s) == CommentAt(t, s);
    assert TagIn(ArrayTag, t, s) == ArrayAt(t, s);
    assert TagIn(EchoTag, t, s) == EchoAt(t, s);
  }

  /** The `@` directives are scanned by their own scanners. */
  lemma DirectiveMatch(p: Pattern, t: string, s: nat)
    requires s <= |t| && (p.Opening? || p.ClosingMatcher? || p.PlainMatcher? || p.OpenMatcher?)
    ensures MatchAt(p, t, s) == DirectiveIn(p, t, s)
  {
  }

  /** A scanner as a value: the question "does it match at `s`?" for any text. */
  type Matcher = (string, nat) -> Option<Hit>

  /** Every answer of the scanner is a non-empty match at the index asked about. */
  ghost predicate Sound(at: Matcher, t: string) {
    forall s: nat :: at(t, s).Some? ==> HitOf(t, s, at(t, s).value)
  }

  /** The scanner of pattern `p`. */
  function Scanner(p: Pattern): (at: Matcher)
    ensures forall t: string, s: nat :: at(t, s) == MatchAt(p, t, s)
  {
    (t: string, s: nat) => MatchAt(p, t, s)
  }

  /** The scanner of every pattern is sound, and finds nothing after the
      last occurrence of the pattern's marker. */
  lemma ScannerSound(p: Pattern, t: string)
    ensures Sound(Scanner(p), t)
    ensures forall s: nat :: !OccursFrom(t, s, Marker(p)) ==> Scanner(p)(t, s).None?
  {
  }
}
