/**
  PHP's `preg_match_all` and `preg_replace` over one of the compiler's
  patterns: the subject is scanned from the left, each match is the leftmost
  one starting at or after the end of the previous match, and matches never
  overlap. Every pattern of the compiler consumes at least one character, so
  PCRE's special handling of empty matches never comes into play.
 */
module Preg {
  import opened Text
  import opened Patterns

  /** The leftmost match of the scanner starting at or after `from`. */
  function FindFrom(at: Matcher, t: string, from: nat): (r: Option<Hit>)
    requires from <= |t| && Sound(at, t)
    ensures r.Some? ==> from <= r.value.start <= |t| && at(t, r.value.start) == r
    ensures r.Some? ==> forall s: nat :: from <= s < r.value.start ==> at(t, s).None?
    ensures r.None? <==> forall s: nat :: from <= s <= |t| ==> at(t, s).None?
    decreases |t| - from
  {
    match at(t, from)
    case Some(h) => Some(h)
    case None => if from == |t| then None else FindFrom(at, t, from + 1)
  }

  /** The hits lie inside `t`, from index `from` on, in order and without overlap. */
  predicate Ordered(t: string, from: nat, hits: seq<Hit>)
    decreases |hits|
  {
    |hits| == 0 || (from <= hits[0].start <= hits[0].end <= |t| && Ordered(t, hits[0].end, hits[1..]))
  }

  /** `preg_match_all` from index `from`: every successive leftmost match. */
  function MatchAllFrom(at: Matcher, t: string, from: nat): (hits: seq<Hit>)
    requires from <= |t| && Sound(at, t)
    ensures forall k :: 0 <= k < |hits| ==> at(t, hits[k].start) == Some(hits[k])
    ensures forall k :: 0 <= k < |hits| ==> HitOf(t, hits[k].start, hits[k])
    ensures Ordered(t, from, hits)
    ensures |hits| == 0 <==> forall s: nat :: from <= s <= |t| ==> at(t, s).None?
    decreases |t| - from
  {
    match FindFrom(at, t, from)
    case None => []
    case Some(h) =>
      var rest := MatchAllFrom(at, t, h.end);
      assert forall k :: 1 <= k < |rest| + 1 ==> ([h] + rest)[k] == rest[k - 1];
      [h] + rest
  }

  /** `preg_match_all($pattern, $t, $matches)`: the matches in document order. */
  function MatchAll(at: Matcher, t: string): (hits: seq<Hit>)
    requires Sound(at, t)
    ensures forall k :: 0 <= k < |hits| ==> at(t, hits[k].start) == Some(hits[k])
    ensures forall k :: 0 <= k < |hits| ==> HitOf(t, hits[k].start, hits[k])
    ensures Ordered(t, 0, hits)
    ensures |hits| == 0 <==> forall s: nat :: s <= |t| ==> at(t, s).None?
  {
    MatchAllFrom(at, t, 0)
  }

  /** One piece of a `preg_replace` replacement string: literal text or a
      `$n` reference to capture group `n`. */
  datatype Piece = Lit(text: string) | Ref(n: nat)

  /** The replacement string with its group references filled in from `h`;
      a reference to a group that did not take part gives "". */
  function Expand(tmpl: seq<Piece>, h: Hit): string
    decreases |tmpl|
  {
    if |tmpl| == 0 then ""
    else
      (match tmpl[0] case Lit(x) => x case Ref(n) => Group(h, n)) + Expand(tmpl[1..], h)
  }

  /** `preg_replace` from index `from`: the text before each match is kept,
      each match is replaced by the expanded replacement string. */
  function ReplaceFrom(at: Matcher, t: string, from: nat, tmpl: seq<Piece>): string
    requires from <= |t| && Sound(at, t)
    decreases |t| - from
  {
    match FindFrom(at, t, from)
    case None => t[from..]
    case Some(h) => t[from..h.start] + Expand(tmpl, h) + ReplaceFrom(at, t, h.end, tmpl)
  }

  /** `preg_replace($pattern, $tmpl, $t)` with a single pattern. */
  function PregReplace(at: Matcher, t: string, tmpl: seq<Piece>): string
    requires Sound(at, t)
  {
    ReplaceFrom(at, t, 0, tmpl)
  }

  /** `t` from `from` on with each hit's text replaced by the corresponding
      replacement: the hits must be ordered, non-overlapping and inside `t`. */
  function Splice(t: string, from: nat, hits: seq<Hit>, reps: seq<string>): string
    requires from <= |t| && |reps| == |hits| && Ordered(t, from, hits)
    decreases |hits|
  {
    if |hits| == 0 then t[from..]
    else t[from..hits[0].start] + reps[0] + Splice(t, hits[0].end, hits[1..], reps[1..])
  }

  /** The replacement strings of a list of hits. */
  function ExpandAll(tmpl: seq<Piece>, hits: seq<Hit>): (reps: seq<string>)
    ensures |reps| == |hits|
    ensures forall k :: 0 <= k < |hits| ==> reps[k] == Expand(tmpl, hits[k])
  {
    seq(|hits|, k requires 0 <= k < |hits| => Expand(tmpl, hits[k]))
  }

  /** `preg_replace` is `preg_match_all` followed by replacing each match, in
      place, by its own expansion: unlike `str_replace`, two matches with the
      same text can receive different replacements. */
  lemma {:induction false} ReplaceIsSplice(at: Matcher, t: string, from: nat, tmpl: seq<Piece>)
    requires from <= |t| && Sound(at, t)
    ensures var hits := MatchAllFrom(at, t, from);
            ReplaceFrom(at, t, from, tmpl) == Splice(t, from, hits, ExpandAll(tmpl, hits))
    decreases |t| - from
  {
    var hits := MatchAllFrom(at, t, from);
    match FindFrom(at, t, from)
    case None =>
    case Some(h) =>
      ReplaceIsSplice(at, t, h.end, tmpl);
      assert hits[1..] == MatchAllFrom(at, t, h.end);
      assert ExpandAll(tmpl, hits)[1..] == ExpandAll(tmpl, hits[1..]);
  }

  /** Where the scanner finds nothing, `preg_replace` leaves the text alone. */
  lemma NoMatchUnchanged(at: Matcher, t: string, tmpl: seq<Piece>)
    requires Sound(at, t)
    requires forall s: nat :: s <= |t| ==> at(t, s).None?
    ensures PregReplace(at, t, tmpl) == t
    ensures MatchAll(at, t) == []
  {
    assert FindFrom(at, t, 0).None?;
  }

  /** A match covering the whole of `t` is replaced by its expansion alone. */
  lemma WholeMatchReplaced(at: Matcher, t: string, tmpl: seq<Piece>, h: Hit)
    requires Sound(at, t)
    requires at(t, 0) == Some(h) && h.end == |t|
    ensures PregReplace(at, t, tmpl) == Expand(tmpl, h)
    ensures MatchAll(at, t) == [h]
  {
    assert FindFrom(at, t, 0) == Some(h);
    assert FindFrom(at, t, |t|).None? by {
      assert HitOf(t, |t|, h) ==> false;
    }
    assert ReplaceFrom(at, t, |t|, tmpl) == [];
    assert t[0..0] == [];
    assert PregReplace(at, t, tmpl) == [] + Expand(tmpl, h) + [];
  }

  /** A match at the start of `t` with no match after it: it is replaced by
      its expansion and the rest of the text is kept. */
  lemma LeadingMatchReplaced(at: Matcher, t: string, tmpl: seq<Piece>, h: Hit)
    requires Sound(at, t)
    requires at(t, 0) == Some(h)
    requires forall s: nat :: h.end <= s <= |t| ==> at(t, s).None?
    ensures PregReplace(at, t, tmpl) == Expand(tmpl, h) + t[h.end..]
    ensures MatchAll(at, t) == [h]
  {
    assert HitOf(t, 0, h);
    assert FindFrom(at, t, 0) == Some(h);
    assert FindFrom(at, t, h.end).None?;
    assert ReplaceFrom(at, t, h.end, tmpl) == t[h.end..];
    assert MatchAllFrom(at, t, h.end) == [];
    assert t[0..0] == [];
    assert PregReplace(at, t, tmpl) == [] + Expand(tmpl, h) + t[h.end..];
  }

  /** A match with nothing before it from `from` on is the next one
      `preg_match_all` collects, and the scan resumes at its end. */
  lemma NextMatch(at: Matcher, t: string, from: nat, h: Hit)
    requires from <= h.start <= |t| && Sound(at, t)
    requires at(t, h.start) == Some(h)
    requires forall s: nat :: from <= s < h.start ==> at(t, s).None?
    ensures FindFrom(at, t, from) == Some(h)
    ensures MatchAllFrom(at, t, from) == [h] + MatchAllFrom(at, t, h.end)
  {
    var r := FindFrom(at, t, from);
    assert r.Some?;
    assert r.value.start == h.start;
  }

  /** Nothing matches at the end of the text: every match is non-empty. */
  lemma NoMatchAtEnd(at: Matcher, t: string)
    requires Sound(at, t)
    ensures MatchAllFrom(at, t, |t|) == []
  {
  }

  /** Where the pattern's marker does not occur, its scanner finds nothing. */
  lemma MarkerAbsentNoMatch(p: Pattern, t: string)
    ensures Sound(Scanner(p), t)
    ensures !OccursFrom(t, 0, Marker(p)) ==> forall s: nat :: s <= |t| ==> Scanner(p)(t, s).None?
  {
    ScannerSound(p, t);
    if !OccursFrom(t, 0, Marker(p)) {
      forall s: nat | s <= |t|
        ensures !OccursFrom(t, s, Marker(p))
      {
      }
    }
  }

  /** Without its marker a pattern finds nothing. */
  lemma NoMatches(p: Pattern, t: string)
    requires !OccursFrom(t, 0, Marker(p))
    ensures Matches(p, t) == []
  {
  }

  /** `preg_match_all` with one of the compiler's patterns. */
  function Matches(p: Pattern, t: string): (hits: seq<Hit>)
    ensures forall k :: 0 <= k < |hits| ==> MatchAt(p, t, hits[k].start) == Some(hits[k])
    ensures forall k :: 0 <= k < |hits| ==> HitOf(t, hits[k].start, hits[k])
    ensures Ordered(t, 0, hits)
    ensures !OccursFrom(t, 0, Marker(p)) ==> hits == []
  {
    MarkerAbsentNoMatch(p, t);
    MatchAll(Scanner(p), t)
  }

  /** `preg_replace` with one of the compiler's patterns. */
  function Replace(p: Pattern, t: string, tmpl: seq<Piece>): (r: string)
    ensures !OccursFrom(t, 0, Marker(p)) ==> r == t
  {
    MarkerAbsentNoMatch(p, t);
    if !OccursFrom(t, 0, Marker(p)) then
      NoMatchUnchanged(Scanner(p), t, tmpl);
      PregReplace(Scanner(p), t, tmpl)
    else PregReplace(Scanner(p), t, tmpl)
  }

  /** A match with no match before it and no marker after it is the only
      match of the pattern. */
  lemma SoleMatch(p: Pattern, t: string, h: Hit)
    requires MatchAt(p, t, h.start) == Some(h)
    requires forall s: nat :: s < h.start ==> MatchAt(p, t, s).None?
    requires !OccursFrom(t, h.end, Marker(p))
    ensures Matches(p, t) == [h]
  {
    ScannerSound(p, t);
    assert HitOf(t, h.start, h);
    NextMatch(Scanner(p), t, 0, h);
    assert forall s: nat :: h.end <= s <= |t| ==> !OccursFrom(t, s, Marker(p));
  }

  /** A match running to the end of the text with no match before it: the
      text before it is kept and the match is replaced by its expansion. */
  lemma TrailingMatchReplaced(p: Pattern, t: string, tmpl: seq<Piece>, h: Hit)
    requires MatchAt(p, t, h.start) == Some(h) && h.end == |t|
    requires forall s: nat :: s < h.start ==> MatchAt(p, t, s).None?
    ensures Replace(p, t, tmpl) == t[..h.start] + Expand(tmpl, h)
  {
    ScannerSound(p, t);
    assert HitOf(t, h.start, h);
    NextMatch(Scanner(p), t, 0, h);
    assert FindFrom(Scanner(p), t, |t|).None? by {
      assert HitOf(t, |t|, h) ==> false;
    }
    var at := Scanner(p);
    assert Replace(p, t, tmpl) == PregReplace(at, t, tmpl);
    assert ReplaceFrom(at, t, |t|, tmpl) == [];
    assert PregReplace(at, t, tmpl) == t[0..h.start] + Expand(tmpl, h) + [];
  }

  /** One pair of the arrays given to `preg_replace`: a pattern and its
      replacement, taken literally. */
  datatype Rule = Rule(pat: Pattern, rep: string)

  /** `preg_replace` with arrays of patterns and replacements: each pair in
      turn, over the result of the previous ones. */
  function ReplaceEach(t: string, rules: seq<Rule>): (r: string)
    ensures (forall k :: 0 <= k < |rules| ==> !OccursFrom(t, 0, Marker(rules[k].pat))) ==> r == t
    decreases |rules|
  {
    if |rules| == 0 then t
    else ReplaceEach(Replace(rules[0].pat, t, [Lit(rules[0].rep)]), rules[1..])
  }
}
