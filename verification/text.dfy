/**
  Characters and positions in a template's text.

  A template is a `string` (`seq<char>`), one character per byte: none of the
  compiler's patterns uses the UTF-8 flag, so the regular-expression engine sees
  bytes. The character classes are those of the PCRE library that PHP's
  `preg_*` functions use, outside UTF mode.
 */
module Text {

  datatype Option<+T> = None | Some(value: T)

  /** A non-empty string: every literal a pattern searches for is one. */
  type Word = w: string | |w| > 0 witness "@"

  /** PCRE's `\s`: space, tab, line feed, vertical tab, form feed, carriage return. */
  predicate IsSpace(c: char) {
    c == ' ' || c == '\t' || c == '\n' || c == '\U{0B}' || c == '\U{0C}' || c == '\r'
  }

  /** PCRE's `\w`: ASCII letters, digits and underscore. */
  predicate IsWord(c: char) {
    ('a' <= c <= 'z') || ('A' <= c <= 'Z') || ('0' <= c <= '9') || c == '_'
  }

  /** `w` occurs in `t` starting at index `i`. */
  predicate StartsAt(t: string, i: nat, w: string) {
    i + |w| <= |t| && t[i..i + |w|] == w
  }

  /** `w` occurs somewhere in `t` at or after index `from`. */
  predicate OccursFrom(t: string, from: nat, w: string) {
    exists i: nat :: from <= i <= |t| && StartsAt(t, i, w)
  }

  /** Every character of `s` is whitespace. */
  predicate AllSpace(s: string) {
    forall k :: 0 <= k < |s| ==> IsSpace(s[k])
  }

  /** The regular-expression lookbehind `(?<!\w)` at index `s`: no word character
      immediately before it. It reads the whole subject, including text that an
      earlier match of the same pass consumed. */
  predicate NotAfterWord(t: string, s: nat)
    requires s <= |t|
  {
    s == 0 || !IsWord(t[s - 1])
  }

  /** End of the maximal whitespace run starting at `i`: what a greedy `\s*` consumes. */
  function WsEnd(t: string, i: nat): (j: nat)
    requires i <= |t|
    ensures i <= j <= |t|
    ensures forall k :: i <= k < j ==> IsSpace(t[k])
    ensures j == |t| || !IsSpace(t[j])
    decreases |t| - i
  {
    if i < |t| && IsSpace(t[i]) then WsEnd(t, i + 1) else i
  }

  /** End of the maximal word-character run starting at `i`: a greedy `\w*`. */
  function WordEnd(t: string, i: nat): (j: nat)
    requires i <= |t|
    ensures i <= j <= |t|
    ensures forall k :: i <= k < j ==> IsWord(t[k])
    ensures j == |t| || !IsWord(t[j])
    decreases |t| - i
  {
    if i < |t| && IsWord(t[i]) then WordEnd(t, i + 1) else i
  }

  /** End of the line starting at `i`: how far a greedy `.*` without the `s`
      flag reaches, since `.` then matches anything except a line feed. */
  function LineEnd(t: string, i: nat): (j: nat)
    requires i <= |t|
    ensures i <= j <= |t|
    ensures forall k :: i <= k < j ==> t[k] != '\n'
    ensures j == |t| || t[j] == '\n'
    decreases |t| - i
  {
    if i < |t| && t[i] != '\n' then LineEnd(t, i + 1) else i
  }

  /** The first occurrence of `w` at or after index `i`: where a lazy
      quantifier followed by the literal `w` stops. */
  function FindFirst(t: string, i: nat, w: Word): (r: Option<nat>)
    requires i <= |t|
    ensures r.Some? ==> i <= r.value && StartsAt(t, r.value, w)
    ensures r.Some? ==> forall k: nat :: i <= k < r.value ==> !StartsAt(t, k, w)
    ensures r.None? <==> !OccursFrom(t, i, w)
    decreases |t| - i
  {
    if StartsAt(t, i, w) then Some(i)
    else if i == |t| then None
    else FindFirst(t, i + 1, w)
  }

  /** The first alternative of `alts`, from index `k` on, that occurs at `i`:
      how an alternation `(a|b|c)` chooses when what follows it cannot fail. */
  function FirstAlt(t: string, i: nat, alts: seq<Word>, k: nat := 0): (r: Option<nat>)
    requires k <= |alts|
    ensures r.Some? ==> k <= r.value < |alts| && StartsAt(t, i, alts[r.value])
    ensures r.Some? ==> forall k' :: k <= k' < r.value ==> !StartsAt(t, i, alts[k'])
    ensures r.None? <==> forall k' :: k <= k' < |alts| ==> !StartsAt(t, i, alts[k'])
    decreases |alts| - k
  {
    if k == |alts| then None
    else if StartsAt(t, i, alts[k]) then Some(k)
    else FirstAlt(t, i, alts, k + 1)
  }

  /** The alternation takes alternative `j` when it occurs and none before it does. */
  lemma FirstAltIs(t: string, i: nat, alts: seq<Word>, j: nat)
    requires j < |alts| && StartsAt(t, i, alts[j])
    requires forall k :: 0 <= k < j ==> !StartsAt(t, i, alts[k])
    ensures FirstAlt(t, i, alts) == Some(j)
  {
  }

  /** An occurrence of a word inside a string starts with the word's first character. */
  lemma StartsAtFirstChar(t: string, i: nat, w: Word)
    requires StartsAt(t, i, w)
    ensures i < |t| && t[i] == w[0]
  {
    assert t[i..i + |w|][0] == w[0];
  }

  /** Dropping the first character shifts every occurrence one place left. */
  lemma StartsAtTail(t: string, i: nat, w: string)
    requires |t| > 0
    ensures StartsAt(t[1..], i, w) <==> StartsAt(t, i + 1, w)
  {
    if i + 1 + |w| <= |t| {
      assert t[1..][i..i + |w|] == t[i + 1..i + 1 + |w|];
    }
  }
}
