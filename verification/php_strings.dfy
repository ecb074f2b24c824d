/**
  The PHP string functions the compiler relies on, with PHP's own edge cases:
  `str_replace` (one pair, and arrays of pairs applied in turn), `trim`,
  `explode`/`implode`, `basename`, string truthiness, and the character-class
  deletions the compiler performs with `preg_replace(..., "", ...)`.
 */
module PhpStrings {
  import opened Text

  /** PHP's truthiness of a string: "" and "0" are false, everything else true. */
  predicate Truthy(s: string) {
    s != "" && s != "0"
  }

  /** The characters `trim()` strips by default: space, tab, line feed, carriage
      return, NUL and vertical tab. Form feed is not among them. */
  predicate IsTrimChar(c: char) {
    c == ' ' || c == '\t' || c == '\n' || c == '\r' || c == '\0' || c == '\U{0B}'
  }

  predicate AllTrimChars(s: string) {
    forall k :: 0 <= k < |s| ==> IsTrimChar(s[k])
  }

  function TrimStart(s: string, i: nat): (j: nat)
    requires i <= |s|
    ensures i <= j <= |s|
    ensures forall k :: i <= k < j ==> IsTrimChar(s[k])
    ensures j == |s| || !IsTrimChar(s[j])
    decreases |s| - i
  {
    if i < |s| && IsTrimChar(s[i]) then TrimStart(s, i + 1) else i
  }

  function TrimStop(s: string, lo: nat, j: nat): (k: nat)
    requires lo <= j <= |s|
    ensures lo <= k <= j
    ensures forall m :: k <= m < j ==> IsTrimChar(s[m])
    ensures k == lo || !IsTrimChar(s[k - 1])
    decreases j - lo
  {
    if lo < j && IsTrimChar(s[j - 1]) then TrimStop(s, lo, j - 1) else j
  }

  /** PHP's `trim($s)`: `s` without its leading and trailing trim characters. */
  function Trim(s: string): (r: string)
    ensures r == "" || (!IsTrimChar(r[0]) && !IsTrimChar(r[|r| - 1]))
    ensures exists i, j :: 0 <= i <= j <= |s| && r == s[i..j]
                           && AllTrimChars(s[..i]) && AllTrimChars(s[j..])
  {
    var i := TrimStart(s, 0);
    var j := TrimStop(s, i, |s|);
    assert AllTrimChars(s[..i]) && AllTrimChars(s[j..]);
    s[i..j]
  }

  /** PHP's `str_replace($needle, $rep, $t)` for one search string: every
      non-overlapping occurrence of `needle`, found scanning left to right,
      is replaced by `rep`; replaced text is never rescanned. */
  function ReplaceAll(t: string, needle: Word, rep: string): string
    decreases |t|
  {
    if |t| < |needle| then t
    else if t[..|needle|] == needle then rep + ReplaceAll(t[|needle|..], needle, rep)
    else [t[0]] + ReplaceAll(t[1..], needle, rep)
  }

  /** A string in which `needle` does not occur comes back unchanged. */
  lemma {:induction false} ReplaceAllAbsent(t: string, needle: Word, rep: string)
    requires !OccursFrom(t, 0, needle)
    ensures ReplaceAll(t, needle, rep) == t
    decreases |t|
  {
    if |t| >= |needle| {
      assert !StartsAt(t, 0, needle);
      assert t[..|needle|] != needle;
      if OccursFrom(t[1..], 0, needle) {
        var i: nat :| i <= |t[1..]| && StartsAt(t[1..], i, needle);
        StartsAtTail(t, i, needle);
        assert false;
      }
      ReplaceAllAbsent(t[1..], needle, rep);
      assert [t[0]] + t[1..] == t;
    }
  }

  /** The leftmost occurrence is the first one replaced: if `needle` first occurs
      in `a + needle + b` right after `a`, the result is `a`, then `rep`, then
      the replacement continued on `b` alone. */
  lemma {:induction false} ReplaceAllLeftmost(a: string, needle: Word, b: string, rep: string)
    requires forall i: nat :: i < |a| ==> !StartsAt(a + needle + b, i, needle)
    ensures ReplaceAll(a + needle + b, needle, rep) == a + rep + ReplaceAll(b, needle, rep)
    decreases |a|
  {
    var t := a + needle + b;
    if |a| == 0 {
      assert t == needle + b;
      assert t[..|needle|] == needle;
      assert t[|needle|..] == b;
    } else {
      assert !StartsAt(t, 0, needle);
      var u := a[1..] + needle + b;
      assert u == t[1..];
      forall i: nat | i < |a[1..]|
        ensures !StartsAt(u, i, needle)
      {
        assert !StartsAt(t, i + 1, needle);
        StartsAtTail(t, i, needle);
      }
      ReplaceAllLeftmost(a[1..], needle, b, rep);
      assert ReplaceAll(t, needle, rep) == [t[0]] + ReplaceAll(u, needle, rep);
      assert [a[0]] + a[1..] == a;
    }
  }

  /** Text in which no occurrence of `needle` starts is copied as it is, and
      the replacement goes on after it. */
  lemma {:induction false} ReplaceAllSkip(a: string, b: string, needle: Word, rep: string)
    requires forall i: nat :: i < |a| ==> !StartsAt(a + b, i, needle)
    ensures ReplaceAll(a + b, needle, rep) == a + ReplaceAll(b, needle, rep)
    decreases |a|
  {
    var t := a + b;
    if |a| > 0 {
      assert !StartsAt(t, 0, needle);
      var u := a[1..] + b;
      assert u == t[1..];
      forall i: nat | i < |a[1..]|
        ensures !StartsAt(u, i, needle)
      {
        assert !StartsAt(t, i + 1, needle);
        StartsAtTail(t, i, needle);
      }
      ReplaceAllSkip(a[1..], b, needle, rep);
      if |t| >= |needle| {
        assert t[..|needle|] != needle;
      }
      assert ReplaceAll(t, needle, rep) == [t[0]] + ReplaceAll(u, needle, rep);
      assert [a[0]] + a[1..] == a;
    } else {
      assert t == b;
    }
  }

  /** Replacing a whole string by itself as the search string yields the replacement. */
  lemma ReplaceAllWhole(needle: Word, rep: string)
    ensures ReplaceAll(needle, needle, rep) == rep
  {
    ReplaceAllLeftmost("", needle, "", rep);
    assert "" + needle + "" == needle;
    assert "" + rep + "" == rep;
  }

  /** PHP's `str_replace($searches, $reps, $t)` with two arrays: each
      (search, replacement) pair in turn is applied as a replace-all to the
      CURRENT string, so later pairs see the output of earlier ones and
      identical search strings all receive the first pair's replacement. An
      empty search string is skipped; a missing replacement is "". */
  function StrReplace(t: string, searches: seq<string>, reps: seq<string>): string
    decreases |searches|
  {
    if |searches| == 0 then t
    else
      var rep := if 0 < |reps| then reps[0] else "";
      var next := if |searches[0]| == 0 then t else ReplaceAll(t, searches[0], rep);
      StrReplace(next, searches[1..], if 0 < |reps| then reps[1..] else [])
  }

  /** When no search string occurs, nothing is replaced. */
  lemma {:induction false} StrReplaceAbsent(t: string, searches: seq<string>, reps: seq<string>)
    requires forall k :: 0 <= k < |searches| ==> !OccursFrom(t, 0, searches[k])
    ensures StrReplace(t, searches, reps) == t
    decreases |searches|
  {
    if |searches| > 0 {
      if |searches[0]| > 0 {
        ReplaceAllAbsent(t, searches[0], if 0 < |reps| then reps[0] else "");
      }
      StrReplaceAbsent(t, searches[1..], if 0 < |reps| then reps[1..] else []);
    }
  }

  /** The pairs of `str_replace` are applied in turn: the last pair acts on the
      result of all earlier ones. */
  lemma {:induction false} StrReplaceInTurn(t: string, searches: seq<string>, reps: seq<string>, s: Word, rep: string)
    requires |reps| == |searches|
    ensures StrReplace(t, searches + [s], reps + [rep]) == ReplaceAll(StrReplace(t, searches, reps), s, rep)
    decreases |searches|
  {
    if |searches| == 0 {
      assert searches + [s] == [s];
      assert reps + [rep] == [rep];
      assert StrReplace(ReplaceAll(t, s, rep), [], []) == ReplaceAll(t, s, rep);
    } else {
      var next := if |searches[0]| == 0 then t else ReplaceAll(t, searches[0], reps[0]);
      assert (searches + [s])[1..] == searches[1..] + [s];
      assert (reps + [rep])[1..] == reps[1..] + [rep];
      StrReplaceInTurn(next, searches[1..], reps[1..], s, rep);
    }
  }

  /** A single pair whose search string is the whole subject yields the replacement. */
  lemma StrReplaceWhole(t: Word, rep: string)
    ensures StrReplace(t, [t], [rep]) == rep
  {
    ReplaceAllWhole(t, rep);
  }

  /** PHP's `explode($sep, $s)` for a one-character separator: the pieces
      between separators, in order. */
  function Explode(sep: char, s: string): (parts: seq<string>)
    ensures |parts| >= 1
    ensures forall k :: 0 <= k < |parts| ==> sep !in parts[k]
    decreases |s|
  {
    if |s| == 0 then [""]
    else
      var rest := Explode(sep, s[1..]);
      if s[0] == sep then [""] + rest
      else [[s[0]] + rest[0]] + rest[1..]
  }

  /** PHP's `implode($glue, $parts)`. */
  function Implode(glue: string, parts: seq<string>): (r: string)
    ensures |parts| == 1 ==> r == parts[0]
    decreases |parts|
  {
    if |parts| == 0 then ""
    else if |parts| == 1 then parts[0]
    else parts[0] + glue + Implode(glue, parts[1..])
  }

  /** Gluing the pieces back with the separator gives the original string. */
  lemma {:induction false} ImplodeExplode(sep: char, s: string)
    ensures Implode([sep], Explode(sep, s)) == s
    decreases |s|
  {
    if |s| > 0 {
      var rest := Explode(sep, s[1..]);
      ImplodeExplode(sep, s[1..]);
      if s[0] == sep {
        assert Explode(sep, s) == [""] + rest;
        assert ([""] + rest)[1..] == rest;
        assert Implode([sep], [""] + rest) == "" + [sep] + Implode([sep], rest);
        assert s == [s[0]] + s[1..];
      } else {
        var parts := [[s[0]] + rest[0]] + rest[1..];
        assert Explode(sep, s) == parts;
        if |rest| == 1 {
          assert parts == [[s[0]] + rest[0]];
          assert Implode([sep], rest) == rest[0];
          assert s == [s[0]] + s[1..];
        } else {
          assert parts[1..] == rest[1..];
          assert Implode([sep], rest) == rest[0] + [sep] + Implode([sep], rest[1..]);
          assert Implode([sep], parts) == [s[0]] + rest[0] + [sep] + Implode([sep], rest[1..]);
          assert s == [s[0]] + s[1..];
        }
      }
    }
  }

  /** A string without the separator explodes into itself alone. */
  lemma {:induction false} ExplodeNoSeparator(sep: char, s: string)
    requires sep !in s
    ensures Explode(sep, s) == [s]
    decreases |s|
  {
    if |s| > 0 {
      assert s[0] != sep;
      assert sep !in s[1..];
      ExplodeNoSeparator(sep, s[1..]);
      assert [s[0]] + s[1..] == s;
    }
  }

  /** `s` with every character not accepted by `keep` deleted, as a
      `preg_replace` of a character class by the empty string does. */
  function Filter(s: string, keep: char -> bool): (r: string)
    ensures |r| <= |s|
    ensures forall k :: 0 <= k < |r| ==> keep(r[k])
    ensures (forall k :: 0 <= k < |s| ==> keep(s[k])) ==> r == s
    decreases |s|
  {
    if |s| == 0 then ""
    else
      var rest := Filter(s[1..], keep);
      if keep(s[0]) then [s[0]] + rest else rest
  }

  // The deletion of the class of double quote, single quote and `\s` that
  // Includes and the partial lookup apply to an argument: quotes and whitespace go.
  function StripQuotesAndSpace(s: string): (r: string)
    ensures forall k :: 0 <= k < |r| ==> r[k] != '"' && r[k] != '\'' && !IsSpace(r[k])
  {
    Filter(s, c => c != '"' && c != '\'' && !IsSpace(c))
  }

  // The deletion of every character outside the class of letters, `-` and `_`
  // that the partial lookup applies to a slug.
  function SlugChars(s: string): (r: string)
    ensures forall k :: 0 <= k < |r| ==> r[k] != '0' && r[k] != '.' && r[k] != '/'
  {
    Filter(s, c => ('a' <= c <= 'z') || ('A' <= c <= 'Z') || c == '-' || c == '_')
  }

  /** Index just past the last character of `p` that is not a slash. */
  function StripSlashes(p: string, j: nat): (k: nat)
    requires j <= |p|
    ensures k <= j
    ensures forall m :: k <= m < j ==> p[m] == '/'
    ensures k == 0 || p[k - 1] != '/'
    decreases j
  {
    if j > 0 && p[j - 1] == '/' then StripSlashes(p, j - 1) else j
  }

  /** Index just past the last slash before `j`, or 0. */
  function ComponentStart(p: string, j: nat): (k: nat)
    requires j <= |p|
    ensures k <= j
    ensures forall m :: k <= m < j ==> p[m] != '/'
    ensures k == 0 || p[k - 1] == '/'
    decreases j
  {
    if j > 0 && p[j - 1] != '/' then ComponentStart(p, j - 1) else j
  }

  /** PHP's `basename($path)` on a POSIX system: the last path component,
      ignoring trailing slashes; "" when the path is empty or only slashes. */
  function Basename(path: string): (r: string)
    ensures '/' !in r
    ensures r == "" <==> forall m :: 0 <= m < |path| ==> path[m] == '/'
    ensures exists i, j :: 0 <= i <= j <= |path| && r == path[i..j]
                           && (i == 0 || path[i - 1] == '/')
                           && forall m :: j <= m < |path| ==> path[m] == '/'
  {
    var j := StripSlashes(path, |path|);
    var i := ComponentStart(path, j);
    assert forall m :: i <= m < j ==> path[i..j][m - i] == path[m];
    assert j > 0 ==> i < j;
    path[i..j]
  }
}
