/**
  Balanced parenthesised groups, the part of the block-opener pattern that a
  plain regular expression cannot express. The source writes it as the
  recursive PCRE group `\((?:[^\(\)]|(?R))*\)`; here it is a depth-counting
  scan, proved to find exactly the groups of the declarative definition.
 */
module Balanced {
  import opened Text

  /** Opening minus closing parentheses in `s`. */
  function Depth(s: string): int
    decreases |s|
  {
    if |s| == 0 then 0
    else Depth(s[..|s| - 1]) + (if s[|s| - 1] == '(' then 1 else if s[|s| - 1] == ')' then -1 else 0)
  }

  /** `g` is one balanced parenthesised group: it opens with `(`, its depth
      stays positive on every proper non-empty prefix and returns to zero at
      its end, so its last character is the `)` matching the first. This is
      the language of `\((?:[^()]|(?R))*\)`. */
  ghost predicate IsGroup(g: string) {
    && |g| >= 2
    && g[0] == '('
    && Depth(g) == 0
    && forall k :: 1 <= k < |g| ==> Depth(g[..k]) > 0
  }

  /** Depth of `t[i..j+1]` in terms of `t[i..j]`. */
  lemma DepthStep(t: string, i: nat, j: nat)
    requires i <= j < |t|
    ensures Depth(t[i..j + 1]) == Depth(t[i..j]) + (if t[j] == '(' then 1 else if t[j] == ')' then -1 else 0)
  {
    assert t[i..j + 1][..j - i] == t[i..j];
  }

  /** Continues the scan of a group opened at `i`: `k` is the next index to
      read and `depth` the number of parentheses still open. */
  function CloseFrom(t: string, i: nat, k: nat, depth: nat): (r: Option<nat>)
    requires i < k <= |t|
    requires depth > 0 && depth == Depth(t[i..k])
    requires forall j :: i < j <= k ==> Depth(t[i..j]) > 0
    ensures r.Some? ==> k < r.value <= |t| && Depth(t[i..r.value]) == 0
    ensures r.Some? ==> forall j :: i < j < r.value ==> Depth(t[i..j]) > 0
    ensures r.None? ==> forall j :: i < j <= |t| ==> Depth(t[i..j]) > 0
    decreases |t| - k
  {
    if k == |t| then None
    else
      DepthStep(t, i, k);
      if t[k] == '(' then CloseFrom(t, i, k + 1, depth + 1)
      else if t[k] == ')' then
        if depth == 1 then Some(k + 1) else CloseFrom(t, i, k + 1, depth - 1)
      else CloseFrom(t, i, k + 1, depth)
  }

  /** The prefixes of a slice are the slices that start at the same place. */
  lemma SlicePrefix(t: string, i: nat, e: nat, m: nat)
    requires i <= e <= |t| && m <= e - i
    ensures t[i..e][..m] == t[i..i + m]
  {
  }

  /** What the scan of a group opened at `i` found is the one group there. */
  lemma ScanFindsGroup(t: string, i: nat, r: Option<nat>)
    requires i < |t| && t[i] == '('
    requires r.Some? ==> i + 1 < r.value <= |t| && Depth(t[i..r.value]) == 0
    requires r.Some? ==> forall j :: i < j < r.value ==> Depth(t[i..j]) > 0
    requires r.None? ==> forall j :: i < j <= |t| ==> Depth(t[i..j]) > 0
    ensures r.Some? ==> IsGroup(t[i..r.value])
    ensures forall e :: i < e <= |t| && IsGroup(t[i..e]) ==> r == Some(e)
  {
    if r.Some? {
      var e := r.value;
      forall m | 1 <= m < e - i
        ensures Depth(t[i..e][..m]) > 0
      {
        SlicePrefix(t, i, e, m);
      }
    }
    forall e | i < e <= |t| && IsGroup(t[i..e])
      ensures r == Some(e)
    {
      if r.Some? && r.value < e {
        SlicePrefix(t, i, e, r.value - i);
      }
    }
  }

  /** Where the balanced group starting at `i` ends, if one starts there: what
      the recursive branch of the block-opener pattern matches at `i`. The
      group is unique, since it ends where the depth first returns to zero. */
  function GroupEnd(t: string, i: nat): (r: Option<nat>)
    requires i <= |t|
    ensures r.Some? ==> i < r.value <= |t| && IsGroup(t[i..r.value])
  {
    if i < |t| && t[i] == '(' then
      OpenDepth(t, i);
      var r := CloseFrom(t, i, i + 1, 1);
      ScanFindsGroup(t, i, r);
      r
    else
      None
  }

  /** A group opened at `i` has depth one after its `(`. */
  lemma OpenDepth(t: string, i: nat)
    requires i < |t| && t[i] == '('
    ensures Depth(t[i..i + 1]) == 1
  {
    assert t[i..i + 1] == ['('];
    assert t[i..i + 1][..0] == [];
  }

  /** Any balanced group starting at `i` is the one `GroupEnd` finds. */
  lemma GroupEndUnique(t: string, i: nat, e: nat)
    requires i < e <= |t| && IsGroup(t[i..e])
    ensures GroupEnd(t, i) == Some(e)
  {
    assert t[i] == t[i..e][0];
    OpenDepth(t, i);
    var r := CloseFrom(t, i, i + 1, 1);
    ScanFindsGroup(t, i, r);
  }

  /** After the groups end at `e`, further groups adjacent to it, greedily:
      the `+` of `(?R)+`. */
  function MoreGroups(t: string, e: nat): (r: nat)
    requires e <= |t|
    ensures e <= r <= |t|
    ensures GroupEnd(t, r).None?
    ensures r == e || t[r - 1] == ')'
    decreases |t| - e
  {
    match GroupEnd(t, e)
    case None => e
    case Some(e2) =>
      var r := MoreGroups(t, e2);
      assert r == e2 ==> t[r - 1] == t[e..e2][e2 - e - 1];
      r
  }

  /** End of one or more adjacent balanced groups starting at `i`, taken
      greedily: what `(?R)+` consumes. None when no group starts at `i`. */
  function GroupsEnd(t: string, i: nat): (r: Option<nat>)
    requires i <= |t|
    ensures r.Some? ==> i < r.value <= |t| && t[r.value - 1] == ')' && GroupEnd(t, r.value).None?
  {
    match GroupEnd(t, i)
    case None => None
    case Some(e) =>
      assert t[e - 1] == t[i..e][e - i - 1];
      Some(MoreGroups(t, e))
  }

  /** `(?R)+` matches at `i` exactly when a balanced group starts there. */
  lemma GroupsEndSome(t: string, i: nat)
    requires i <= |t|
    ensures GroupsEnd(t, i).Some? <==> exists e :: i < e <= |t| && IsGroup(t[i..e])
  {
    if GroupEnd(t, i).Some? {
      var e := GroupEnd(t, i).value;
      assert i < e <= |t| && IsGroup(t[i..e]);
    } else {
      forall e | i < e <= |t|
        ensures !IsGroup(t[i..e])
      {
        if IsGroup(t[i..e]) {
          GroupEndUnique(t, i, e);
        }
      }
    }
  }

  /** A single group followed by something that opens no further group is
      consumed exactly: nested parentheses inside it are part of it. */
  lemma {:induction false} GroupsEndSingle(t: string, i: nat, g: string)
    requires i + |g| <= |t| && t[i..i + |g|] == g && IsGroup(g)
    requires i + |g| == |t| || t[i + |g|] != '('
    ensures GroupsEnd(t, i) == Some(i + |g|)
  {
    GroupEndUnique(t, i, i + |g|);
    assert GroupEnd(t, i + |g|) == None;
  }
}
