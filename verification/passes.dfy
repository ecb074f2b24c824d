/**
  The ten compiler passes of the template engine. Each takes the template
  text produced by the passes before it and rewrites the directives of one
  kind into PHP. The passes that only substitute capture groups use
  `preg_replace`; Arrays, Includes and Loop first collect the matches with
  `preg_match_all` and then substitute them with `str_replace`, which
  replaces every occurrence of each matched text, not only the place where
  it was matched; Partials builds one further pattern per distinct call.
 */
module Passes {
  import opened Text
  import opened PhpStrings
  import opened Patterns
  import opened Preg
  import opened Locate

  /** The class name the generated code calls back into. */
  const ClassName := "Gaunt\\Gaunt"

  // ---------------------------------------------------------------------
  // Comments: `{{-- text --}}` becomes a PHP comment.

  const CommentCode: seq<Piece> := [Lit("<?php /* "), Ref(1), Lit(" */ ?>")]

  function CompileComments(t: string): (r: string)
    ensures !OccursFrom(t, 0, "{{") ==> r == t
  {
    Replace(CommentTag, t, CommentCode)
  }

  // ---------------------------------------------------------------------
  // Arrays: `{{ post.t }}` becomes `<?php echo post['t']; ?>`.

  /** The replacement of one dot-notation match: the dotted part, a single
      character, is split at dots and re-joined as array subscripts. */
  function ArrayCode(h: Hit): string {
    Group(h, 1) + "<?php echo " + Group(h, 2) + "['"
    + Implode("']['", Explode('.', Group(h, 3))) + "']; ?>" + Group(h, 4)
  }

  /** The texts matched, in document order: `$matches[0]`. */
  function Texts(hits: seq<Hit>): (texts: seq<string>)
    ensures |texts| == |hits|
    ensures forall k :: 0 <= k < |hits| ==> texts[k] == Group(hits[k], 0)
  {
    seq(|hits|, k requires 0 <= k < |hits| => Group(hits[k], 0))
  }

  function ArrayCodes(hits: seq<Hit>): (codes: seq<string>)
    ensures |codes| == |hits|
    ensures forall k :: 0 <= k < |hits| ==> codes[k] == ArrayCode(hits[k])
  {
    seq(|hits|, k requires 0 <= k < |hits| => ArrayCode(hits[k]))
  }

  function CompileArrays(t: string): (r: string)
    ensures !OccursFrom(t, 0, "{{") ==> r == t
  {
    var hits := Matches(ArrayTag, t);
    assert Marker(ArrayTag) == "{{";
    assert !OccursFrom(t, 0, "{{") ==> |Texts(hits)| == 0;
    StrReplace(t, Texts(hits), ArrayCodes(hits))
  }

  // ---------------------------------------------------------------------
  // Echos: `{{ expr }}` becomes `<?php echo expr; ?>`.

  const EchoCode: seq<Piece> := [Lit("<?php echo "), Ref(1), Lit("; ?>")]

  function CompileEchos(t: string): (r: string)
    ensures !OccursFrom(t, 0, "{{") ==> r == t
  {
    Replace(EchoTag, t, EchoCode)
  }

  // ---------------------------------------------------------------------
  // Code blocks: text between double backticks becomes a PHP block.

  const CodeCode: seq<Piece> := [Ref(1), Lit("<?php "), Ref(2), Ref(3), Ref(4), Lit("?>")]

  function CompileCodes(t: string): (r: string)
    ensures !OccursFrom(t, 0, "``") ==> r == t
  {
    Replace(CodeBlock, t, CodeCode)
  }

  // ---------------------------------------------------------------------
  // Block openers: `@if (cond)` becomes `<?php if (cond): ?>`.

  const OpeningCode: seq<Piece> := [Ref(1), Lit("<?php "), Ref(2), Ref(3), Lit(": ?>")]

  function CompileOpenings(t: string): (r: string)
    ensures !OccursFrom(t, 0, "@") ==> r == t
  {
    Replace(Opening, t, OpeningCode)
  }

  // ---------------------------------------------------------------------
  // Block closers: `@endif` becomes `<?php endif; ?>`.

  const ClosingKeywords: seq<Word> := ["endif", "endforeach", "endfor", "endwhile"]

  const ClosingCode: seq<Piece> := [Ref(1), Lit("<?php "), Ref(2), Lit("; ?>"), Ref(3)]

  function CompileClosings(t: string): (r: string)
    ensures !OccursFrom(t, 0, "@") ==> r == t
  {
    Replace(ClosingMatcher(ClosingKeywords), t, ClosingCode)
  }

  // ---------------------------------------------------------------------
  // `@else` becomes `<?php else: ?>`.

  const ElseCode: seq<Piece> := [Ref(1), Lit("<?php else: ?>"), Ref(2)]

  function CompileElse(t: string): (r: string)
    ensures !OccursFrom(t, 0, "@") ==> r == t
  {
    Replace(PlainMatcher("else"), t, ElseCode)
  }

  // ---------------------------------------------------------------------
  // Includes: `@include('name')` becomes a call that renders the theme file.

  /** The file an include names: when the argument, without quotes and
      whitespace, is a truthy name found in a theme directory, that file,
      from the stylesheet directory in preference; the raw argument otherwise. */
  function IncludeTarget(theme: Theme, arg: string): (target: string)
    ensures var name := StripQuotesAndSpace(arg);
            && (Locate.Hit(theme, name) ==> target == Where(theme, name))
            && (!Locate.Hit(theme, name) ==> target == arg)
  {
    var located := LocateFile(theme, [StripQuotesAndSpace(arg)]);
    LocateOne(theme, StripQuotesAndSpace(arg));
    if !Truthy(located) then arg else located
  }

  /** Locating a single name finds its file exactly when it is a hit, and
      what it finds is never falsy, since it holds a `/`. */
  lemma LocateOne(theme: Theme, name: string)
    ensures Locate.Hit(theme, name) ==> LocateFile(theme, [name]) == Where(theme, name)
    ensures Truthy(Where(theme, name))
  {
    if Locate.Hit(theme, name) {
      LocatePriority(theme, [name], 0);
    }
    var w := Where(theme, name);
    assert '/' in w by {
      if InStylesheet(theme, name) in theme.present {
        assert w[|theme.stylesheet|] == '/';
      } else {
        assert w[|theme.template|] == '/';
      }
    }
  }

  function InsertCall(file: string): string {
    "<?php " + ClassName + "::insert('" + file + "', get_defined_vars());?>"
  }

  function IncludeCodes(theme: Theme, hits: seq<Hit>): (codes: seq<string>)
    ensures |codes| == |hits|
    ensures forall k :: 0 <= k < |hits| ==>
              codes[k] == Group(hits[k], 1) + InsertCall(IncludeTarget(theme, Group(hits[k], 2)))
  {
    seq(|hits|, k requires 0 <= k < |hits| => Group(hits[k], 1) + InsertCall(IncludeTarget(theme, Group(hits[k], 2))))
  }

  /** The search list of a single match. */
  lemma OneHitTexts(h: Hit)
    ensures Texts([h]) == [Group(h, 0)]
  {
  }

  /** The replacement list of a single array match. */
  lemma OneHitArrayCodes(h: Hit)
    ensures ArrayCodes([h]) == [ArrayCode(h)]
  {
  }

  /** The replacement list of a single include match. */
  lemma OneHitIncludeCodes(theme: Theme, h: Hit)
    ensures IncludeCodes(theme, [h]) == [Group(h, 1) + InsertCall(IncludeTarget(theme, Group(h, 2)))]
  {
  }

  function CompileIncludes(theme: Theme, t: string): (r: string)
    ensures !OccursFrom(t, 0, "@") ==> r == t
  {
    var hits := Matches(OpenMatcher("include"), t);
    assert Marker(OpenMatcher("include")) == "@";
    assert !OccursFrom(t, 0, "@") ==> |Texts(hits)| == 0;
    StrReplace(t, Texts(hits), IncludeCodes(theme, hits))
  }

  // ---------------------------------------------------------------------
  // WordPress partials: `get_header('x')` becomes a call that renders the
  // compiled theme template.

  /** `compileTemplateFiles`: the partial pattern is matched once more, on
      the trimmed call; the kind names the template and the quoted argument,
      if any, its more specific variant. */
  function TemplateFile(theme: Theme, call: string): string {
    var hits := Matches(PartialCall, call);
    var base := if |hits| > 0 then StripQuotesAndSpace(Group(hits[0], 2)) else "";
    var quoted := if |hits| > 0 then Group(hits[0], 3) else "";
    LocateFile(theme, TemplateNames(base, quoted))
  }

  /** `hits[k]` is the first with its text: what `array_unique` keeps. */
  predicate FirstOfItsText(hits: seq<Hit>, k: nat)
    requires k < |hits|
  {
    forall j :: 0 <= j < k ==> Group(hits[j], 0) != Group(hits[k], 0)
  }

  /** The replacement rules of the partial calls `hits[k..]`: one per
      distinct call text whose template is found, replacing the call
      together with a surrounding PHP tag and semicolon. */
  function PartialRules(theme: Theme, hits: seq<Hit>, k: nat): (rules: seq<Rule>)
    requires k <= |hits|
    requires forall i :: 0 <= i < |hits| ==> |Group(hits[i], 0)| > 0
    ensures |rules| <= |hits| - k
    ensures k == |hits| ==> rules == []
    decreases |hits| - k
  {
    if k == |hits| then []
    else
      var call := Group(hits[k], 0);
      var file := TemplateFile(theme, Trim(call));
      var rest := PartialRules(theme, hits, k + 1);
      if FirstOfItsText(hits, k) && Truthy(file) then
        [Rule(InsertedCall(call), Group(hits[k], 1) + "<?php " + ClassName + "::insert('" + file + "',get_defined_vars()); ?>")] + rest
      else rest
  }

  function CompilePartials(theme: Theme, t: string): (r: string)
    ensures Matches(PartialCall, t) == [] ==> r == t
  {
    var hits := Matches(PartialCall, t);
    HitTexts(t, hits);
    ReplaceEach(t, PartialRules(theme, hits, 0))
  }

  /** Every match has a non-empty text. */
  lemma HitTexts(t: string, hits: seq<Hit>)
    requires forall k :: 0 <= k < |hits| ==> HitOf(t, hits[k].start, hits[k])
    ensures forall k :: 0 <= k < |hits| ==> |Group(hits[k], 0)| > 0
  {
    forall k | 0 <= k < |hits|
      ensures |Group(hits[k], 0)| > 0
    {
      assert HitOf(t, hits[k].start, hits[k]);
    }
  }

  /** A template without a `get_` call comes back from Partials unchanged. */
  lemma PartialsWithoutCalls(theme: Theme, t: string)
    requires !OccursFrom(t, 0, "get_")
    ensures CompilePartials(theme, t) == t
  {
    assert Marker(PartialCall) == "get_";
    NoMatches(PartialCall, t);
  }

  // ---------------------------------------------------------------------
  // The WordPress loop: `@startloop`, `@noposts`, `@endloop`.

  const LoopKeywords: seq<Word> := ["startloop", "noposts", "endloop"]

  const StartLoopCode := "<?php if ( have_posts() ) : " + "while ( have_posts() ) : the_post(); ?>"
  const NoPostsCode := "<?php endwhile; else: ?>"
  const EndLoopAfterNoPostsCode := "<?php endif; ?>"
  const EndLoopCode := "<?php endwhile; endif; ?>"

  /** The code for the `k`-th loop keyword: `@endloop` only closes the `if`
      when the keyword matched just before it was `@noposts`, which already
      closed the `while`. */
  function LoopCode(kinds: seq<string>, k: nat): string
    requires k < |kinds|
  {
    match kinds[k]
    case "startloop" => StartLoopCode
    case "noposts" => NoPostsCode
    case "endloop" => if k > 0 && kinds[k - 1] == "noposts" then EndLoopAfterNoPostsCode else EndLoopCode
    case _ => ""
  }

  /** The keyword each loop match took: `$matches[2]`. */
  function Kinds(hits: seq<Hit>): (kinds: seq<string>)
    ensures |kinds| == |hits|
    ensures forall k :: 0 <= k < |hits| ==> kinds[k] == Group(hits[k], 2)
  {
    seq(|hits|, k requires 0 <= k < |hits| => Group(hits[k], 2))
  }

  function LoopCodes(hits: seq<Hit>): (codes: seq<string>)
    ensures |codes| == |hits|
  {
    var kinds := Kinds(hits);
    seq(|hits|, k requires 0 <= k < |hits| => Group(hits[k], 1) + LoopCode(kinds, k) + Group(hits[k], 3))
  }

  /** The loop pass as written: the codes are put in with `str_replace`, so
      every copy of a matched text receives the code chosen for its first
      match. */
  function CompileLoop(t: string): (r: string)
    ensures !OccursFrom(t, 0, "@") ==> r == t
  {
    var hits := Matches(ClosingMatcher(LoopKeywords), t);
    var texts := Texts(hits);
    assert Marker(ClosingMatcher(LoopKeywords)) == "@";
    assert !OccursFrom(t, 0, "@") ==> |texts| == 0;
    StrReplace(t, texts, LoopCodes(hits))
  }

  /** The loop pass as intended: each match is replaced in place by the code
      chosen for that match. `Compiler.CompileString` runs `CompileLoop`,
      as the engine does. */
  function CompileLoopInPlace(t: string): (r: string)
    ensures !OccursFrom(t, 0, "@") ==> r == t
  {
    var hits := Matches(ClosingMatcher(LoopKeywords), t);
    assert Marker(ClosingMatcher(LoopKeywords)) == "@";
    assert !OccursFrom(t, 0, "@") ==> |hits| == 0;
    Splice(t, 0, hits, LoopCodes(hits))
  }
}
