# Gaunt template compiler, modelled in Dafny

Gaunt is a template engine for WordPress themes. It compiles a template,
written with Blade-like directives, into a PHP file and caches the result.
The directives are:

- `{{-- comment --}}`
- `{{ expr }}`
- `{{ post.t }}`
- code between double backticks
- `@if(...)`, `@elseif(...)`, `@foreach(...)`, `@for(...)`, `@while(...)` and their `@end...` closers
- `@else`
- `@include(...)`
- `get_header()`, `get_footer()` and `get_sidebar()`
- `@startloop`, `@noposts` and `@endloop`

This project models the compiler and its cache. The modules are:

- `Text`: characters and positions. It defines PCRE's `\s` and `\w`, whitespace and word runs, first occurrences and alternations.
- `PhpStrings`: the PHP string functions the compiler uses, with PHP's edge cases. These are `str_replace` with arrays, `trim`, `explode`/`implode`, `basename`, string truthiness, and deleting a character class with `preg_replace`.
- `Balanced`: the recursive sub-pattern `(?R)` of the block-opener regular expression. It is a depth-counting scan, proved to find exactly the one balanced group that starts at a position.
- `Patterns`: every regular expression of the compiler as a scanner. Each scanner answers whether the pattern matches at an index, where the match ends and what each capture group holds. It follows PCRE's backtracking order: greedy runs longest first, lazy ones shortest first, and alternations in order.
- `Preg`: `preg_match_all` and `preg_replace` over any sound scanner. These give leftmost non-overlapping matches and `$n` substitution.
- `Passes`: the ten compiler passes.
- `Tags`, `Directives` and `LoopTags`: what each pass does to the directives it compiles, one directive at a time, and for the loop pass to any sequence of loop directives.
- `Compiler`: `compileString`, the fold of the passes in their fixed order.
- `Locate`: the theme-file lookup. The stylesheet (child theme) directory overrides the template (parent theme) directory.
- `Cache`: `make`, `isCached` and `getCompiledPath` over a file system that maps paths to contents and modification times.

Some inputs of the source are parameters of the model:

- The file system is a map.
- MD5 is a function-valued field of the engine.
- The time of a write is an argument of `Make`.
- The directory constants `STYLESHEETPATH` and `TEMPLATEPATH` are fields.

The loop pass is modelled twice. `Passes.CompileLoop` follows the code as
written: it chooses a code for every match, then hands the matched texts and
the codes to `str_replace`. `str_replace` replaces every copy of a text with
the code of its first match, so a repeated `@endloop` cannot receive a
different code from the first one (see Findings).
`Passes.CompileLoopInPlace` replaces each match with its own code; it is
the corrected pass of the Findings table. The pipeline
`Compiler.CompileString`, and so the file `Cache.Make` writes, runs
`CompileLoop`, as the engine does.

The dot-notation pattern of the Arrays pass is `(.+?)\.([\w0-9])`. It takes
exactly one character after the dot, so only a one-character key such as
`{{ post.t }}` becomes an array access, and only the last dot is a
subscript: `{{ a.b.c }}` becomes `<?php echo a.b['c']; ?>`. A longer key such as
`{{ post.title }}` is not an array match when no later tag ends in `.c }}`
(a dot, one word character, optional whitespace and `}}`). The Echos pass then
turns it into `<?php echo post.title; ?>`. The body `(.+?)` may run past a
`}}`, so with such a later tag the array match starts at the first `{{` and
takes in everything up to that later tag. The model follows the code here.

The loop pass is stated for templates of loop directives, each with any
whitespace around it, and with text around the directives that holds no `@`.
The template may start and end with whitespace, such as the newline that
ends a file.

## Model

| member | source | states |
|---|---|---|
| `Compiler.PipelineOrder` | Gaunt.php:16-27 | compiling a template applies the passes in order (Comments, Arrays, Echos, Codes, Openings, Closings, Else, Includes, Partials, Loop), each to the output of the one before; the loop pass is the one as written, `CompileLoop` |
| `Compiler.PlainTextUnchanged` | Gaunt.php:128-136 | a template with no `{{`, double backtick, `@` or `get_` compiles to itself |
| `Passes.CompileComments` | Gaunt.php:144-149 | without `{{`, the comment pass changes nothing |
| `Tags.CommentCompiles` | Gaunt.php:146-148 | `{{--c--}}` becomes `<?php /* c */ ?>` when the first `--}}` after `{{--` is the closing one |
| `Passes.CompileArrays` | Gaunt.php:157-172 | without `{{`, the dot-notation pass changes nothing |
| `Tags.ArrayCompiles` | Gaunt.php:159-171 | `{{ w p.c w2 }}`, with a one-character word key `c` and any `p` without `}}`, becomes `w<?php echo p['c']; ?>w2`: earlier dots stay in `p`, and the whitespace inside the braces is kept outside the PHP tag |
| `Tags.ArrayNeedsKeyEnd` | Gaunt.php:159-171 | when no dot in the text is followed by one word character, optional whitespace and `}}`, the dot-notation pass finds no match and changes nothing, so `{{ post.title }}` alone is left for the echo pass |
| `Tags.ArrayTwoDots` | Gaunt.php:159-171 | `{{x.y.c}}` becomes `<?php echo x.y['c']; ?>`: only the last dot is a subscript |
| `Passes.CompileEchos` | Gaunt.php:180-185 | without `{{`, the echo pass changes nothing |
| `Tags.EchoCompiles` | Gaunt.php:182-184 | `{{ x }}` becomes `<?php echo x; ?>` whenever `}}` starts nowhere in `x` before the closing one; the whitespace on both sides of `x` is dropped |
| `Tags.EchoWithBraces` | Gaunt.php:182-184 | single braces inside an echo are kept: `{{ {v} }}` becomes `<?php echo {v}; ?>` |
| `Passes.CompileCodes` | Gaunt.php:192-196 | without a double backtick, the code-block pass changes nothing |
| `Tags.CodeCompiles` | Gaunt.php:194-195 | a block between double backticks, with no double backtick starting in it before the closing one, becomes `<?php ... ?>` holding the inner text with its whitespace; the whitespace before the block stays in front |
| `Passes.CompileOpenings` | Gaunt.php:204-209 | without `@`, the block-opener pass changes nothing |
| `Directives.OpeningCompiles` | Gaunt.php:206-208 | `w@kw w2(cond)`, for each of if, elseif, foreach, for and while and any balanced `(cond)` however deeply nested, becomes `w<?php kw w2(cond): ?>` |
| `Directives.UnclosedOpeningUnchanged` | Gaunt.php:206 | when no `@kw` (kw an opener keyword) is followed, after its whitespace, by a balanced group, the opener pass changes nothing |
| `Directives.UnclosedIfUnchanged` | Gaunt.php:206 | `@if(f(x)`, whose group never closes, is left as it is |
| `Passes.CompileClosings` | Gaunt.php:217-222 | without `@`, the block-closer pass changes nothing |
| `Tags.ClosingCompiles` | Gaunt.php:219-221 | `w@kw w2`, for each of endif, endforeach, endfor and endwhile, becomes `w<?php kw; ?>w2`; `@endforeach` is not cut short as `@endfor` |
| `Passes.CompileElse` | Gaunt.php:230-235 | without `@`, the else pass changes nothing |
| `Directives.ElseCompiles` | Gaunt.php:232-234 | `w@else w2` becomes `w<?php else: ?>w2`, both whitespace runs kept |
| `Directives.ElseSwallowsKeyword` | Gaunt.php:232-234 | the else pattern has no word boundary after `else`: on its own it turns `@elseX` into `<?php else: ?>X` |
| `Directives.ElseifCompiles` | Gaunt.php:204-235 | because the opener pass runs before the else pass, the whole pipeline turns `@elseif(...)` into `<?php elseif(...): ?>`, for any balanced condition without `@`, `{{`, a double backtick or `get_`; the else pass alone would have produced `<?php else: ?>if(...)` |
| `Passes.IncludeTarget` | Gaunt.php:258-265 | when the argument, stripped of quotes and whitespace, names a file in either theme directory, the include renders that file, taken from the stylesheet directory when it is there; when it names none, the include renders the raw argument |
| `Passes.CompileIncludes` | Gaunt.php:243-270 | without `@`, the include pass changes nothing |
| `Tags.IncludeCompiles` | Gaunt.php:245-269 | `w@include w2(arg)` on one line becomes `w` followed by the `insert` call for the include's target |
| `Passes.PartialsWithoutCalls` | Gaunt.php:278-302 | without `get_`, the partials pass changes nothing |
| `Tags.PartialCompiles` | Gaunt.php:284-301 | `get_kind()` becomes the `insert` call for `kind.php` when the theme has that file, and is left alone when it has not |
| `Tags.PartialTagCompiles` | Gaunt.php:277-301 | `w<?php get_kind(); ?>`, with no `get_` in `w`, becomes `w` followed by the `insert` call for `kind.php` when the theme has that file: the PHP tag around the call is replaced with it. Without the file the text is left alone |
| `Passes.CompileLoop` | Gaunt.php:309-347 | without `@`, the loop pass changes nothing |
| `Passes.CompileLoopInPlace` | Gaunt.php:309-347 | without `@`, the in-place loop pass changes nothing |
| `LoopTags.TagMatches` | Gaunt.php:311-315 | on a template of loop directives, each with any whitespace around it, and text without `@` around them (the template may start and end with whitespace), `preg_match_all` finds exactly the directives in order. Each match is the directive with its whitespace, and carries its keyword and its own code |
| `LoopTags.EndLoopChoice` | Gaunt.php:317-341 | `@startloop` and `@noposts` get their fixed code; `@endloop` closes only the `if` exactly when the directive before it is `@noposts`, and closes the `while` and the `if` otherwise |
| `LoopTags.LoopAsWritten` | Gaunt.php:343-346 | as written, on a template whose loop directives touch no whitespace (the template itself may start and end with whitespace), every loop directive receives the code chosen for the first directive with the same keyword |
| `LoopTags.LoopInPlace` | Gaunt.php:317-343 | in place, on a template of loop directives with any whitespace around them, starting and ending with any text without `@`, every directive with its whitespace is replaced by the code chosen for it, and the text between directives is kept |
| `LoopTags.LoopVersionsAgree` | Gaunt.php:317-346 | on a template whose loop directives touch no whitespace, the two loop passes agree when each directive's own code equals the code of the first copy of its keyword |
| `LoopTags.ListLoopInPlace` | Gaunt.php:311-343 | in place, `<ul>`, `@startloop`, `<li/>`, `@endloop` and `</ul>` on lines of their own become the same lines with each directive's code in its place; the line breaks, the file's final one included, are kept |
| `LoopTags.BareListAsWritten` | Gaunt.php:311-346 | as written, `@startloop<li/>@endloop</ul>` followed by a newline gets the code of each directive in its place, and the final newline stays |
| `LoopTags.SecondLoopMisclosed` | Gaunt.php:343-346 | on `@startloop@endloop@startloop@noposts@endloop`, the second `@endloop` receives `endwhile; endif;` as written and `endif;` in place |
| `Locate.LocateFile` | Gaunt.php:380-399 | the lookup returns "" exactly when no truthy entry of the list exists in either theme directory |
| `Locate.LocatePriority` | Gaunt.php:384-396 | the first usable entry wins, and it is taken from the stylesheet directory when it exists there |
| `Locate.TemplateNames` | Gaunt.php:361-368 | a partial's candidates are `base-slug.php` (only when the slug is truthy) followed by `base.php` |
| `Locate.Slug` | Gaunt.php:361 | the slug is empty when the quoted argument trims to a falsy string, and is truthy exactly when non-empty |
| `Locate.SpecificTemplateFirst` | Gaunt.php:354-373 | with a slug, the specific template is used when found, then the generic one, else "" |
| `Cache.IsCached` | Gaunt.php:89-106 | the cached copy is fresh iff it exists, its time is non-zero and it is not older than the template; a stale copy is deleted |
| `Cache.Make` | Gaunt.php:71-82 | make always returns the compiled path; a fresh copy leaves the file system alone; otherwise the stale copy is removed and the compiled file holds the pipeline's output (with the loop pass as written) on the template's contents, with the current time |
| `Cache.SameTimeIsFresh` | Gaunt.php:99 | a compiled file exactly as old as its template is reused, whatever the time of the call |
| `Cache.TouchedIsRecompiled` | Gaunt.php:71-103 | a template modified after its compiled file is recompiled: the compiled file then holds the compilation of the template's current contents, written at the time of the call |
| `Cache.MakeIdempotent` | Gaunt.php:71-106 | a second make right after the first writes nothing |
| `Preg.ReplaceIsSplice` | Gaunt.php:148 | `preg_replace` equals finding all leftmost non-overlapping matches and replacing each in place with its own expansion |
| `Preg.NoMatchUnchanged` | Gaunt.php:148 | where the pattern matches nowhere, `preg_replace` returns the text and `preg_match_all` finds nothing |
| `Preg.WholeMatchReplaced` | Gaunt.php:148 | a match covering the whole text is replaced by its expansion alone, and is the only match |
| `Preg.LeadingMatchReplaced` | Gaunt.php:234 | a match at the start with no match after it is replaced by its expansion and the rest of the text is kept |
| `Preg.SoleMatch` | Gaunt.php:284 | a match with no match starting before it, and no occurrence after its end of a literal every match contains, is the only match `preg_match_all` finds |
| `Preg.TrailingMatchReplaced` | Gaunt.php:300 | a match that ends the text, with no match starting before it, is replaced by its expansion and the text before it is kept |
| `Preg.NextMatch` | Gaunt.php:162 | the first position from the scan point where the pattern matches gives the next match of `preg_match_all`, and the scan resumes at its end |
| `PhpStrings.StrReplaceInTurn` | Gaunt.php:171 | `str_replace` with arrays applies each search/replacement pair to the result of the earlier pairs |
| `PhpStrings.ReplaceAllLeftmost` | Gaunt.php:171 | one pair of `str_replace` replaces the leftmost occurrence and continues after it, never rescanning the replacement |
| `PhpStrings.StrReplaceAbsent` | Gaunt.php:171 | `str_replace` leaves a text in which no search string occurs unchanged |
| `PhpStrings.ImplodeExplode` | Gaunt.php:166-168 | joining the parts of an explode with the separator gives back the string |
| `PhpStrings.ExplodeNoSeparator` | Gaunt.php:166 | a string without the separator explodes into itself alone |
| `PhpStrings.Basename` | Gaunt.php:92 | the base name contains no slash, is empty exactly when the path is all slashes, and is a slice of the path |
| `PhpStrings.Trim` | Gaunt.php:290 | the trimmed string is a slice of the input with only trim characters removed at either end |
| `Balanced.GroupEndUnique` | Gaunt.php:206 | every balanced parenthesised group starting at a position is the one the recursive branch `(?R)` finds there, so that group is unique |
| `Balanced.GroupsEndSome` | Gaunt.php:206 | `(?R)+` matches at a position exactly when a balanced group starts there |
| `Balanced.GroupsEndSingle` | Gaunt.php:206 | one balanced group not followed by `(` is consumed exactly, nested parentheses included |
| `Patterns.CommentAt` | Gaunt.php:146 | a comment matches exactly when `{{--` is followed later by `--}}`; it stops at the first `--}}` |
| `Patterns.LazyBodyShortest` | Gaunt.php:182 | the lazy `(.+?)` takes the shortest body after which optional whitespace and the closing delimiter follow |
| `Patterns.PlainAt` | Gaunt.php:440-443 | `(?<!\w)(\s*)@word(\s*)` matches exactly when no word character precedes it and `@word` follows the whitespace; groups are the two whitespace runs |
| `Patterns.ClosingAt` | Gaunt.php:429-432 | a closer match takes one of the listed keywords after `@` |
| `Patterns.OpeningAt` | Gaunt.php:206 | a block-opener match ends with the `)` of its last balanced group |
| `Patterns.PartialAt` | Gaunt.php:47 | a partial-call match names one of header, footer or sidebar |

## Findings

| source | as written | input that shows it | evidently intended | confidence | as-written member | corrected member |
|---|---|---|---|---|---|---|
| Gaunt.php:343-346 | the loop pass chooses a code for each match by its position, then substitutes with `str_replace` on the matched texts, so every copy of `@endloop` receives the code chosen for the first one. The model states this for templates whose loop directives touch no whitespace | `@startloop@endloop@startloop@noposts@endloop`: the second `@endloop` becomes `<?php endwhile; endif; ?>` after `<?php endwhile; else: ?>`, closing the `while` twice | each directive receives the code chosen for it, so the second `@endloop` becomes `<?php endif; ?>` | high; not executed | `LoopTags.SecondLoopMisclosed` (on `Passes.CompileLoop`) | `LoopTags.LoopInPlace` (on `Passes.CompileLoopInPlace`) |

## Left out

- `Initialize.php`, the constructor's creation of the cache directory, `insert` (which renders a compiled file) and `__callStatic`: they run PHP code or create directories, and they compile nothing.
- MD5 is a parameter, not an implementation.
- `setContentTags` and `setEscapedContentTags`: the delimiters are fixed at their defaults, which are the only ones the passes are built with.
- `createMatcher` (Gaunt.php:407-410) is not used by any pass.
- PCRE's backtracking and recursion limits: a match the library would abandon for hitting them is found here.
- `glob` is an exact lookup. A base name containing glob metacharacters is not modelled as a pattern.
- In the replacements that Partials hands to `preg_replace`, `$n` and `\n` in a theme path would be expanded. Here a replacement is taken literally.
- A failing `file_put_contents` or `unlink`, and concurrent compilation of the same template.
- `Passes.CompileLoopInPlace` is not part of the pipeline. Its behaviour is stated for templates of loop directives only, in `LoopTags.LoopInPlace`.
- The single-directive lemmas cover one directive per text. Texts with several directives are covered by the general `Preg` lemmas (`ReplaceIsSplice`, `NextMatch`) and, for the loop pass, by `LoopTags`.
- `Passes.CompileComments`: states only that a text without `{{` is unchanged; one comment is `Tags.CommentCompiles`.
- `Passes.CompileArrays`: states only that a text without `{{` is unchanged; one array access is `Tags.ArrayCompiles`.
- `Passes.CompileEchos`: states only that a text without `{{` is unchanged; one echo is `Tags.EchoCompiles`.
- `Passes.CompileCodes`: states only that a text without a double backtick is unchanged; one code block is `Tags.CodeCompiles`.
- `Passes.CompileOpenings`: states only that a text without `@` is unchanged; one opener is `Directives.OpeningCompiles`.
- `Passes.CompileClosings`: states only that a text without `@` is unchanged; one closer is `Tags.ClosingCompiles`.
- `Passes.CompileElse`: states only that a text without `@` is unchanged; one `@else` is `Directives.ElseCompiles`.
- `Passes.CompileIncludes`: states only that a text without `@` is unchanged; one include is `Tags.IncludeCompiles`.
- `Passes.PartialsWithoutCalls`: states only that a text without `get_` is unchanged; one partial call is `Tags.PartialCompiles`.
- `Passes.CompileLoop`: states only that a text without `@` is unchanged; templates of loop directives are `LoopTags.LoopAsWritten`.
- `Passes.CompileLoopInPlace`: states only that a text without `@` is unchanged; templates of loop directives are `LoopTags.LoopInPlace`.
- `Tags.PartialCompiles`: covers calls without an argument; a call with a quoted slug goes through the same lookup, whose choice of file is `Locate.SpecificTemplateFirst`.
- `Tags.PartialTagCompiles`: covers the one form `<?php get_kind(); ?>`, with single spaces and no argument. Other spacing, and the bare call inside other PHP code, are not stated.
- `Tags.ArrayCompiles`: the body `p` holds no `}}`. Given the cross-tag match above, a stated result for a body that runs across tags would only record the lazy pattern's reach, so none is given.
- `LoopTags.TagMatches`: the text around directives holds no `@`, and a text next to a directive does not start or end with whitespace on that side (that whitespace is the directive's). Between two directives with no text between them, the whitespace is counted as the earlier directive's trailing run, as the pattern's greedy `(\s*)` takes it.
- `LoopTags.LoopInPlace`: the same layout as `LoopTags.TagMatches`.
- `LoopTags.LoopAsWritten`: only templates whose directives touch no whitespace. With whitespace, which copy of a directive `str_replace` finds first also depends on the whitespace around each copy.
- `LoopTags.LoopVersionsAgree`: the same layout as `LoopTags.LoopAsWritten`.
- `Directives.ElseifCompiles`: the condition holds no `@`, `{{`, double backtick or `get_`. Those would be compiled by the other passes of the pipeline inside the condition.
