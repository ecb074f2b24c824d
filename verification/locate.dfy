/**
  Finding a theme file, as WordPress's `locate_template` does: a child theme
  (the stylesheet directory) overrides its parent (the template directory),
  and the first name of a priority list that exists in either wins.
 */
module Locate {
  import opened Text
  import opened PhpStrings

  /** The two theme directories and the paths that exist on disk. */
  datatype Theme = Theme(stylesheet: string, template: string, present: set<string>)

  function InStylesheet(theme: Theme, file: string): string {
    theme.stylesheet + "/" + file
  }

  function InTemplate(theme: Theme, file: string): string {
    theme.template + "/" + file
  }

  /** `file` exists in one of the two theme directories. */
  predicate Found(theme: Theme, file: string) {
    InStylesheet(theme, file) in theme.present || InTemplate(theme, file) in theme.present
  }

  /** Where a found file is taken from: the stylesheet directory when it has
      one, the template directory otherwise. */
  function Where(theme: Theme, file: string): string {
    if InStylesheet(theme, file) in theme.present then InStylesheet(theme, file) else InTemplate(theme, file)
  }

  /** A list entry the search can stop at: a truthy name found in a directory. */
  predicate Hit(theme: Theme, file: string) {
    Truthy(file) && Found(theme, file)
  }

  /** `locateFile` from entry `i` of the list on. */
  function LocateFrom(theme: Theme, files: seq<string>, i: nat): (r: string)
    requires i <= |files|
    ensures r == "" <==> forall k :: i <= k < |files| ==> !Hit(theme, files[k])
    decreases |files| - i
  {
    if i == |files| then ""
    else if !Truthy(files[i]) then LocateFrom(theme, files, i + 1)
    else if InStylesheet(theme, files[i]) in theme.present then InStylesheet(theme, files[i])
    else if InTemplate(theme, files[i]) in theme.present then InTemplate(theme, files[i])
    else LocateFrom(theme, files, i + 1)
  }

  /** `locateFile($files)`: the first entry of the list that exists in the
      stylesheet or the template directory, with its directory prefixed; ""
      when none does. Falsy entries ("" and "0") are skipped. */
  function LocateFile(theme: Theme, files: seq<string>): (r: string)
    ensures r == "" <==> forall k :: 0 <= k < |files| ==> !Hit(theme, files[k])
  {
    LocateFrom(theme, files, 0)
  }

  /** The search stops at the first entry it can use and takes it from the
      stylesheet directory in preference to the template directory. */
  lemma {:induction false} LocatePriority(theme: Theme, files: seq<string>, k: nat)
    requires k < |files| && Hit(theme, files[k])
    requires forall j :: 0 <= j < k ==> !Hit(theme, files[j])
    ensures LocateFile(theme, files) == Where(theme, files[k])
  {
    LocatePriorityFrom(theme, files, 0, k);
  }

  lemma {:induction false} LocatePriorityFrom(theme: Theme, files: seq<string>, i: nat, k: nat)
    requires i <= k < |files| && Hit(theme, files[k])
    requires forall j :: i <= j < k ==> !Hit(theme, files[j])
    ensures LocateFrom(theme, files, i) == Where(theme, files[k])
    decreases k - i
  {
    if i < k {
      LocatePriorityFrom(theme, files, i + 1, k);
    }
  }

  /** What is located is always a path inside one of the two directories. */
  lemma {:induction false} LocateInDirectory(theme: Theme, files: seq<string>, i: nat)
    requires i <= |files|
    ensures var r := LocateFrom(theme, files, i);
            r == "" || exists k :: i <= k < |files| && Hit(theme, files[k]) && r == Where(theme, files[k])
    decreases |files| - i
  {
    if i < |files| {
      LocateInDirectory(theme, files, i + 1);
    }
  }

  /** The slug of `get_header('slug')`: the letters, hyphens and underscores
      of the quoted argument, or nothing when the argument is blank. */
  function Slug(quoted: string): (slug: string)
    ensures !Truthy(Trim(quoted)) ==> slug == ""
    ensures Truthy(slug) <==> slug != ""
  {
    if Truthy(Trim(quoted)) then
      var slug := SlugChars(quoted);
      assert |slug| == 1 ==> slug[0] != '0';
      slug
    else ""
  }

  /** The candidate file names of a partial of kind `base`, most specific first. */
  function TemplateNames(base: string, quoted: string): (names: seq<string>)
    ensures 1 <= |names| <= 2 && names[|names| - 1] == base + ".php"
    ensures |names| == 2 <==> Truthy(Slug(quoted))
    ensures |names| == 2 ==> names[0] == base + "-" + Slug(quoted) + ".php"
  {
    var slug := Slug(quoted);
    (if Truthy(slug) then [base + "-" + slug + ".php"] else []) + [base + ".php"]
  }

  /** A partial with a slug prefers its specific template, in either
      directory, and falls back to the generic one. */
  lemma SpecificTemplateFirst(theme: Theme, base: string, quoted: string)
    requires Truthy(Slug(quoted))
    ensures var specific := base + "-" + Slug(quoted) + ".php";
            var generic := base + ".php";
            LocateFile(theme, TemplateNames(base, quoted))
            == if Found(theme, specific) then Where(theme, specific)
               else if Found(theme, generic) then Where(theme, generic)
               else ""
  {
    var names := TemplateNames(base, quoted);
    var specific := base + "-" + Slug(quoted) + ".php";
    var generic := base + ".php";
    assert Truthy(specific) && Truthy(generic);
    if Found(theme, specific) {
      LocatePriority(theme, names, 0);
    } else if Found(theme, generic) {
      LocatePriority(theme, names, 1);
    }
  }
}
