/**
  The compiled-template cache. A template at `path` is compiled to a file in
  the cache directory named after the MD5 digest and the base name of the
  path; the compiled file is reused while it is at least as new as the
  template, and rebuilt otherwise.

  The file system is a map from paths to files with a modification time.
  MD5 is a parameter of the engine, and the time of a write is a parameter
  of `Make`.
 */
module Cache {
  import opened Text
  import opened PhpStrings
  import opened Locate
  import opened Compiler

  datatype File = File(content: string, mtime: int)

  type Fs = map<string, File>

  /** The engine's configuration: the two theme directories and the digest
      function used to name compiled files. */
  datatype Engine = Engine(stylesheet: string, template: string, md5: string -> string)

  /** The cache directory, inside the stylesheet directory. */
  function CachePath(e: Engine): string {
    e.stylesheet + "/.tmpl_cache/"
  }

  /** The theme as the compiler sees it: the engine's directories over the
      files that currently exist. */
  function ThemeOf(e: Engine, fs: Fs): Theme {
    Theme(e.stylesheet, e.template, fs.Keys)
  }

  /** `getCompiledPath($path)`: cache directory, digest of the path, `_`,
      base name of the path. */
  function CompiledPath(e: Engine, path: string): string {
    CachePath(e) + e.md5(path) + "_" + Basename(path)
  }

  /** `filemtime`: the modification time, or None (PHP's `false`) when the
      file does not exist. */
  function Mtime(fs: Fs, path: string): Option<int> {
    if path in fs then Some(fs[path].mtime) else None
  }

  /** The compiled file can be reused: it exists, its time is truthy, and it
      is not older than the template. A template that does not exist has
      time `false`, and no integer is less than `false`, so then any truthy
      compiled file is reused. */
  predicate Fresh(e: Engine, fs: Fs, path: string) {
    var c := CompiledPath(e, path);
    && c in fs
    && fs[c].mtime != 0
    && (path !in fs || fs[path].mtime <= fs[c].mtime)
  }

  /** The answer of `isCached` and the file system after it. */
  datatype Check = Check(cached: bool, fs: Fs)

  /** `isCached($path)`: a stale compiled file is deleted before the answer
      is given. */
  function IsCached(e: Engine, fs: Fs, path: string): (r: Check)
    ensures r.cached <==> Fresh(e, fs, path)
    ensures r.cached ==> r.fs == fs
    ensures !r.cached ==> r.fs == fs - {CompiledPath(e, path)}
  {
    var lastModified := Mtime(fs, path);
    var cache := CompiledPath(e, path);
    var cacheModified := Mtime(fs, cache);
    var older := match lastModified
      case None => false
      case Some(m) => cacheModified.Some? && cacheModified.value < m;
    if cacheModified.None? || cacheModified.value == 0 || older then
      Check(false, fs - {cache})
    else
      Check(true, fs)
  }

  /** The file system after `make` and the path it returns. */
  datatype Made = Made(path: string, fs: Fs)

  /** `file_get_contents($path)` as the compiler receives it: a missing file
      reads as `false`, which the string functions treat as "". */
  function Contents(fs: Fs, path: string): string {
    if path in fs then fs[path].content else ""
  }

  /** `make($path)`: returns the compiled path, compiling the template into
      it first, with time `now`, when the cached copy is not fresh. */
  function Make(e: Engine, fs: Fs, path: string, now: int): (r: Made)
    ensures r.path == CompiledPath(e, path)
    ensures Fresh(e, fs, path) ==> r.fs == fs
    ensures !Fresh(e, fs, path) ==>
              var rest := fs - {CompiledPath(e, path)};
              r.fs == rest[CompiledPath(e, path) := File(CompileString(ThemeOf(e, rest), Contents(rest, path)), now)]
  {
    var filePath := CompiledPath(e, path);
    var check := IsCached(e, fs, path);
    if !check.cached then
      var contents := CompileString(ThemeOf(e, check.fs), Contents(check.fs, path));
      Made(filePath, check.fs[filePath := File(contents, now)])
    else
      Made(filePath, fs)
  }

  /** A compiled file exactly as old as its template is reused, whatever
      the time of the call. */
  lemma SameTimeIsFresh(e: Engine, fs: Fs, path: string, now: int)
    requires path in fs && CompiledPath(e, path) in fs
    requires fs[path].mtime == fs[CompiledPath(e, path)].mtime != 0
    ensures Make(e, fs, path, now).fs == fs
  {
  }

  /** A template modified after its compiled file is recompiled: the
      compiled file is replaced by the compilation of the template's current
      contents, written at time `now`. */
  lemma TouchedIsRecompiled(e: Engine, fs: Fs, path: string, now: int)
    requires path in fs && CompiledPath(e, path) in fs
    requires fs[CompiledPath(e, path)].mtime < fs[path].mtime
    ensures var c := CompiledPath(e, path);
            var after := Make(e, fs, path, now).fs;
            && c in after
            && after[c] == File(CompileString(ThemeOf(e, fs - {c}), fs[path].content), now)
  {
    var c := CompiledPath(e, path);
    assert Contents(fs - {c}, path) == fs[path].content;
  }

  /** Making a template twice compiles it at most once: the file written by
      the first call is fresh for the second, provided it is written at a
      truthy time no earlier than the template's and does not overwrite the
      template itself. */
  lemma MakeIdempotent(e: Engine, fs: Fs, path: string, now: int)
    requires now != 0
    requires path in fs ==> fs[path].mtime <= now
    requires CompiledPath(e, path) != path
    ensures var once := Make(e, fs, path, now).fs;
            Make(e, once, path, now).fs == once
  {
    var once := Make(e, fs, path, now).fs;
    var c := CompiledPath(e, path);
    if !Fresh(e, fs, path) {
      assert c in once && once[c].mtime == now;
      assert path in once ==> path in fs && once[path] == fs[path];
    }
    assert Fresh(e, once, path);
  }
}
