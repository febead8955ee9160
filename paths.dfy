/** The data file and its three sibling paths (`persist`, index.js:24-31). */
module Paths {

  predicate EndsWith(s: string, suffix: string) {
    |suffix| <= |s| && s[|s| - |suffix|..] == suffix
  }

  lemma SuffixOfSuffix(a: string, b: string, c: string)
    requires |b| <= |a| && a[|a| - |b|..] == b && EndsWith(b, c)
    ensures EndsWith(a, b) && EndsWith(a, c)
  {
    assert a[|a| - |c|..] == b[|b| - |c|..];
  }

  predicate IsAbsolute(p: string) {
    |p| > 0 && p[0] == '/'
  }

  /** `path.extname(p) === '.json'` for a POSIX path without a trailing
      separator: the last segment ends in `.json` and is not `.json` itself
      (a leading dot starts no extension). */
  predicate HasJsonExtension(p: string) {
    EndsWith(p, ".json") && |p| > 5 && p[|p| - 6] != '/'
  }

  /** `if (path.extname(filename) !== '.json') filename += '.json'`. */
  function WithJsonExtension(p: string): (r: string)
    ensures EndsWith(r, ".json")
    ensures |p| <= |r| && r[..|p|] == p
    ensures r == p <==> HasJsonExtension(p)
  {
    if HasJsonExtension(p) then p else p + ".json"
  }

  /** `path.resolve(p)` against the working directory `cwd`: an absolute path
      stays as it is, a relative one is placed under `cwd`, with one
      separator between them (the root directory already ends in one). */
  function Resolve(cwd: string, p: string): (r: string)
    ensures |p| <= |r| && r[|r| - |p|..] == p
    ensures IsAbsolute(p) ==> r == p
    ensures IsAbsolute(cwd) ==> IsAbsolute(r)
    ensures !IsAbsolute(p) ==> r[..|r| - |p|] == if EndsWith(cwd, "/") then cwd else cwd + "/"
  {
    if IsAbsolute(p) then p else if EndsWith(cwd, "/") then cwd + p else cwd + "/" + p
  }

  /** `_FILE`, `_TEMP`, `_LOCK` and `_BACKUP`. */
  datatype Target = Target(file: string, temp: string, lock: string, backup: string)

  /** The staging, lock-marker and quarantine paths next to `file`. */
  function SiblingsOf(file: string): (t: Target)
    ensures t.file == file
    ensures t.file != t.temp && t.file != t.lock && t.file != t.backup
    ensures t.temp != t.lock && t.temp != t.backup && t.lock != t.backup
  {
    Target(file, file + ".tmp", file + ".lock", file + ".corrupt")
  }

  /** The target `persist(name)` selects: `.json` appended when missing, the
      result made absolute, the siblings derived from it. */
  function Derive(cwd: string, name: string): (t: Target)
    ensures EndsWith(t.file, ".json")
    ensures EndsWith(t.file, WithJsonExtension(name))
    ensures IsAbsolute(name) ==> t.file == WithJsonExtension(name)
    ensures IsAbsolute(cwd) ==> IsAbsolute(t.file)
    ensures t == SiblingsOf(t.file)
  {
    var p := WithJsonExtension(name);
    var file := Resolve(cwd, p);
    assert IsAbsolute(name) ==> IsAbsolute(p) by {
      if IsAbsolute(name) {
        assert p[0] == p[..|name|][0];
      }
    }
    SuffixOfSuffix(file, p, ".json");
    SiblingsOf(file)
  }

  /** A name with a last segment gets a real `.json` extension. */
  lemma ExtensionPresentAfter(name: string)
    requires name != [] && name[|name| - 1] != '/'
    ensures HasJsonExtension(WithJsonExtension(name))
  {
    var p := WithJsonExtension(name);
    if p != name {
      assert p == name + ".json";
      assert p[|p| - 6] == name[|name| - 1];
    }
  }

  /** Initialising again with the reported filename selects the same target,
      as long as the original name had a last segment of its own. */
  lemma ReinitialiseSameTarget(cwd: string, name: string)
    requires IsAbsolute(cwd)
    requires name != [] && name[|name| - 1] != '/'
    ensures Derive(cwd, Derive(cwd, name).file) == Derive(cwd, name)
  {
    var p := WithJsonExtension(name);
    ExtensionPresentAfter(name);
    var file := Resolve(cwd, p);
    assert file[|file| - 6..] == p[|p| - 6..];
    assert HasJsonExtension(file);
  }

}
