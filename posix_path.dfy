/**
  The parts of Python's `PurePosixPath` the exporter, the URL builder and the issue matcher
  rely on: the normalised parts of a path, its string form, its last part, the part's
  suffix and stem, and `joinpath`. A path that starts with exactly two slashes keeps them in
  Python; that case is not modelled (it is normalised like any other absolute path).
*/
module PosixPath {
  import opened Strings
  import opened Seqs

  /** A part survives normalisation unless it is empty or `.`. */
  predicate IsPart(p: string) {
    p != "" && p != "."
  }

  function KeepPart(): string -> bool {
    (p: string) => IsPart(p)
  }

  predicate IsAbsolute(s: string) {
    |s| > 0 && s[0] == '/'
  }

  /** The parts after the root: empty pieces and `.` dropped. */
  function Parts(s: string): (r: seq<string>)
    ensures forall k :: 0 <= k < |r| ==> IsPart(r[k]) && '/' !in r[k]
  {
    Filter(Split(s, '/'), KeepPart())
  }

  /** `str(PurePosixPath(s))`. */
  function Str(s: string): (r: string)
    ensures r != ""
  {
    var body := Join(Parts(s), "/");
    if IsAbsolute(s) then "/" + body else if body == "" then "." else body
  }

  /** `PurePosixPath(s).name`. */
  function Name(s: string): (r: string)
    ensures '/' !in r
  {
    var parts := Parts(s);
    if parts == [] then "" else parts[|parts| - 1]
  }

  /** The index of the last `.` of a part, or -1. */
  function LastDot(name: string): (i: int)
    ensures -1 <= i < |name|
    ensures i >= 0 ==> name[i] == '.'
    ensures forall j :: i < j < |name| ==> name[j] != '.'
    decreases |name|
  {
    if name == [] then -1
    else if name[|name| - 1] == '.' then |name| - 1
    else LastDot(name[..|name| - 1])
  }

  /** `.suffix` of a part: from its last dot, unless the dot is first or last. */
  function Suffix(name: string): (r: string)
    ensures r == "" || (r[0] == '.' && EndsWith(name, r) && '.' !in r[1..] && |r| < |name|)
  {
    var i := LastDot(name);
    if 0 < i < |name| - 1 then name[i..] else ""
  }

  /** `.stem` of a part: the part without its suffix. */
  function Stem(name: string): (r: string)
    ensures r + Suffix(name) == name
  {
    name[..|name| - |Suffix(name)|]
  }

  /** Characters after the last dot do not move it. */
  lemma {:induction false} LastDotAppend(a: string, b: string)
    requires '.' !in b
    ensures LastDot(a + b) == LastDot(a)
    decreases |b|
  {
    if b == [] {
      assert a + b == a;
    } else {
      var init := b[..|b| - 1];
      assert (a + b)[..|a + b| - 1] == a + init;
      LastDotAppend(a, init);
    }
  }

  /**
    A part has the suffix `ext` (a dot and dot-free characters) exactly when it ends in `ext`
    after at least one character: `.md` alone is a stem without a suffix.
  */
  lemma SuffixIs(name: string, ext: string)
    requires |ext| >= 2 && ext[0] == '.' && '.' !in ext[1..]
    ensures Suffix(name) == ext <==> EndsWith(name, ext) && |name| > |ext|
  {
    if EndsWith(name, ext) && |name| > |ext| {
      var stem := name[..|name| - |ext|];
      assert name == (stem + ".") + ext[1..];
      LastDotAppend(stem + ".", ext[1..]);
      assert name[|stem|..] == ext;
    }
  }

  /** `str(Path(prefix).joinpath(p))`: an absolute `p` replaces the prefix. */
  function JoinPath(prefix: string, p: string): string {
    if IsAbsolute(p) || prefix == "" then Str(p) else Str(prefix + "/" + p)
  }

  /** The string form of a relative path is its parts joined by `/`, and `.` when there are none. */
  lemma StrRelative(s: string)
    requires !IsAbsolute(s)
    ensures Parts(s) != [] ==> Str(s) == Join(Parts(s), "/")
    ensures Parts(s) == [] ==> Str(s) == "."
  {
  }

  /** Normalising twice is normalising once, for relative paths. */
  lemma {:induction false} PartsOfJoin(parts: seq<string>)
    requires forall k :: 0 <= k < |parts| ==> IsPart(parts[k]) && '/' !in parts[k]
    ensures Parts(Join(parts, "/")) == parts
    decreases |parts|
  {
    if parts == [] {
      assert Split("", '/') == [""];
    } else if |parts| == 1 {
      SplitFree(parts[0], '/');
      FilterSingleton(parts[0], KeepPart());
    } else {
      PartsOfJoin(parts[1..]);
      SplitAtFirst(parts[0], '/', Join(parts[1..], "/"));
      assert Join(parts, "/") == parts[0] + ['/'] + Join(parts[1..], "/");
      FilterConcat([parts[0]], Split(Join(parts[1..], "/"), '/'), KeepPart());
      FilterSingleton(parts[0], KeepPart());
      assert [parts[0]] + parts[1..] == parts;
    }
  }

  lemma StrIdempotent(s: string)
    requires !IsAbsolute(s)
    ensures Str(Str(s)) == Str(s)
  {
    var parts := Parts(s);
    if parts != [] {
      PartsOfJoin(parts);
    } else {
      SplitFree(".", '/');
      FilterSingleton(".", KeepPart());
    }
  }
}
