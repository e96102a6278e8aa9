/** The part of `pathlib.PurePosixPath` the application uses to read a file
    extension: `Path(f).name`, `Path(f).suffix`, and the extension check
    `Path(f).suffix.lower().lstrip('.') in allowed`. */
module Paths {
  import opened Text

  /** The pieces that survive path parsing: empty pieces (from repeated or
      trailing slashes) and `.` are dropped. */
  function KeepParts(pieces: seq<string>): (r: seq<string>)
    ensures forall x :: x in r ==> x in pieces
    ensures forall x :: x in r ==> x != [] && x != "."
    decreases |pieces|
  {
    if pieces == [] then []
    else
      var rest := KeepParts(pieces[1..]);
      if pieces[0] == [] || pieces[0] == "." then rest else [pieces[0]] + rest
  }

  function Parts(path: string): seq<string> {
    KeepParts(Split(path, '/'))
  }

  /** `Path(path).name`: the last part, or empty when there is none. */
  function Name(path: string): (n: string)
    ensures '/' !in n
  {
    var pieces := Split(path, '/');
    forall x | x in pieces
      ensures '/' !in x
    {
      var i :| 0 <= i < |pieces| && pieces[i] == x;
    }
    var parts := KeepParts(pieces);
    if parts == [] then [] else parts[|parts| - 1]
  }

  /** `str.rfind`: the index of the last `c`, or -1. */
  function RFind(s: string, c: char): (i: int)
    ensures -1 <= i < |s|
    ensures i >= 0 ==> s[i] == c
    ensures forall j :: i < j < |s| ==> s[j] != c
    decreases |s|
  {
    if s == [] then -1
    else if s[|s| - 1] == c then |s| - 1
    else RFind(s[..|s| - 1], c)
  }

  /** `Path(path).suffix`: from the last dot of the name, unless that dot is
      the name's first or last character. */
  function Suffix(path: string): (r: string)
    ensures r == [] || (|r| >= 2 && r[0] == '.' && '.' !in r[1..] && '/' !in r)
  {
    var n := Name(path);
    var i := RFind(n, '.');
    if 0 < i < |n| - 1 then n[i..] else []
  }

  /** `s.lstrip(c)`. */
  function LStrip(s: string, c: char): (r: string)
    ensures r == [] || r[0] != c
    ensures |r| <= |s| && r == s[|s| - |r|..]
    decreases |s|
  {
    if s != [] && s[0] == c then LStrip(s[1..], c) else s
  }

  /** `Path(filename).suffix.lower().lstrip('.')`: the lower-cased text after
      the last dot of the name, or empty when the name has no such dot. */
  function Extension(filename: string): string {
    LStrip(Lower(Suffix(filename)), '.')
  }

  lemma ExtensionSpec(filename: string)
    ensures var n := Name(filename); var i := RFind(n, '.');
      LStrip(Lower(Suffix(filename)), '.') == if 0 < i < |n| - 1 then Lower(n[i + 1..]) else []
    ensures var e := LStrip(Lower(Suffix(filename)), '.'); '.' !in e && '/' !in e
  {
    var n := Name(filename);
    var i := RFind(n, '.');
    if 0 < i < |n| - 1 {
      var tail := n[i + 1..];
      assert Suffix(filename) == ['.'] + tail;
      DotThenTail(tail);
    } else {
      assert Lower([]) == [];
    }
  }

  /** Lower-casing `.tail` and stripping leading dots leaves the lower-cased
      tail when the tail has no dot. */
  lemma DotThenTail(tail: string)
    requires tail != [] && '.' !in tail && '/' !in tail
    ensures LStrip(Lower(['.'] + tail), '.') == Lower(tail)
    ensures '.' !in Lower(tail) && '/' !in Lower(tail)
  {
    var y := Lower(['.'] + tail);
    assert y == ['.'] + Lower(tail);
    LowerKeepsAbsent(tail, '.');
    LowerKeepsAbsent(tail, '/');
    assert Lower(tail)[0] != '.';
    assert y[1..] == Lower(tail);
  }

  /** `validate_file_extension`: a non-empty name whose extension is one of
      the allowed ones. */
  predicate AllowedExtension(filename: string, allowed: seq<string>) {
    filename != [] && Extension(filename) in allowed
  }

  /** A name without slashes that is neither empty nor `.` is its own
      single part. */
  lemma NameOfPlainName(s: string)
    requires '/' !in s && s != [] && s != "."
    ensures Parts(s) == [s]
    ensures Name(s) == s
  {
    SplitWithoutSeparator(s, '/');
    assert KeepParts([s]) == [s] + KeepParts([]);
  }

  /** `base.ext` has extension `ext`, lower-cased. */
  lemma ExtensionAfterLastDot(base: string, ext: string)
    requires base != [] && '/' !in base
    requires ext != [] && '.' !in ext && '/' !in ext
    ensures Extension(base + ['.'] + ext) == Lower(ext)
  {
    var s := base + ['.'] + ext;
    NameOfPlainName(s);
    ExtensionSpec(s);
    LastDotAt(base, ext);
    assert s[|base| + 1..] == ext;
  }

  /** The last dot of `base.ext`, when `ext` has none, is the one before
      `ext`. */
  lemma LastDotAt(base: string, ext: string)
    requires '.' !in ext
    ensures RFind(base + ['.'] + ext, '.') == |base|
  {
    var s := base + ['.'] + ext;
    assert s[|base|] == '.';
  }

  /** A name whose only dot comes first (a hidden file such as `.jpg`) has
      no extension. */
  lemma NoExtensionForLeadingDot(ext: string)
    requires ext != [] && '.' !in ext && '/' !in ext
    ensures Extension(['.'] + ext) == []
  {
    var s := ['.'] + ext;
    NameOfPlainName(s);
    assert s[0] == '.';
  }

  /** A name ending in a dot has no extension. */
  lemma NoExtensionForTrailingDot(base: string)
    requires '/' !in base
    ensures Extension(base + ['.']) == []
  {
    var s := base + ['.'];
    if s != "." {
      NameOfPlainName(s);
    } else {
      assert Parts(s) == KeepParts(["."]);
    }
  }

  /** Only the last dot counts: a name with no dot has no extension. */
  lemma NoExtensionWithoutDot(s: string)
    requires '.' !in s && '/' !in s
    ensures Extension(s) == []
  {
    if s != [] {
      NameOfPlainName(s);
    } else {
      assert Split(s, '/') == [[]];
    }
  }
}
