/** The raw-output filename fallback of `decode_command`, over POSIX paths
    (`os.path.basename` and `os.path.join` as posixpath defines them). */
module Paths {
  import opened Types

  const SEP: char := '/'
  /** The container extension stripped from the input's name. */
  const CONTAINER_EXT: string := ".hmd"

  /** `os.path.basename`: everything after the last separator. */
  function Basename(p: string): (r: string)
    ensures SEP !in r
    ensures |r| <= |p| && r == p[|p| - |r|..]
    ensures |r| < |p| ==> p[|p| - |r| - 1] == SEP
  {
    if |p| == 0 || p[|p| - 1] == SEP then []
    else
      var init := p[..|p| - 1];
      var r := Basename(init) + [p[|p| - 1]];
      assert p == init + [p[|p| - 1]];
      r
  }

  /** `os.path.join(a, b)`: an absolute b replaces a; otherwise one
      separator is inserted unless a is empty or already ends in one. */
  function Join(a: string, b: string): (r: string)
    ensures EndsWith(r, b)
    ensures StartsWith(b, [SEP]) ==> r == b
    ensures !StartsWith(b, [SEP]) ==> StartsWith(r, a) && |a| + |b| <= |r| <= |a| + |b| + 1
    ensures !StartsWith(b, [SEP]) && a != [] ==> r[|r| - |b| - 1] == SEP
    ensures !StartsWith(b, [SEP]) ==> (|r| == |a| + |b| + 1 <==> a != [] && !EndsWith(a, [SEP]))
  {
    if StartsWith(b, [SEP]) then b
    else if a == [] || EndsWith(a, [SEP]) then a + b
    else a + [SEP] + b
  }

  /** Removes exactly one trailing ".hmd", if there is one. */
  function StripContainerExt(name: string): (r: string)
    ensures EndsWith(name, CONTAINER_EXT) ==> r + CONTAINER_EXT == name
    ensures !EndsWith(name, CONTAINER_EXT) ==> r == name
  {
    if EndsWith(name, CONTAINER_EXT) then name[..|name| - |CONTAINER_EXT|] else name
  }

  /** The name a decoded raw file is written to: inside a directory target,
      the input's own name minus one ".hmd"; otherwise the target itself. */
  function RawOutputPath(outputIsDir: bool, outputPath: string, inputPath: string): (r: string)
    ensures !outputIsDir ==> r == outputPath
    ensures outputIsDir ==> StartsWith(r, outputPath)
    ensures outputIsDir ==> Basename(r) == StripContainerExt(Basename(inputPath))
    ensures outputIsDir ==>
              var name := StripContainerExt(Basename(inputPath));
              && (outputPath == [] ==> r == name)
              && (EndsWith(outputPath, [SEP]) ==> r == outputPath + name)
              && (outputPath != [] && !EndsWith(outputPath, [SEP]) ==> r == outputPath + [SEP] + name)
  {
    if outputIsDir then
      var name := StripContainerExt(Basename(inputPath));
      JoinName(outputPath, name);
      JoinRelative(outputPath, name);
      Join(outputPath, name)
    else outputPath
  }

  lemma {:induction false} BasenameOfName(b: string)
    requires SEP !in b
    ensures Basename(b) == b
    decreases |b|
  {
    if |b| > 0 {
      BasenameOfName(b[..|b| - 1]);
    }
  }

  lemma {:induction false} BasenameAfterSep(a: string, b: string)
    requires SEP !in b
    ensures Basename(a + [SEP] + b) == b
    decreases |b|
  {
    var p := a + [SEP] + b;
    if |b| == 0 {
      assert p[|p| - 1] == SEP;
    } else {
      var b' := b[..|b| - 1];
      var last := b[|b| - 1];
      assert last in b;
      assert p[|p| - 1] == last;
      assert p[..|p| - 1] == a + [SEP] + b';
      BasenameAfterSep(a, b');
      assert Basename(p) == Basename(p[..|p| - 1]) + [last];
      assert b == b' + [last];
    }
  }

  /** Joining a single name onto a directory keeps the directory as prefix
      and makes the name the basename. */
  lemma JoinName(a: string, b: string)
    requires SEP !in b
    ensures StartsWith(Join(a, b), a)
    ensures Basename(Join(a, b)) == b
  {
    assert !StartsWith(b, [SEP]) by {
      if |b| > 0 {
        assert b[0] in b;
      }
    }
    if a == [] {
      BasenameOfName(b);
    } else if EndsWith(a, [SEP]) {
      var a' := a[..|a| - 1];
      assert a == a' + [SEP];
      assert a + b == a' + [SEP] + b;
      BasenameAfterSep(a', b);
    } else {
      BasenameAfterSep(a, b);
    }
  }

  /** Joining a name without a separator: the name alone onto an empty
      directory, directly after a trailing separator, or after an inserted one. */
  lemma JoinRelative(a: string, b: string)
    requires SEP !in b
    ensures a == [] ==> Join(a, b) == b
    ensures EndsWith(a, [SEP]) ==> Join(a, b) == a + b
    ensures a != [] && !EndsWith(a, [SEP]) ==> Join(a, b) == a + [SEP] + b
  {
    assert !StartsWith(b, [SEP]) by {
      if |b| > 0 {
        assert b[0] in b;
      }
    }
  }

  /** Stripping inverts appending the extension, and removes only one even
      from "x.hmd.hmd". */
  lemma StripAppendedExt(name: string)
    ensures StripContainerExt(name + CONTAINER_EXT) == name
  {
    var n := name + CONTAINER_EXT;
    assert n[|n| - |CONTAINER_EXT|..] == CONTAINER_EXT;
  }
}
