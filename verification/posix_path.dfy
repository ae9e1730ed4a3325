/** The two POSIX path operations the language resolver uses, following the
    behaviour of Node's `path.basename` and `path.extname` on POSIX systems:
    `/` is the only separator and trailing separators are ignored. */
module PosixPath {
  import opened Text

  /** `p` with every trailing `/` removed. */
  function TrimTrailingSlashes(p: string): (r: string)
    ensures |r| <= |p| && r == p[..|r|]
    ensures r == [] || r[|r| - 1] != '/'
    ensures forall j :: |r| <= j < |p| ==> p[j] == '/'
    decreases |p|
  {
    if |p| > 0 && p[|p| - 1] == '/' then TrimTrailingSlashes(p[..|p| - 1]) else p
  }

  /** `path.basename(p)`: the last component of `p`, ignoring trailing `/`:
      the longest `/`-free suffix of `p` once its trailing `/` are gone. */
  function Basename(p: string): (r: string)
    ensures '/' !in r
    ensures EndsWith(TrimTrailingSlashes(p), r)
    ensures var t := TrimTrailingSlashes(p);
            |r| == |t| || t[|t| - |r| - 1] == '/'
  {
    var t := TrimTrailingSlashes(p);
    var k := LastIndexOf(t, '/');
    t[k + 1..]
  }

  /** The extension of one path component: its suffix from its last `.`.
      It is empty when the component has no `.` after its first character
      (so `.bashrc` has no extension) and when the component is `..`;
      otherwise it starts with its only `.` and is a proper suffix of the
      component. */
  function ComponentExtension(name: string): (r: string)
    ensures r == [] <==> name == ".." || forall j :: 0 < j < |name| ==> name[j] != '.'
    ensures r != [] ==> EndsWith(name, r) && |r| < |name|
    ensures r != [] ==> r[0] == '.' && '.' !in r[1..]
  {
    var d := LastIndexOf(name, '.');
    if d <= 0 || name == ".." then [] else name[d..]
  }

  /** `path.extname(p)`: the extension of the last component of `p`. */
  function Extname(p: string): (r: string)
    ensures '/' !in r
    ensures r != [] ==> r[0] == '.' && '.' !in r[1..]
    ensures r != [] ==> EndsWith(Basename(p), r) && |r| < |Basename(p)|
  {
    ComponentExtension(Basename(p))
  }

  /** A component appended after a directory prefix (empty, or ending in `/`)
      is the base name of the joined path. */
  lemma BasenameOfJoin(dir: string, name: string)
    requires dir == [] || dir[|dir| - 1] == '/'
    requires name != [] && '/' !in name
    ensures Basename(dir + name) == name
  {
    var p := dir + name;
    assert p[|p| - 1] == name[|name| - 1];
    assert TrimTrailingSlashes(p) == p;
    var k := LastIndexOf(p, '/');
    assert forall j :: |dir| <= j < |p| ==> p[j] == name[j - |dir|];
    assert k < |dir|;
    assert dir != [] ==> p[|dir| - 1] == '/' && k == |dir| - 1;
    assert p[k + 1..] == name;
  }

  /** The extension of `stem + ext`, where `ext` is a dot followed by at
      least one character and no further dot, is `ext`. */
  lemma ComponentExtensionOfJoin(stem: string, ext: string)
    requires stem != []
    requires |ext| >= 2 && ext[0] == '.' && '.' !in ext[1..]
    ensures ComponentExtension(stem + ext) == ext
  {
    var name := stem + ext;
    assert ext == ['.'] + ext[1..];
    assert name == stem + ['.'] + ext[1..];
    LastIndexOfBefore(stem, '.', ext[1..]);
    assert name[|stem|..] == ext;
  }

  /** A file named `stem + ext` has extension `ext` whatever directory it sits
      in. */
  lemma ExtnameOfJoin(dir: string, stem: string, ext: string)
    requires dir == [] || dir[|dir| - 1] == '/'
    requires stem != [] && '/' !in stem
    requires |ext| >= 2 && ext[0] == '.' && '.' !in ext[1..] && '/' !in ext
    ensures Basename(dir + (stem + ext)) == stem + ext
    ensures Extname(dir + (stem + ext)) == ext
  {
    assert '/' !in stem + ext by {
      assert forall j :: 0 <= j < |stem + ext| ==>
        (stem + ext)[j] == (if j < |stem| then stem[j] else ext[j - |stem|]);
    }
    BasenameOfJoin(dir, stem + ext);
    ComponentExtensionOfJoin(stem, ext);
  }
}
