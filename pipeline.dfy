/**
 * How the two scripts fit together: a list file the path collector writes
 * is read back by the merger's `iter_lines` as exactly the paths written,
 * one per line and in order, because a resolved path is absolute (it starts
 * with "/", so it is neither blank nor a comment) and ends in its file name.
 */
module Pipeline {
  import opened Wrappers
  import opened Strings
  import opened ListFile
  import opened AbsPaths
  import opened MergeSplitLists

  /**
   * A resolved parent directory: absolute, and free of "\n" and "\r", either
   * of which would end a line when the merger reads the list back.
   */
  predicate AbsoluteParent(p: FilePath) {
    StartsWith(p.parent, "/") && '\n' !in p.parent && '\r' !in p.parent
  }

  lemma TargetNameShape(name: string)
    requires name in TargetNames
    ensures name != [] && name[|name| - 1] == 'g' && '\n' !in name && '\r' !in name
  {
  }

  /** Joining adds only "/" to the directory and the name. */
  lemma JoinPathAvoids(dir: string, name: string, c: char)
    requires c != '/' && c !in dir && c !in name
    ensures c !in JoinPath(dir, name)
  {
    var s := JoinPath(dir, name);
    var sep := if dir == [] || dir == "." then [] else if dir[|dir| - 1] == '/' then dir else dir + "/";
    assert s == sep + name;
    assert c !in sep;
  }

  lemma JoinPathEndChars(dir: string, name: string)
    requires dir != [] && dir[0] == '/' && name != []
    ensures var s := JoinPath(dir, name); s != [] && s[0] == '/' && s[|s| - 1] == name[|name| - 1]
  {
    var sep := if dir[|dir| - 1] == '/' then dir else dir + "/";
    assert JoinPath(dir, name) == sep + name;
  }

  /** The string of a resolved target image path survives `iter_lines` unchanged. */
  lemma PathStringClean(p: FilePath)
    requires AbsoluteParent(p) && p.name in TargetNames
    ensures Clean(PathString(p))
  {
    var s := PathString(p);
    TargetNameShape(p.name);
    JoinPathAvoids(p.parent, p.name, '\n');
    JoinPathAvoids(p.parent, p.name, '\r');
    JoinPathEndChars(p.parent, p.name);
    assert s[0] == '/' && s[|s| - 1] == 'g';
    assert !IsSpace('/') && !IsSpace('g');
  }

  /**
   * Feeding a list the collector wrote for a split into the merger's
   * `iter_lines` gives back exactly that split's image paths, in the order
   * written, provided every qualifying entry resolves, under its own name,
   * into an absolute directory whose path holds neither "\n" nor "\r".
   */
  lemma ImageListReadsBack(es: seq<Entry>)
    requires forall e :: e in es && Qualifies(e) ==> AbsoluteParent(e.resolved) && e.resolved.name == e.name
    ensures IterLines(Render(PathStrings(FindTargetImages(Some(es))))) ==
            PathStrings(FindTargetImages(Some(es)))
  {
    var paths := FindTargetImages(Some(es));
    FindTargetImagesSpec(Some(es));
    var lines := PathStrings(paths);
    forall l | l in lines ensures Clean(l) {
      var k :| 0 <= k < |lines| && lines[k] == l;
      var p := paths[k];
      assert p in paths;
      var e :| e in es && Qualifies(e) && e.resolved == p;
      PathStringClean(p);
    }
    ReadBack(lines);
  }
}
