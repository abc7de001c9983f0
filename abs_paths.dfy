/**
 * The path collector (helper-utils/get-abs-paths-for-vqgan.py): for every
 * operation folder that exists under the dataset root and every split, it
 * lists the files named exactly `1.png` or `2.png` anywhere below
 * `<root>/<op>/<split>`, sorted by (parent directory, name), and writes them
 * one per line to `<op>_<split>.txt`.
 *
 * The file system is given as data: which operation folders exist, which
 * split folders exist in them, and for each split folder the entries its
 * recursive walk yields, each with the name the walk saw, whether it is a
 * file, and the absolute path `resolve()` gives for it.
 */
module AbsPaths {
  import opened Wrappers
  import opened Seqs
  import opened Strings
  import opened ListFile

  const Ops: seq<string> := ["remove", "translate", "rotate"]
  const Splits: seq<string> := ["train", "test", "val"]
  const TargetNames: set<string> := {"1.png", "2.png"}

  /**
   * One entry of the recursive walk of a split folder: the name it was found
   * under, whether it is (or links to) a regular file, and its resolved path.
   * Resolving follows symbolic links, so the resolved name can differ.
   */
  datatype Entry = Entry(name: string, isFile: bool, resolved: FilePath)

  /** A resolved path to a file: its parent directory and its name. */
  datatype FilePath = FilePath(parent: string, name: string)

  /**
   * The dataset root: its path, and for each operation folder that exists,
   * the split folders that exist in it with the entries found below each.
   */
  datatype Dataset = Dataset(root: string, ops: map<string, map<string, seq<Entry>>>)

  /** One list file `main` writes: directory, file name, content, and the count it reports. */
  datatype Output = Output(dir: string, name: string, text: string, count: nat)

  /** `str(p)` of a resolved path. */
  function PathString(p: FilePath): string {
    JoinPath(p.parent, p.name)
  }

  function PathStrings(ps: seq<FilePath>): (r: seq<string>)
    ensures |r| == |ps|
  {
    seq(|ps|, i requires 0 <= i < |ps| => PathString(ps[i]))
  }

  // ---------------------------------------------------------------------
  // find_target_images: the filter

  /** `p.is_file() and p.name in TARGET_NAMES`, on the name the walk found. */
  predicate Qualifies(e: Entry) {
    e.isFile && e.name in TargetNames
  }

  /**
   * The list comprehension of `find_target_images`, in walk order: the
   * resolved path of every qualifying entry.
   */
  function Qualifying(es: seq<Entry>): seq<FilePath> {
    if es == [] then []
    else (if Qualifies(es[0]) then [es[0].resolved] else []) + Qualifying(es[1..])
  }

  /** Every qualifying entry's resolved path is collected, and there are no more paths than entries. */
  lemma {:induction false} QualifyingHas(es: seq<Entry>)
    ensures |Qualifying(es)| <= |es|
    ensures forall e :: e in es && Qualifies(e) ==> e.resolved in Qualifying(es)
  {
    if es != [] {
      QualifyingHas(es[1..]);
      assert forall e :: e in es ==> e == es[0] || e in es[1..];
    }
  }

  /** Every path of the comprehension comes from a qualifying entry. */
  lemma {:induction false} QualifyingFrom(es: seq<Entry>, p: FilePath)
    requires p in Qualifying(es)
    ensures exists e :: e in es && Qualifies(e) && e.resolved == p
  {
    var rest := Qualifying(es[1..]);
    if Qualifies(es[0]) && p == es[0].resolved {
      assert es[0] in es;
    } else {
      assert p in rest;
      QualifyingFrom(es[1..], p);
      var e :| e in es[1..] && Qualifies(e) && e.resolved == p;
      assert e in es;
    }
  }

  lemma {:induction false} QualifyingAppend(a: seq<Entry>, b: seq<Entry>)
    ensures Qualifying(a + b) == Qualifying(a) + Qualifying(b)
  {
    if a != [] {
      assert (a + b)[1..] == a[1..] + b;
      QualifyingAppend(a[1..], b);
    } else {
      assert a + b == b;
    }
  }

  /** Moving one entry to the front of the walk moves its path (if any) to the front. */
  lemma QualifyingMoveFront(before: seq<Entry>, x: Entry, after: seq<Entry>)
    ensures multiset(Qualifying(before + ([x] + after))) ==
            multiset(Qualifying([x])) + multiset(Qualifying(before + after))
  {
    var qx, qb, qa := Qualifying([x]), Qualifying(before), Qualifying(after);
    QualifyingAppend(before, [x] + after);
    QualifyingAppend([x], after);
    QualifyingAppend(before, after);
    assert Qualifying(before + ([x] + after)) == qb + (qx + qa);
    assert Qualifying(before + after) == qb + qa;
  }

  /**
   * The walk's order does not matter to which paths the comprehension
   * finds, nor how often: reordering the entries reorders the paths.
   */
  lemma {:induction false} QualifyingPermutation(es1: seq<Entry>, es2: seq<Entry>)
    requires multiset(es1) == multiset(es2)
    ensures multiset(Qualifying(es1)) == multiset(Qualifying(es2))
    decreases |es1|
  {
    if es1 == [] {
      assert |es2| == |multiset(es2)| == 0;
    } else {
      var x := es1[0];
      assert x in multiset(es2);
      var k :| 0 <= k < |es2| && es2[k] == x;
      var before, after := es2[..k], es2[k + 1..];
      MultisetCut(es2, k);
      MultisetCut(es1, 0);
      assert es1[..0] + es1[1..] == es1[1..];
      var rest2 := before + after;
      QualifyingPermutation(es1[1..], rest2);
      QualifyingAppend([x], es1[1..]);
      QualifyingMoveFront(before, x, after);
    }
  }

  // ---------------------------------------------------------------------
  // find_target_images: the sort

  /** The sort key `(str(p.parent), p.name)`, compared as Python compares tuples. */
  predicate KeyLess(a: FilePath, b: FilePath) {
    Less(a.parent, b.parent) || (a.parent == b.parent && Less(a.name, b.name))
  }

  lemma KeyLessIrreflexive(a: FilePath)
    ensures !KeyLess(a, a)
  {
    LessIrreflexive(a.parent);
    LessIrreflexive(a.name);
  }

  lemma KeyLessTransitive(a: FilePath, b: FilePath, c: FilePath)
    requires KeyLess(a, b) && KeyLess(b, c)
    ensures KeyLess(a, c)
  {
    if Less(a.parent, b.parent) && Less(b.parent, c.parent) {
      LessTransitive(a.parent, b.parent, c.parent);
    } else if a.parent == b.parent && b.parent == c.parent {
      LessTransitive(a.name, b.name, c.name);
    }
  }

  /** Two different paths always compare one way or the other. */
  lemma KeyLessTotal(a: FilePath, b: FilePath)
    ensures a == b || KeyLess(a, b) || KeyLess(b, a)
  {
    LessTotal(a.parent, b.parent);
    LessTotal(a.name, b.name);
  }

  /** Ascending by key: no later path has a smaller key than an earlier one. */
  predicate KeySorted(s: seq<FilePath>) {
    forall i, j :: 0 <= i < j < |s| ==> !KeyLess(s[j], s[i])
  }

  lemma InsertFrontSorted(x: FilePath, s: seq<FilePath>)
    requires KeySorted(s) && s != [] && KeyLess(x, s[0])
    ensures KeySorted([x] + s)
  {
    forall j | 0 <= j < |s| ensures !KeyLess(s[j], x) {
      if KeyLess(s[j], x) {
        KeyLessTransitive(s[j], x, s[0]);
        KeyLessIrreflexive(s[0]);
      }
    }
  }

  /** A path no greater than any path of a sorted list can go in front of it. */
  lemma ConsSorted(h: FilePath, t: seq<FilePath>)
    requires KeySorted(t)
    requires forall y :: y in t ==> !KeyLess(y, h)
    ensures KeySorted([h] + t)
  {
    forall i, j | 0 <= i < j < |[h] + t| ensures !KeyLess(([h] + t)[j], ([h] + t)[i]) {
      if i == 0 {
        assert ([h] + t)[j] == t[j - 1] && t[j - 1] in t;
      } else {
        assert ([h] + t)[j] == t[j - 1] && ([h] + t)[i] == t[i - 1];
      }
    }
  }

  /**
   * Inserts `x` after every path whose key is not greater, so that paths
   * with equal keys keep their order, as Python's stable sort does.
   */
  function InsertByKey(x: FilePath, s: seq<FilePath>): seq<FilePath> {
    if s == [] then [x]
    else if KeyLess(x, s[0]) then [x] + s
    else [s[0]] + InsertByKey(x, s[1..])
  }

  /** Inserting into a key-sorted list keeps it sorted and adds exactly `x`. */
  lemma {:induction false} InsertByKeySpec(x: FilePath, s: seq<FilePath>)
    requires KeySorted(s)
    ensures KeySorted(InsertByKey(x, s))
    ensures multiset(InsertByKey(x, s)) == multiset(s) + multiset{x}
  {
    if s == [] {
    } else if KeyLess(x, s[0]) {
      InsertFrontSorted(x, s);
      assert s == [s[0]] + s[1..];
    } else {
      var t := InsertByKey(x, s[1..]);
      assert KeySorted(s[1..]);
      InsertByKeySpec(x, s[1..]);
      assert InsertByKey(x, s) == [s[0]] + t;
      assert s == [s[0]] + s[1..];
      assert multiset(s) == multiset{s[0]} + multiset(s[1..]);
      NoneBelowHead(x, s, t);
      ConsSorted(s[0], t);
    }
  }

  /** What follows the head of a sorted list, plus a path not below the head, stays not below it. */
  lemma NoneBelowHead(x: FilePath, s: seq<FilePath>, t: seq<FilePath>)
    requires KeySorted(s) && s != [] && !KeyLess(x, s[0])
    requires multiset(t) == multiset(s[1..]) + multiset{x}
    ensures forall y :: y in t ==> !KeyLess(y, s[0])
  {
    forall y | y in t ensures !KeyLess(y, s[0]) {
      assert y in multiset(t);
      if y != x {
        assert y in multiset(s[1..]);
        var k :| 0 <= k < |s[1..]| && s[1..][k] == y;
        assert s[k + 1] == y;
      }
    }
  }

  /** `paths.sort(key=...)`, as a stable insertion sort. */
  function SortByKey(s: seq<FilePath>): seq<FilePath> {
    if s == [] then [] else InsertByKey(s[|s| - 1], SortByKey(s[..|s| - 1]))
  }

  /** The sort returns its input, permuted into ascending key order. */
  lemma {:induction false} SortByKeySpec(s: seq<FilePath>)
    ensures KeySorted(SortByKey(s))
    ensures multiset(SortByKey(s)) == multiset(s)
  {
    if s != [] {
      var init, last := s[..|s| - 1], s[|s| - 1];
      SortByKeySpec(init);
      SortByKeyStep(init, last, s);
    }
  }

  lemma SortByKeyStep(init: seq<FilePath>, last: FilePath, s: seq<FilePath>)
    requires s == init + [last]
    requires KeySorted(SortByKey(init)) && multiset(SortByKey(init)) == multiset(init)
    ensures KeySorted(SortByKey(s))
    ensures multiset(SortByKey(s)) == multiset(s)
  {
    var sorted := SortByKey(init);
    InsertByKeySpec(last, sorted);
    assert s[..|s| - 1] == init;
    assert SortByKey(s) == InsertByKey(last, sorted);
  }

  /** Two key-sorted arrangements of the same paths start with the same path. */
  lemma KeySortedSameHead(a: seq<FilePath>, b: seq<FilePath>)
    requires KeySorted(a) && KeySorted(b) && a != [] && b != []
    requires a[0] in b && b[0] in a
    ensures a[0] == b[0]
  {
    var j :| 0 <= j < |b| && b[j] == a[0];
    var i :| 0 <= i < |a| && a[i] == b[0];
    KeyLessIrreflexive(a[0]);
    assert !KeyLess(a[0], b[0]) by {
      if j > 0 {
        assert !KeyLess(b[j], b[0]);
      }
    }
    assert !KeyLess(b[0], a[0]) by {
      if i > 0 {
        assert !KeyLess(a[i], a[0]);
      }
    }
    KeyLessTotal(a[0], b[0]);
  }

  lemma KeySortedTail(s: seq<FilePath>)
    requires KeySorted(s) && s != []
    ensures KeySorted(s[1..])
  {
    forall i, j | 0 <= i < j < |s[1..]| ensures !KeyLess(s[1..][j], s[1..][i]) {
      assert s[1..][i] == s[i + 1] && s[1..][j] == s[j + 1];
    }
  }

  lemma MultisetTail(a: seq<FilePath>)
    requires a != []
    ensures multiset(a[1..]) == multiset(a) - multiset{a[0]}
  {
    assert a == [a[0]] + a[1..];
  }

  /**
   * A key-sorted arrangement of a collection of paths is unique, since the
   * key is the whole path: the sorted list is determined by which paths
   * there are, however the walk ordered them.
   */
  lemma {:induction false} KeySortedUnique(a: seq<FilePath>, b: seq<FilePath>)
    requires KeySorted(a) && KeySorted(b)
    requires multiset(a) == multiset(b)
    ensures a == b
  {
    assert |a| == |multiset(a)| == |multiset(b)| == |b|;
    if a != [] {
      assert a[0] in multiset(b) && b[0] in multiset(a);
      KeySortedSameHead(a, b);
      MultisetTail(a);
      MultisetTail(b);
      KeySortedTail(a);
      KeySortedTail(b);
      KeySortedUnique(a[1..], b[1..]);
      assert a == [a[0]] + a[1..] && b == [b[0]] + b[1..];
    }
  }

  /**
   * `find_target_images(split_dir)`: an absent split folder gives the empty
   * list; otherwise the resolved paths of the qualifying entries, sorted by
   * (parent, name).
   */
  function FindTargetImages(split: Option<seq<Entry>>): seq<FilePath> {
    match split
    case None => []
    case Some(es) => SortByKey(Qualifying(es))
  }

  /**
   * The list is sorted by (parent, name) and is a permutation of the
   * comprehension: every qualifying entry's resolved path is in it, and
   * every path in it is the resolved path of a qualifying entry. A missing
   * split folder gives the empty list.
   */
  lemma FindTargetImagesSpec(split: Option<seq<Entry>>)
    ensures var r := FindTargetImages(split);
      && (split.None? ==> r == [])
      && KeySorted(r)
      && (split.Some? ==> multiset(r) == multiset(Qualifying(split.value)))
      && (split.Some? ==> forall e :: e in split.value && Qualifies(e) ==> e.resolved in r)
      && (split.Some? ==> forall p :: p in r ==>
            exists e :: e in split.value && Qualifies(e) && e.resolved == p)
  {
    if split.Some? {
      var r := FindTargetImages(split);
      var q := Qualifying(split.value);
      SortByKeySpec(q);
      QualifyingHas(split.value);
      forall p ensures p in r <==> p in q {
        assert p in r <==> p in multiset(r);
      }
      forall p | p in r ensures exists e :: e in split.value && Qualifies(e) && e.resolved == p {
        QualifyingFrom(split.value, p);
      }
    }
  }

  /**
   * When resolving keeps the names (no target file is reached through a
   * symbolic link under another name), every listed path is named `1.png`
   * or `2.png`.
   */
  lemma FindTargetImagesNames(es: seq<Entry>)
    requires forall e :: e in es && Qualifies(e) ==> e.resolved.name == e.name
    ensures forall p :: p in FindTargetImages(Some(es)) ==> p.name in TargetNames
  {
    FindTargetImagesSpec(Some(es));
  }

  /**
   * Deterministic output: two walks that yield the same entries in any
   * order give the same list.
   */
  lemma FindTargetImagesDeterministic(es1: seq<Entry>, es2: seq<Entry>)
    requires multiset(es1) == multiset(es2)
    ensures FindTargetImages(Some(es1)) == FindTargetImages(Some(es2))
  {
    QualifyingPermutation(es1, es2);
    FindTargetImagesSpec(Some(es1));
    FindTargetImagesSpec(Some(es2));
    KeySortedUnique(FindTargetImages(Some(es1)), FindTargetImages(Some(es2)));
  }

  // ---------------------------------------------------------------------
  // write_list

  /**
   * A one-shot iterator over paths, such as a generator: each step yields the
   * next path and uses it up, so a second pass finds nothing left.
   */
  class PathIterator {
    const items: seq<FilePath>
    var pos: nat

    predicate Valid()
      reads this
    {
      pos <= |items|
    }

    /** What the iterator has still to yield, which is also what `list(it)` collects. */
    function Rest(): seq<FilePath>
      reads this
      requires Valid()
    {
      items[pos..]
    }

    constructor (items: seq<FilePath>)
      ensures Valid() && this.items == items && Rest() == items
    {
      this.items := items;
      pos := 0;
    }

    /** `next(it)`: the next path, or None once the iterator is spent. */
    method Next() returns (p: Option<FilePath>)
      requires Valid()
      modifies this
      ensures Valid()
      ensures old(Rest()) == [] ==> p == None && Rest() == []
      ensures old(Rest()) != [] ==> p == Some(old(Rest())[0]) && Rest() == old(Rest())[1..]
    {
      if pos == |items| {
        p := None;
      } else {
        p := Some(items[pos]);
        pos := pos + 1;
      }
    }
  }

  /**
   * What `write_list` can be handed: a list, which every `for` loop and every
   * `list(...)` traverses afresh from its start, or a one-shot iterator, whose
   * position is shared by everything that iterates it.
   */
  datatype PathsArg = PathList(items: seq<FilePath>) | PathIter(it: PathIterator)

  /** The objects iterating `paths` changes: the iterator itself, or nothing for a list. */
  function Consumed(paths: PathsArg): set<object> {
    if paths.PathIter? then {paths.it} else {}
  }

  /** `iter(paths)`: a fresh iterator over a list, the iterator itself otherwise. */
  method Iter(paths: PathsArg) returns (it: PathIterator)
    requires paths.PathIter? ==> paths.it.Valid()
    ensures it.Valid()
    ensures paths.PathList? ==> fresh(it) && it.Rest() == paths.items
    ensures paths.PathIter? ==> it == paths.it
  {
    if paths.PathList? {
      it := new PathIterator(paths.items);
    } else {
      it := paths.it;
    }
  }

  /** Collects what `it` has left to yield, using it up. */
  method Drain(it: PathIterator) returns (ps: seq<FilePath>)
    requires it.Valid()
    modifies it
    ensures it.Valid() && ps == old(it.Rest()) && it.Rest() == []
  {
    ghost var all := it.Rest();
    ps := [];
    var next := it.Next();
    while next.Some?
      invariant it.Valid()
      invariant next.Some? ==> ps + [next.value] + it.Rest() == all
      invariant next.None? ==> ps == all && it.Rest() == []
      decreases |it.Rest()| + (if next.Some? then 1 else 0)
    {
      ps := ps + [next.value];
      next := it.Next();
    }
  }

  /** `list(paths)`: a list as it stands, or whatever an iterator has left, which it uses up. */
  method ListOf(paths: PathsArg) returns (ps: seq<FilePath>)
    requires paths.PathIter? ==> paths.it.Valid()
    modifies Consumed(paths)
    ensures paths.PathList? ==> ps == paths.items
    ensures paths.PathIter? ==> paths.it.Valid() && ps == old(paths.it.Rest()) && paths.it.Rest() == []
  {
    var it := Iter(paths);
    ps := Drain(it);
  }

  /** The `for` loop of `write_list` over an iterator: `str(p) + "\n"` for each path it yields. */
  method WriteFrom(it: PathIterator) returns (text: string)
    requires it.Valid()
    modifies it
    ensures it.Valid() && text == Render(PathStrings(old(it.Rest()))) && it.Rest() == []
  {
    ghost var all := it.Rest();
    ghost var done: seq<FilePath> := [];
    text := [];
    var next := it.Next();
    while next.Some?
      invariant it.Valid()
      invariant next.Some? ==> done + [next.value] + it.Rest() == all
      invariant next.None? ==> done == all && it.Rest() == []
      invariant text == Render(PathStrings(done))
      decreases |it.Rest()| + (if next.Some? then 1 else 0)
    {
      var p := next.value;
      assert PathStrings(done + [p]) == PathStrings(done) + [PathString(p)];
      RenderSnoc(PathStrings(done), PathString(p));
      text := text + PathString(p) + "\n";
      done := done + [p];
      next := it.Next();
    }
  }

  /** The loop of `write_list`: `str(p) + "\n"` for each path, in order. */
  method WritePaths(paths: seq<FilePath>) returns (text: string)
    ensures text == Render(PathStrings(paths))
  {
    text := [];
    var i := 0;
    while i < |paths|
      invariant 0 <= i <= |paths|
      invariant text == Render(PathStrings(paths[..i]))
    {
      assert PathStrings(paths[..i + 1]) == PathStrings(paths[..i]) + [PathString(paths[i])];
      RenderSnoc(PathStrings(paths[..i]), PathString(paths[i]));
      text := text + PathString(paths[i]) + "\n";
      i := i + 1;
    }
    assert paths[..i] == paths;
  }

  /**
   * `write_list` as written: a `for` loop writes `str(p) + "\n"` for each path
   * `iter(paths)` yields, and only then is `len(list(paths))` taken. A list is
   * counted in full; an iterator the loop has spent has nothing left to count.
   */
  method WriteListAsWritten(paths: PathsArg) returns (text: string, count: nat)
    requires paths.PathIter? ==> paths.it.Valid()
    modifies Consumed(paths)
    ensures paths.PathList? ==> text == Render(PathStrings(paths.items)) && count == |paths.items|
    ensures paths.PathIter? ==> paths.it.Valid() && paths.it.Rest() == []
    ensures paths.PathIter? ==> text == Render(PathStrings(old(paths.it.Rest()))) && count == 0
  {
    var it := Iter(paths);
    text := WriteFrom(it);
    var rest := ListOf(paths);
    count := |rest|;
  }

  /**
   * Handed a fresh iterator over one or more paths, `write_list` as written
   * writes them all and reports that it wrote none.
   */
  method IteratorMiscounted(items: seq<FilePath>) returns (text: string, count: nat)
    requires items != []
    ensures text == Render(PathStrings(items)) && text != []
    ensures count == 0
  {
    var it := new PathIterator(items);
    text, count := WriteListAsWritten(PathIter(it));
    assert PathStrings(items) != [];
  }

  /**
   * `write_list` reporting how many paths it wrote: it takes `list(paths)`
   * once, writes one line per path of it and counts that list, so a list and
   * an iterator over the same paths give the same file and the same count.
   */
  method WriteList(paths: PathsArg) returns (text: string, count: nat)
    requires paths.PathIter? ==> paths.it.Valid()
    modifies Consumed(paths)
    ensures paths.PathList? ==> text == Render(PathStrings(paths.items)) && count == |paths.items|
    ensures paths.PathIter? ==> text == Render(PathStrings(old(paths.it.Rest()))) && count == |old(paths.it.Rest())|
  {
    var ps := ListOf(paths);
    text := WritePaths(ps);
    count := |ps|;
  }

  /** The count `write_list` reports is the number of lines in the file it wrote. */
  lemma WriteListCountsLines(paths: seq<FilePath>)
    requires forall p :: p in paths ==> '\n' !in PathString(p)
    ensures |Lines(Render(PathStrings(paths)))| == |paths|
  {
    var strs := PathStrings(paths);
    forall l | l in strs ensures '\n' !in l {
      var k :| 0 <= k < |strs| && strs[k] == l;
      assert paths[k] in paths;
    }
    LinesOfRender(strs);
  }

  // ---------------------------------------------------------------------
  // main

  /** `f"{op}_{split}.txt"` */
  function OutputName(op: string, split: string): string {
    op + "_" + split + ".txt"
  }

  /** `root / op` */
  function OpDir(ds: Dataset, op: string): string {
    JoinPath(ds.root, op)
  }

  /** `find_target_images(op_dir / split)`'s input: the split folder, if it exists. */
  function SplitEntries(ds: Dataset, op: string, split: string): Option<seq<Entry>>
    requires op in ds.ops
  {
    if split in ds.ops[op] then Some(ds.ops[op][split]) else None
  }

  /** The list file `main` writes for an existing operation and a split. */
  function ListFor(ds: Dataset, outdir: Option<string>, op: string, split: string): Output
    requires op in ds.ops
  {
    var paths := FindTargetImages(SplitEntries(ds, op, split));
    Output(outdir.GetOr(OpDir(ds, op)), OutputName(op, split), Render(PathStrings(paths)), |paths|)
  }

  /** The files written for one operation: none if its folder is missing, else one per split. */
  function OpOutputs(ds: Dataset, outdir: Option<string>, op: string, splits: seq<string>): (r: seq<Output>)
    ensures op !in ds.ops ==> r == []
    ensures op in ds.ops ==> |r| == |splits|
  {
    if op !in ds.ops then []
    else seq(|splits|, j requires 0 <= j < |splits| => ListFor(ds, outdir, op, splits[j]))
  }

  /** The files written for `ops`, operation by operation. */
  function Collected(ds: Dataset, outdir: Option<string>, ops: seq<string>, splits: seq<string>): seq<Output> {
    if ops == [] then []
    else Collected(ds, outdir, ops[..|ops| - 1], splits) + OpOutputs(ds, outdir, ops[|ops| - 1], splits)
  }

  lemma CollectedSnoc(ds: Dataset, outdir: Option<string>, ops: seq<string>, splits: seq<string>, i: nat)
    requires i < |ops|
    ensures Collected(ds, outdir, ops[..i + 1], splits) ==
            Collected(ds, outdir, ops[..i], splits) + OpOutputs(ds, outdir, ops[i], splits)
  {
    assert ops[..i + 1][..i] == ops[..i];
  }

  lemma OpOutputsSnoc(ds: Dataset, outdir: Option<string>, op: string, splits: seq<string>, j: nat)
    requires op in ds.ops && j < |splits|
    ensures OpOutputs(ds, outdir, op, splits[..j + 1]) ==
            OpOutputs(ds, outdir, op, splits[..j]) + [ListFor(ds, outdir, op, splits[j])]
  {
    var longer, shorter := OpOutputs(ds, outdir, op, splits[..j + 1]), OpOutputs(ds, outdir, op, splits[..j]);
    assert |longer| == j + 1 && |shorter| == j;
    forall m | 0 <= m < j ensures longer[m] == shorter[m] {
      assert splits[..j + 1][m] == splits[m] == splits[..j][m];
    }
    assert longer[j] == ListFor(ds, outdir, op, splits[j]);
  }

  /** One pass of `main`'s inner loop: find the images of one split and write their list. */
  method WriteSplitList(ds: Dataset, outdir: Option<string>, op: string, split: string) returns (o: Output)
    requires op in ds.ops
    ensures o == ListFor(ds, outdir, op, split)
  {
    var paths := FindTargetImages(SplitEntries(ds, op, split));
    var targetOutdir := outdir.GetOr(OpDir(ds, op));
    var text, count := WriteListAsWritten(PathList(paths));
    o := Output(targetOutdir, OutputName(op, split), text, count);
  }

  /** `main`'s inner loop for an operation whose folder exists: one list per split, in order. */
  method WriteOpLists(ds: Dataset, outdir: Option<string>, op: string) returns (outs: seq<Output>)
    requires op in ds.ops
    ensures outs == OpOutputs(ds, outdir, op, Splits)
  {
    outs := [];
    var j := 0;
    while j < |Splits|
      invariant 0 <= j <= |Splits|
      invariant outs == OpOutputs(ds, outdir, op, Splits[..j])
    {
      var o := WriteSplitList(ds, outdir, op, Splits[j]);
      OpOutputsSnoc(ds, outdir, op, Splits, j);
      outs := outs + [o];
      j := j + 1;
    }
    assert Splits[..j] == Splits;
  }

  /**
   * `main`: skips an operation whose folder is missing; otherwise writes one
   * list per split, into `--outdir` if given, else into the operation folder.
   */
  method CollectLists(ds: Dataset, outdir: Option<string>) returns (outs: seq<Output>)
    ensures outs == Collected(ds, outdir, Ops, Splits)
  {
    outs := [];
    var i := 0;
    while i < |Ops|
      invariant 0 <= i <= |Ops|
      invariant outs == Collected(ds, outdir, Ops[..i], Splits)
    {
      var op := Ops[i];
      CollectedSnoc(ds, outdir, Ops, Splits, i);
      if op in ds.ops {
        var opOuts := WriteOpLists(ds, outdir, op);
        outs := outs + opOuts;
      }
      i := i + 1;
    }
    assert Ops[..i] == Ops;
  }

  // ---------------------------------------------------------------------
  // What main writes

  /** The operations of `ops` whose folders exist, in order. */
  function PresentOps(ds: Dataset, ops: seq<string>): (r: seq<string>)
    ensures |r| <= |ops|
  {
    if ops == [] then []
    else PresentOps(ds, ops[..|ops| - 1]) + (if ops[|ops| - 1] in ds.ops then [ops[|ops| - 1]] else [])
  }

  /**
   * Kept as a lemma of its own: in the context of `CollectedLength` this
   * non-linear step is beyond the solver's budget.
   */
  lemma MulSucc(a: nat, b: nat)
    ensures a * (b + 1) == a * b + a
  {
  }

  /** One list per split for each operation whose folder exists, and no other. */
  lemma {:induction false} CollectedLength(ds: Dataset, outdir: Option<string>, ops: seq<string>, splits: seq<string>)
    ensures |Collected(ds, outdir, ops, splits)| == |splits| * |PresentOps(ds, ops)|
  {
    if ops != [] {
      var init := ops[..|ops| - 1];
      CollectedLength(ds, outdir, init, splits);
      var last := ops[|ops| - 1];
      var p := |PresentOps(ds, init)|;
      assert |Collected(ds, outdir, ops, splits)| ==
             |Collected(ds, outdir, init, splits)| + |OpOutputs(ds, outdir, last, splits)|;
      if last in ds.ops {
        assert |PresentOps(ds, ops)| == p + 1;
        MulSucc(|splits|, p);
      } else {
        assert |PresentOps(ds, ops)| == p;
      }
    }
  }

  /**
   * The files written are exactly the lists `ListFor` describes, one for
   * each operation whose folder exists and each split.
   */
  lemma {:induction false} CollectedMembers(ds: Dataset, outdir: Option<string>, ops: seq<string>, splits: seq<string>, o: Output)
    ensures o in Collected(ds, outdir, ops, splits) <==>
            exists op, split :: op in ops && op in ds.ops && split in splits && o == ListFor(ds, outdir, op, split)
  {
    if o in Collected(ds, outdir, ops, splits) {
      CollectedFrom(ds, outdir, ops, splits, o);
    }
    if exists op, split :: op in ops && op in ds.ops && split in splits && o == ListFor(ds, outdir, op, split) {
      var op, split :| op in ops && op in ds.ops && split in splits && o == ListFor(ds, outdir, op, split);
      CollectedHas(ds, outdir, ops, splits, op, split);
    }
  }

  /** A list written for one operation is that operation's list for one of the splits. */
  lemma OpOutputsFrom(ds: Dataset, outdir: Option<string>, op: string, splits: seq<string>, o: Output)
    requires o in OpOutputs(ds, outdir, op, splits)
    ensures op in ds.ops
    ensures exists split :: split in splits && o == ListFor(ds, outdir, op, split)
  {
    var m :| 0 <= m < |splits| && OpOutputs(ds, outdir, op, splits)[m] == o;
    assert splits[m] in splits;
  }

  /** Every list written is the list of a present operation and one of the splits. */
  lemma {:induction false} CollectedFrom(ds: Dataset, outdir: Option<string>, ops: seq<string>, splits: seq<string>, o: Output)
    requires o in Collected(ds, outdir, ops, splits)
    ensures exists op, split :: op in ops && op in ds.ops && split in splits && o == ListFor(ds, outdir, op, split)
  {
    var init := ops[..|ops| - 1];
    var last := ops[|ops| - 1];
    var before, mine := Collected(ds, outdir, init, splits), OpOutputs(ds, outdir, last, splits);
    assert Collected(ds, outdir, ops, splits) == before + mine;
    assert ops == init + [last];
    if o in before {
      CollectedFrom(ds, outdir, init, splits, o);
      var op, split :| op in init && op in ds.ops && split in splits && o == ListFor(ds, outdir, op, split);
      assert op in ops;
    } else {
      OpOutputsFrom(ds, outdir, last, splits, o);
      var split :| split in splits && o == ListFor(ds, outdir, last, split);
      assert last in ops;
    }
  }

  /** The list of every present operation and every split is written. */
  lemma {:induction false} CollectedHas(ds: Dataset, outdir: Option<string>, ops: seq<string>, splits: seq<string>, op: string, split: string)
    requires op in ops && op in ds.ops && split in splits
    ensures ListFor(ds, outdir, op, split) in Collected(ds, outdir, ops, splits)
  {
    var init := ops[..|ops| - 1];
    var last := ops[|ops| - 1];
    var before, mine := Collected(ds, outdir, init, splits), OpOutputs(ds, outdir, last, splits);
    assert Collected(ds, outdir, ops, splits) == before + mine;
    if op == last {
      var m :| 0 <= m < |splits| && splits[m] == split;
      assert mine[m] == ListFor(ds, outdir, op, split);
    } else {
      assert op in init by {
        assert ops == init + [last];
      }
      CollectedHas(ds, outdir, init, splits, op, split);
    }
  }

  /** The list file names `<op>_<split>.txt` tell operations and splits apart, as long as no operation name holds "_". */
  lemma OutputNameInjective(op1: string, split1: string, op2: string, split2: string)
    requires '_' !in op1 && '_' !in op2
    requires OutputName(op1, split1) == OutputName(op2, split2)
    ensures op1 == op2 && split1 == split2
  {
    var t := OutputName(op1, split1);
    assert t == op1 + ("_" + split1 + ".txt") && t == op2 + ("_" + split2 + ".txt");
    assert t[|op1|] == '_' && t[|op2|] == '_';
    assert |op1| == |op2|;
    assert op1 == t[..|op1|] == op2;
    assert split1 + ".txt" == t[|op1| + 1..] == split2 + ".txt";
    assert split1 == (split1 + ".txt")[..|split1|];
    assert split2 == (split2 + ".txt")[..|split2|];
  }

  /** The file names of a list of outputs, in order. */
  function Names(outs: seq<Output>): (r: seq<string>)
    ensures |r| == |outs|
  {
    seq(|outs|, i requires 0 <= i < |outs| => outs[i].name)
  }

  lemma NamesAppend(a: seq<Output>, b: seq<Output>)
    ensures Names(a + b) == Names(a) + Names(b)
  {
  }

  /** Every list written is named after one of the operations and one of the splits. */
  lemma CollectedNameOf(ds: Dataset, outdir: Option<string>, ops: seq<string>, splits: seq<string>, o: Output)
    requires o in Collected(ds, outdir, ops, splits)
    ensures exists op, split :: op in ops && split in splits && o.name == OutputName(op, split)
  {
    CollectedFrom(ds, outdir, ops, splits, o);
    var op, split :| op in ops && op in ds.ops && split in splits && o == ListFor(ds, outdir, op, split);
    assert o.name == OutputName(op, split);
  }

  /** One operation's lists carry distinct names when the splits are distinct. */
  lemma OpOutputsNamesNoDup(ds: Dataset, outdir: Option<string>, op: string, splits: seq<string>)
    requires NoDup(splits) && '_' !in op
    ensures NoDup(Names(OpOutputs(ds, outdir, op, splits)))
    ensures forall z :: z in Names(OpOutputs(ds, outdir, op, splits)) ==>
              exists split :: split in splits && z == OutputName(op, split)
  {
    var ns := Names(OpOutputs(ds, outdir, op, splits));
    if op in ds.ops {
      assert forall m :: 0 <= m < |ns| ==> ns[m] == OutputName(op, splits[m]);
      forall i, j | 0 <= i < j < |ns| ensures ns[i] != ns[j] {
        if ns[i] == ns[j] {
          OutputNameInjective(op, splits[i], op, splits[j]);
        }
      }
      forall z | z in ns ensures exists split :: split in splits && z == OutputName(op, split) {
        var m :| 0 <= m < |ns| && ns[m] == z;
        assert splits[m] in splits;
      }
    }
  }

  /**
   * Distinct operations and distinct splits give distinct file names, so no
   * list overwrites another written in the same run.
   */
  lemma {:induction false} CollectedNamesNoDup(ds: Dataset, outdir: Option<string>, ops: seq<string>, splits: seq<string>)
    requires NoDup(ops) && NoDup(splits)
    requires forall op :: op in ops ==> '_' !in op
    ensures NoDup(Names(Collected(ds, outdir, ops, splits)))
  {
    if ops != [] {
      var init := ops[..|ops| - 1];
      var last := ops[|ops| - 1];
      assert NoDup(init) by {
        forall i, j | 0 <= i < j < |init| ensures init[i] != init[j] {
          assert init[i] == ops[i] && init[j] == ops[j];
        }
      }
      assert last !in init by {
        forall k | 0 <= k < |init| ensures init[k] != last {
          assert init[k] == ops[k];
        }
      }
      assert forall op :: op in init ==> op in ops;
      assert last in ops;
      CollectedNamesNoDup(ds, outdir, init, splits);
      var a := Collected(ds, outdir, init, splits);
      var b := OpOutputs(ds, outdir, last, splits);
      assert Collected(ds, outdir, ops, splits) == a + b;
      NamesAppend(a, b);
      OpOutputsNamesNoDup(ds, outdir, last, splits);
      forall z | z in Names(a) ensures z !in Names(b) {
        var k :| 0 <= k < |Names(a)| && Names(a)[k] == z;
        assert a[k] in a;
        CollectedNameOf(ds, outdir, init, splits, a[k]);
        var op, split :| op in init && split in splits && z == OutputName(op, split);
        if z in Names(b) {
          var split' :| split' in splits && z == OutputName(last, split');
          OutputNameInjective(op, split, last, split');
        }
      }
      NoDupAppend(Names(a), Names(b));
    }
  }

  /** No operation name of the script holds "_". */
  lemma OpsUnderscoreFree()
    ensures forall op :: op in Ops ==> '_' !in op
  {
  }

  /**
   * What one run of `main` leaves behind: nothing for an operation whose
   * folder is missing; for every operation whose folder exists and every
   * split, exactly one list, named `<op>_<split>.txt`, in `--outdir` when
   * given and in the operation folder otherwise, holding that split's
   * images; three lists per existing operation.
   */
  lemma CollectListsSpec(ds: Dataset, outdir: Option<string>)
    ensures var outs := Collected(ds, outdir, Ops, Splits);
      && |outs| == 3 * |PresentOps(ds, Ops)|
      && NoDup(Names(outs))
      && (forall op, split :: op in Ops && op !in ds.ops ==>
            forall o :: o in outs ==> o.name != OutputName(op, split))
      && (forall op, split :: op in Ops && op in ds.ops && split in Splits ==>
            ListFor(ds, outdir, op, split) in outs)
      && (forall o :: o in outs ==> exists op :: op in Ops && op in ds.ops && o.dir == outdir.GetOr(OpDir(ds, op)))
  {
    var outs := Collected(ds, outdir, Ops, Splits);
    CollectedLength(ds, outdir, Ops, Splits);
    OpsUnderscoreFree();
    forall o | o in outs
      ensures exists op, split :: op in Ops && op in ds.ops && split in Splits && o == ListFor(ds, outdir, op, split)
    {
      CollectedMembers(ds, outdir, Ops, Splits, o);
    }
    forall op, split | op in Ops && op in ds.ops && split in Splits
      ensures ListFor(ds, outdir, op, split) in outs
    {
      CollectedMembers(ds, outdir, Ops, Splits, ListFor(ds, outdir, op, split));
    }
    forall op, split, o | op in Ops && op !in ds.ops && o in outs
      ensures o.name != OutputName(op, split)
    {
      var op', split' :| op' in Ops && op' in ds.ops && split' in Splits && o == ListFor(ds, outdir, op', split');
      if o.name == OutputName(op, split) {
        OutputNameInjective(op', split', op, split);
      }
    }
    CollectedNamesNoDup(ds, outdir, Ops, Splits);
  }
}
