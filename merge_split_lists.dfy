/**
 * The list merger (helper-utils/merge_split_lists.py): for each split it
 * globs `*_<split>.txt` in one directory, reads the files in sorted order,
 * keeps the non-blank, non-comment lines, and writes their first-seen-order
 * union without duplicates to `<split>.txt`.
 */
module MergeSplitLists {
  import opened Wrappers
  import opened Seqs
  import opened Strings
  import opened ListFile

  const Splits: seq<string> := ["train", "val", "test"]

  /**
   * The directory given by `--dir`: its path, the names in it in directory
   * order (what `glob` sees), and the decoded text of each file.
   */
  datatype SourceDir = SourceDir(path: string, listing: seq<string>, text: map<string, string>) {
    /** Every listed name can be read. */
    predicate Valid() {
      forall n :: n in listing ==> n in text
    }
  }

  /** A file the script writes: its path and its whole content. */
  datatype Written = Written(path: string, text: string)

  // ---------------------------------------------------------------------
  // iter_lines and read_lines

  /** The test `iter_lines` applies to a stripped line. */
  predicate Keep(s: string) {
    s != [] && s[0] != '#'
  }

  /** What `iter_lines` can yield: kept, already stripped, one line long. */
  predicate Clean(s: string) {
    Keep(s) && IsStripped(s) && '\n' !in s && '\r' !in s
  }

  /** The filter of `iter_lines` over the lines of a file, in file order. */
  function KeptLines(raw: seq<string>): (r: seq<string>)
    ensures |r| <= |raw|
  {
    if raw == [] then [] else LineYield(raw[0]) + KeptLines(raw[1..])
  }

  /** What the filter of `iter_lines` yields for one line: its stripped form, if kept. */
  function LineYield(line: string): seq<string> {
    var s := Strip(line);
    if Keep(s) then [s] else []
  }

  /**
   * The filter works line by line: the lines kept from two consecutive
   * stretches of a file are those kept from each, in order.
   */
  lemma {:induction false} KeptLinesAppend(a: seq<string>, b: seq<string>)
    ensures KeptLines(a + b) == KeptLines(a) + KeptLines(b)
  {
    if a != [] {
      var h := LineYield(a[0]);
      assert (a + b)[0] == a[0];
      assert (a + b)[1..] == a[1..] + b;
      assert KeptLines(a + b) == h + KeptLines(a[1..] + b);
      KeptLinesAppend(a[1..], b);
      assert h + (KeptLines(a[1..]) + KeptLines(b)) == (h + KeptLines(a[1..])) + KeptLines(b);
    } else {
      assert a + b == b;
    }
  }

  /** Every kept line passes the test and is already stripped. */
  lemma {:induction false} KeptLinesKept(raw: seq<string>)
    ensures forall y :: y in KeptLines(raw) ==> Keep(y) && IsStripped(y)
  {
    if raw != [] {
      StripSpec(raw[0]);
      KeptLinesKept(raw[1..]);
    }
  }

  /** Every kept line is the stripped form of some line of the file. */
  lemma {:induction false} KeptLinesFrom(raw: seq<string>, y: string)
    requires y in KeptLines(raw)
    ensures exists j :: 0 <= j < |raw| && y == Strip(raw[j])
  {
    if y == Strip(raw[0]) {
      assert 0 < |raw|;
    } else {
      assert y in KeptLines(raw[1..]);
      KeptLinesFrom(raw[1..], y);
      var j :| 0 <= j < |raw[1..]| && y == Strip(raw[1..][j]);
      assert y == Strip(raw[j + 1]);
    }
  }

  /** A stripped line holds no "\n": the only one was its terminator. */
  lemma StripLineHasNoNewline(l: string)
    requires LineShaped(l)
    ensures '\n' !in Strip(l)
  {
    var r := Strip(l);
    StripPaddedAt(l);
    var i := |l| - |TrimStart(l)|;
    forall m | 0 <= m < |r| ensures r[m] != '\n' {
      assert r[m] == l[i + m];
    }
  }

  lemma {:induction false} KeptLinesNoNewline(raw: seq<string>)
    requires forall k :: 0 <= k < |raw| ==> LineShaped(raw[k])
    ensures forall y :: y in KeptLines(raw) ==> '\n' !in y
  {
    if raw != [] {
      StripLineHasNoNewline(raw[0]);
      KeptLinesNoNewline(raw[1..]);
    }
  }

  /** `strip()` keeps a middle stretch of the line, so it adds no character. */
  lemma StripChars(l: string, c: char)
    requires c in Strip(l)
    ensures c in l
  {
    var r := Strip(l);
    StripPaddedAt(l);
    var i := |l| - |TrimStart(l)|;
    var m :| 0 <= m < |r| && r[m] == c;
    assert r[m] == l[i + m];
  }

  lemma {:induction false} KeptLinesNoReturn(raw: seq<string>)
    requires forall k :: 0 <= k < |raw| ==> '\r' !in raw[k]
    ensures forall y :: y in KeptLines(raw) ==> '\r' !in y
  {
    if raw != [] {
      if '\r' in Strip(raw[0]) {
        StripChars(raw[0], '\r');
      }
      KeptLinesNoReturn(raw[1..]);
    }
  }

  /**
   * `iter_lines(fp)` on a file whose decoded content is `text`: `open` in
   * text mode translates line endings, then the lines are cut and filtered.
   */
  function IterLines(text: string): seq<string> {
    KeptLines(Lines(Translate(text)))
  }

  /** Every line `iter_lines` yields is kept, stripped, and a single line. */
  lemma IterLinesClean(text: string)
    ensures forall y :: y in IterLines(text) ==> Clean(y)
  {
    var t := Translate(text);
    LinesSplitText(t);
    KeptLinesKept(Lines(t));
    KeptLinesNoNewline(Lines(t));
    TranslateNoReturn(text);
    forall k | 0 <= k < |Lines(t)| ensures '\r' !in Lines(t)[k] {
      if '\r' in Lines(t)[k] {
        LinesChars(t, k, '\r');
      }
    }
    KeptLinesNoReturn(Lines(t));
  }

  /**
   * `read_lines(fp)`, which nothing calls: despite its name it returns only
   * the first line `iter_lines` would yield, or None when there is none.
   */
  method ReadLines(text: string) returns (r: Option<string>)
    ensures r == if IterLines(text) == [] then None else Some(IterLines(text)[0])
  {
    var lines := Lines(Translate(text));
    var i := 0;
    while i < |lines|
      invariant 0 <= i <= |lines|
      invariant KeptLines(lines) == KeptLines(lines[i..])
    {
      var s := Strip(lines[i]);
      assert lines[i..][1..] == lines[i + 1..];
      if Keep(s) {
        return Some(s);
      }
      i := i + 1;
    }
    return None;
  }

  // ---------------------------------------------------------------------
  // Finding the input files

  /**
   * `glob` of `*_<split>.txt` against one name: the name ends in
   * `_<split>.txt` (the `*` may match nothing) and, as `glob` hides dot
   * files from a pattern that does not start with ".", does not start with ".".
   */
  predicate MatchesSplit(name: string, split: string) {
    EndsWith(name, "_" + split + ".txt") && name[0] != '.'
  }

  /** The names `glob` returns, in directory order. */
  function Glob(listing: seq<string>, split: string): seq<string> {
    if listing == [] then []
    else (if MatchesSplit(listing[0], split) then [listing[0]] else []) + Glob(listing[1..], split)
  }

  /** `glob` returns exactly the listed names that match the pattern. */
  lemma {:induction false} GlobSpec(listing: seq<string>, split: string)
    ensures forall n :: n in Glob(listing, split) <==> n in listing && MatchesSplit(n, split)
  {
    if listing != [] {
      GlobSpec(listing[1..], split);
      assert forall n :: n in listing <==> n == listing[0] || n in listing[1..];
    }
  }

  /**
   * `glob` returns full paths in one directory; ordering those is ordering
   * the names, so the model sorts the names.
   */
  lemma GlobOrderIsNameOrder(dir: string, a: string, b: string)
    ensures Less(JoinPath(dir, a), JoinPath(dir, b)) == Less(a, b)
  {
    if dir == [] || dir == "." {
    } else if dir[|dir| - 1] == '/' {
      LessCommonPrefix(dir, a, b);
    } else {
      assert dir + "/" + a == (dir + "/") + a;
      assert dir + "/" + b == (dir + "/") + b;
      LessCommonPrefix(dir + "/", a, b);
    }
  }

  /** `files = sorted(set(glob(...)))`: every file to read can be read. */
  function SourceFiles(dir: SourceDir, split: string): (files: seq<string>)
    requires dir.Valid()
    ensures forall n :: n in files ==> n in dir.text
  {
    var g := Glob(dir.listing, split);
    SortedSetSpec(g);
    GlobSpec(dir.listing, split);
    SortedSet(g)
  }

  /** The files to read are strictly ascending and are exactly the matching names. */
  lemma SourceFilesSpec(dir: SourceDir, split: string)
    requires dir.Valid()
    ensures StrictlySorted(SourceFiles(dir, split))
    ensures forall n :: n in SourceFiles(dir, split) <==> n in dir.listing && MatchesSplit(n, split)
  {
    SortedSetSpec(Glob(dir.listing, split));
    GlobSpec(dir.listing, split);
  }

  /** Nothing to merge exactly when `glob` finds nothing. */
  lemma NoSourceFiles(dir: SourceDir, split: string)
    requires dir.Valid()
    ensures SourceFiles(dir, split) == [] <==> Glob(dir.listing, split) == []
  {
    var g := Glob(dir.listing, split);
    SortedSetSpec(g);
    if g != [] {
      assert g[0] in SourceFiles(dir, split);
    }
    if SourceFiles(dir, split) != [] {
      assert SourceFiles(dir, split)[0] in g;
    }
  }

  /** Strictly ascending means no file is read twice. */
  lemma SourceFilesNoDup(dir: SourceDir, split: string)
    requires dir.Valid()
    ensures NoDup(SourceFiles(dir, split))
  {
    var files := SourceFiles(dir, split);
    SourceFilesSpec(dir, split);
    forall i, j | 0 <= i < j < |files| ensures files[i] != files[j] {
      LessIrreflexive(files[i]);
    }
  }

  /**
   * The order in which files are read does not depend on the order of the
   * directory listing: two listings with the same names give the same files.
   */
  lemma SourceFilesDeterministic(d1: SourceDir, d2: SourceDir, split: string)
    requires d1.Valid() && d2.Valid()
    requires forall n :: n in d1.listing <==> n in d2.listing
    ensures SourceFiles(d1, split) == SourceFiles(d2, split)
  {
    SourceFilesSpec(d1, split);
    SourceFilesSpec(d2, split);
    StrictlySortedUnique(SourceFiles(d1, split), SourceFiles(d2, split));
  }

  // ---------------------------------------------------------------------
  // The merge

  /** The decoded texts of `files`, in order. */
  function Texts(dir: SourceDir, files: seq<string>): (texts: seq<string>)
    requires forall f :: f in files ==> f in dir.text
    ensures |texts| == |files|
  {
    seq(|files|, i requires 0 <= i < |files| => dir.text[files[i]])
  }

  /** What `iter_lines` yields from each file, file by file. */
  function PerFile(texts: seq<string>): (r: seq<seq<string>>)
    ensures |r| == |texts|
  {
    seq(|texts|, i requires 0 <= i < |texts| => IterLines(texts[i]))
  }

  /** Every line `iter_lines` yields from the files, file after file. */
  function Stream(texts: seq<string>): seq<string> {
    Concat(PerFile(texts))
  }

  lemma StreamSnoc(texts: seq<string>, i: nat)
    requires i < |texts|
    ensures Stream(texts[..i + 1]) == Stream(texts[..i]) + IterLines(texts[i])
  {
    assert PerFile(texts[..i + 1]) == PerFile(texts[..i]) + [IterLines(texts[i])];
    ConcatSnoc(PerFile(texts[..i]), IterLines(texts[i]));
  }

  /** A line is in the stream exactly when some file yields it. */
  lemma StreamMembers(texts: seq<string>, y: string)
    ensures y in Stream(texts) <==> exists i :: 0 <= i < |texts| && y in IterLines(texts[i])
  {
    var per := PerFile(texts);
    ConcatMembers(per, y);
    if y in Stream(texts) {
      var i :| 0 <= i < |per| && y in per[i];
      assert y in IterLines(texts[i]);
    }
    if exists i :: 0 <= i < |texts| && y in IterLines(texts[i]) {
      var i :| 0 <= i < |texts| && y in IterLines(texts[i]);
      assert y in per[i];
    }
  }

  /** The stream is as long as the files' yields together. */
  lemma StreamLength(texts: seq<string>)
    ensures |Stream(texts)| == TotalLength(PerFile(texts))
  {
    ConcatLength(PerFile(texts));
  }

  lemma StreamClean(texts: seq<string>)
    ensures forall y :: y in Stream(texts) ==> Clean(y)
  {
    forall y | y in Stream(texts) ensures Clean(y) {
      StreamMembers(texts, y);
      var i :| 0 <= i < |texts| && y in IterLines(texts[i]);
      IterLinesClean(texts[i]);
    }
  }

  /** The first position of `x` in `xs`. */
  function FirstIndex(xs: seq<string>, x: string): (k: nat)
    requires x in xs
    ensures k < |xs| && xs[k] == x
    ensures forall m :: 0 <= m < k ==> xs[m] != x
  {
    if xs[0] == x then 0 else FirstIndex(xs[1..], x) + 1
  }

  /**
   * The loop of `merge_split`, stated on values: `xs` is scanned left to
   * right and each line is kept the first time it is seen.
   */
  function Dedup(xs: seq<string>): seq<string> {
    if xs == [] then []
    else
      var d := Dedup(xs[..|xs| - 1]);
      if xs[|xs| - 1] in d then d else d + [xs[|xs| - 1]]
  }

  /**
   * The merged list has no duplicates, holds exactly the lines it was built
   * from, and is no longer than they are.
   */
  lemma {:induction false} DedupSpec(xs: seq<string>)
    ensures NoDup(Dedup(xs))
    ensures forall y :: y in Dedup(xs) <==> y in xs
    ensures |Dedup(xs)| <= |xs|
  {
    if xs != [] {
      var init := xs[..|xs| - 1];
      DedupSpec(init);
      assert xs == init + [xs[|xs| - 1]];
    }
  }

  /** One more line: kept exactly when it has not been seen. */
  lemma DedupSnoc(xs: seq<string>, x: string)
    ensures Dedup(xs + [x]) == if x in Dedup(xs) then Dedup(xs) else Dedup(xs) + [x]
  {
    assert (xs + [x])[..|xs + [x]| - 1] == xs;
  }

  /**
   * One step of the loop of `merge_split`, with `seen` the set of lines
   * merged so far: the line is appended exactly when it is not in `seen`,
   * and `seen` grows by that line.
   */
  lemma DedupStep(xs: seq<string>, x: string, seen: set<string>)
    requires seen == Elems(Dedup(xs))
    ensures x in seen <==> x in Dedup(xs)
    ensures x in seen ==> Dedup(xs + [x]) == Dedup(xs)
    ensures x !in seen ==> Dedup(xs + [x]) == Dedup(xs) + [x]
    ensures Elems(Dedup(xs + [x])) == seen + {x}
  {
    DedupSnoc(xs, x);
    var d := Dedup(xs);
    if x !in d {
      assert Elems(d + [x]) == Elems(d) + {x};
    }
  }

  /** `r` lists lines of `xs` in the order of their first occurrence in `xs`. */
  predicate FirstSeenOrder(xs: seq<string>, r: seq<string>) {
    && (forall y :: y in r ==> y in xs)
    && (forall i, j :: 0 <= i < j < |r| ==> FirstIndex(xs, r[i]) < FirstIndex(xs, r[j]))
  }

  lemma FirstIndexPrefix(p: seq<string>, q: seq<string>, z: string)
    requires z in p
    ensures FirstIndex(p + q, z) == FirstIndex(p, z)
  {
    assert (p + q)[FirstIndex(p, z)] == z;
  }

  /** Scanning more lines does not change the order of lines already seen. */
  lemma FirstSeenOrderExtend(xs: seq<string>, q: seq<string>, r: seq<string>)
    requires FirstSeenOrder(xs, r)
    ensures FirstSeenOrder(xs + q, r)
  {
    forall z | z in r ensures z in xs + q && FirstIndex(xs + q, z) == FirstIndex(xs, z) {
      FirstIndexPrefix(xs, q, z);
    }
    forall i, j | 0 <= i < j < |r| ensures FirstIndex(xs + q, r[i]) < FirstIndex(xs + q, r[j]) {
      assert r[i] in r && r[j] in r;
    }
  }

  /** A line never seen before comes after every line seen so far. */
  lemma FirstSeenOrderSnocNew(xs: seq<string>, y: string, r: seq<string>)
    requires FirstSeenOrder(xs, r) && y !in xs
    ensures FirstSeenOrder(xs + [y], r + [y])
  {
    var ys := xs + [y];
    FirstSeenOrderExtend(xs, [y], r);
    assert forall m :: 0 <= m < |xs| ==> ys[m] == xs[m];
    assert ys[|xs|] == y;
    assert FirstIndex(ys, y) == |xs|;
    var r' := r + [y];
    forall i, j | 0 <= i < j < |r'| ensures FirstIndex(ys, r'[i]) < FirstIndex(ys, r'[j]) {
      assert r'[i] == r[i] && r[i] in r;
      assert FirstIndex(ys, r[i]) == FirstIndex(xs, r[i]) < |xs|;
      if j < |r| {
        assert r'[j] == r[j];
      }
    }
  }

  lemma {:induction false} DedupFirstSeenOrder(xs: seq<string>)
    ensures FirstSeenOrder(xs, Dedup(xs))
  {
    if xs != [] {
      var init := xs[..|xs| - 1];
      var y := xs[|xs| - 1];
      var d := Dedup(init);
      DedupFirstSeenOrder(init);
      DedupSpec(init);
      assert xs == init + [y];
      if y in d {
        assert Dedup(xs) == d;
        FirstSeenOrderExtend(init, [y], d);
      } else {
        assert Dedup(xs) == d + [y];
        FirstSeenOrderSnocNew(init, y, d);
      }
    }
  }

  /** The head of a first-seen-order list comes first in `xs`, and the rest is one too. */
  lemma FirstSeenOrderTail(xs: seq<string>, a: seq<string>)
    requires FirstSeenOrder(xs, a) && a != []
    ensures FirstSeenOrder(xs, a[1..])
    ensures forall y :: y in a ==> FirstIndex(xs, a[0]) <= FirstIndex(xs, y)
    ensures forall y :: y in a[1..] <==> y in a && y != a[0]
  {
    assert a == [a[0]] + a[1..];
    forall i, j | 0 <= i < j < |a[1..]|
      ensures FirstIndex(xs, a[1..][i]) < FirstIndex(xs, a[1..][j])
    {
      assert a[1..][i] == a[i + 1] && a[1..][j] == a[j + 1];
    }
    forall y | y in a ensures FirstIndex(xs, a[0]) <= FirstIndex(xs, y) {
      var k :| 0 <= k < |a| && a[k] == y;
    }
    forall y | y in a[1..] ensures y != a[0] {
      var k :| 0 <= k < |a[1..]| && a[1..][k] == y;
      assert FirstIndex(xs, a[0]) < FirstIndex(xs, a[k + 1]);
    }
  }

  lemma {:induction false} FirstSeenOrderUnique(xs: seq<string>, a: seq<string>, b: seq<string>)
    requires FirstSeenOrder(xs, a) && FirstSeenOrder(xs, b)
    requires forall y :: y in a <==> y in b
    ensures a == b
  {
    if a != [] {
      assert a[0] in a;
    }
    if b != [] {
      assert b[0] in b;
    }
    if a != [] && b != [] {
      FirstSeenOrderTail(xs, a);
      FirstSeenOrderTail(xs, b);
      var k := FirstIndex(xs, a[0]);
      assert FirstIndex(xs, a[0]) <= FirstIndex(xs, b[0]) by { assert b[0] in a; }
      assert FirstIndex(xs, b[0]) <= FirstIndex(xs, a[0]) by { assert a[0] in b; }
      assert a[0] == xs[k] == b[0];
      forall y ensures y in a[1..] <==> y in b[1..] {
        assert y in a <==> y in b;
      }
      FirstSeenOrderUnique(xs, a[1..], b[1..]);
      assert a == [a[0]] + a[1..] && b == [b[0]] + b[1..];
    }
  }

  /**
   * `Dedup` is the one sequence that holds exactly the lines of `xs`, each
   * placed by its first occurrence in `xs`.
   */
  lemma DedupCharacterised(xs: seq<string>, r: seq<string>)
    ensures r == Dedup(xs) <==> FirstSeenOrder(xs, r) && (forall y :: y in r <==> y in xs)
  {
    DedupFirstSeenOrder(xs);
    DedupSpec(xs);
    if FirstSeenOrder(xs, r) && (forall y :: y in r <==> y in xs) {
      FirstSeenOrderUnique(xs, r, Dedup(xs));
    }
  }

  /** Deduplicating a list that has no duplicates leaves it alone. */
  lemma {:induction false} DedupOfNoDup(xs: seq<string>)
    requires NoDup(xs)
    ensures Dedup(xs) == xs
  {
    if xs != [] {
      var init := xs[..|xs| - 1];
      DedupOfNoDup(init);
      assert xs == init + [xs[|xs| - 1]];
    }
  }

  /** The lines `merge_split` collects for `split` (its list `merged`). */
  function MergedLines(dir: SourceDir, split: string): seq<string>
    requires dir.Valid()
  {
    Dedup(Stream(Texts(dir, SourceFiles(dir, split))))
  }

  /** What `merge_split(src_dir, split, out_dir)` writes, if anything. */
  function MergeResult(dir: SourceDir, split: string, outDir: string): Option<Written>
    requires dir.Valid()
  {
    if SourceFiles(dir, split) == [] then None
    else Some(Written(JoinPath(outDir, split + ".txt"), Render(MergedLines(dir, split))))
  }

  /**
   * The write loop at the end of `merge_split`: each merged line followed by
   * "\n", so the file reads back as exactly those lines.
   */
  method WriteLines(merged: seq<string>) returns (text: string)
    ensures text == Render(merged)
  {
    text := [];
    var k := 0;
    while k < |merged|
      invariant 0 <= k <= |merged|
      invariant text == Render(merged[..k])
    {
      RenderSnoc(merged[..k], merged[k]);
      assert merged[..k + 1] == merged[..k] + [merged[k]];
      text := text + merged[k] + "\n";
      k := k + 1;
    }
    assert merged[..k] == merged;
  }

  /**
   * The loop of `merge_split` over the lines of one file: a line not yet in
   * `seen` is added to `seen` and appended to `merged`. Starting from the
   * merge of everything read before, it ends with the merge of everything
   * read before followed by this file's lines.
   */
  method MergeFileLines(lines: seq<string>, ghost before: seq<string>, merged0: seq<string>, seen0: set<string>)
    returns (merged: seq<string>, seen: set<string>)
    requires merged0 == Dedup(before) && seen0 == Elems(merged0)
    ensures merged == Dedup(before + lines)
    ensures seen == Elems(merged)
  {
    merged, seen := merged0, seen0;
    var j := 0;
    assert before + lines[..0] == before;
    while j < |lines|
      invariant 0 <= j <= |lines|
      invariant merged == Dedup(before + lines[..j])
      invariant seen == Elems(merged)
    {
      var line := lines[j];
      AppendPrefixStep(before, lines, j);
      DedupStep(before + lines[..j], line, seen);
      if line !in seen {
        seen := seen + {line};
        merged := merged + [line];
      }
      j := j + 1;
    }
    assert lines[..j] == lines;
  }

  /**
   * `merge_split`: no output when no file matches; otherwise `<split>.txt`
   * in `outDir` holding the deduplicated lines of the matching files, read in
   * sorted order. `seen` is the set of lines in `merged` throughout.
   */
  method MergeSplit(dir: SourceDir, split: string, outDir: string) returns (out: Option<Written>)
    requires dir.Valid()
    ensures out.None? <==> Glob(dir.listing, split) == []
    ensures out.Some? ==> out.value.path == JoinPath(outDir, split + ".txt")
    ensures out.Some? ==> out.value.text == Render(Dedup(Stream(Texts(dir, SourceFiles(dir, split)))))
  {
    var files := SourceFiles(dir, split);
    NoSourceFiles(dir, split);
    if files == [] {
      return None;
    }
    ghost var texts := Texts(dir, files);
    var seen: set<string> := {};
    var merged: seq<string> := [];
    var i := 0;
    while i < |files|
      invariant 0 <= i <= |files|
      invariant merged == Dedup(Stream(texts[..i]))
      invariant seen == Elems(merged)
    {
      var lines := IterLines(dir.text[files[i]]);
      merged, seen := MergeFileLines(lines, Stream(texts[..i]), merged, seen);
      StreamSnoc(texts, i);
      i := i + 1;
    }
    assert texts[..i] == texts;
    var text := WriteLines(merged);
    out := Some(Written(JoinPath(outDir, split + ".txt"), text));
  }

  /** What `merge_split` returns for each of `splits`, in order. */
  function MergeResults(dir: SourceDir, outDir: string, splits: seq<string>): (rs: seq<Option<Written>>)
    requires dir.Valid()
    ensures |rs| == |splits|
  {
    seq(|splits|, i requires 0 <= i < |splits| => MergeResult(dir, splits[i], outDir))
  }

  /** The files `main` writes for `splits`, in order. */
  function MergeOutputs(dir: SourceDir, outDir: string, splits: seq<string>): seq<Written>
    requires dir.Valid()
  {
    Somes(MergeResults(dir, outDir, splits))
  }

  lemma MergeOutputsSnoc(dir: SourceDir, outDir: string, splits: seq<string>, i: nat)
    requires dir.Valid() && i < |splits|
    ensures MergeOutputs(dir, outDir, splits[..i + 1]) ==
            MergeOutputs(dir, outDir, splits[..i]) +
            (var w := MergeResult(dir, splits[i], outDir); if w.Some? then [w.value] else [])
  {
    var rs := MergeResults(dir, outDir, splits[..i]);
    assert MergeResults(dir, outDir, splits[..i + 1]) == rs + [MergeResult(dir, splits[i], outDir)];
    SomesSnoc(rs, MergeResult(dir, splits[i], outDir));
  }

  /**
   * `main`: the output directory defaults to `--dir`, and each split is
   * merged in turn.
   */
  method MergeAll(dir: SourceDir, outdir: Option<string>) returns (written: seq<Written>)
    requires dir.Valid()
    ensures written == MergeOutputs(dir, outdir.GetOr(dir.path), Splits)
  {
    var out := outdir.GetOr(dir.path);
    written := [];
    var i := 0;
    while i < |Splits|
      invariant 0 <= i <= |Splits|
      invariant written == MergeOutputs(dir, out, Splits[..i])
    {
      var w := MergeSplit(dir, Splits[i], out);
      NoSourceFiles(dir, Splits[i]);
      assert w == MergeResult(dir, Splits[i], out);
      MergeOutputsSnoc(dir, out, Splits, i);
      written := written + (if w.Some? then [w.value] else []);
      i := i + 1;
    }
    assert Splits[..i] == Splits;
  }

  // ---------------------------------------------------------------------
  // Properties of the merge

  /**
   * The merged list for a split: no line twice; a line is in it exactly when
   * some matching file yields it; lines stand in the order of their first
   * occurrence, reading the files in sorted order; and it is no longer than
   * all yielded lines together.
   */
  lemma MergedLinesSpec(dir: SourceDir, split: string)
    requires dir.Valid()
    ensures NoDup(MergedLines(dir, split))
    ensures forall y :: y in MergedLines(dir, split) <==>
              exists i :: 0 <= i < |SourceFiles(dir, split)| &&
                          y in IterLines(dir.text[SourceFiles(dir, split)[i]])
    ensures FirstSeenOrder(Stream(Texts(dir, SourceFiles(dir, split))), MergedLines(dir, split))
    ensures |MergedLines(dir, split)| <= TotalLength(PerFile(Texts(dir, SourceFiles(dir, split))))
  {
    var texts := Texts(dir, SourceFiles(dir, split));
    DedupSpec(Stream(texts));
    DedupFirstSeenOrder(Stream(texts));
    StreamLength(texts);
    forall y ensures y in MergedLines(dir, split) <==>
              exists i :: 0 <= i < |SourceFiles(dir, split)| &&
                          y in IterLines(dir.text[SourceFiles(dir, split)[i]])
    {
      StreamMembers(texts, y);
      if exists i :: 0 <= i < |texts| && y in IterLines(texts[i]) {
        var i :| 0 <= i < |texts| && y in IterLines(texts[i]);
        assert y in IterLines(dir.text[SourceFiles(dir, split)[i]]);
      }
      if exists i :: 0 <= i < |SourceFiles(dir, split)| &&
                     y in IterLines(dir.text[SourceFiles(dir, split)[i]]) {
        var i :| 0 <= i < |SourceFiles(dir, split)| &&
                 y in IterLines(dir.text[SourceFiles(dir, split)[i]]);
        assert y in IterLines(texts[i]);
      }
    }
  }

  /** Kept lines reach the output unchanged: `strip` leaves them alone and drops their "\n". */
  lemma {:induction false} KeptLinesTerminated(entries: seq<string>)
    requires forall e :: e in entries ==> Clean(e)
    ensures KeptLines(Terminated(entries)) == entries
  {
    if entries != [] {
      var e := entries[0];
      assert e in entries;
      assert [] + e + "\n" == e + "\n";
      StripPadded([], e, "\n");
      assert Terminated(entries)[1..] == Terminated(entries[1..]);
      KeptLinesTerminated(entries[1..]);
    }
  }

  /**
   * A list file written from clean lines reads back, through `iter_lines`,
   * as exactly those lines.
   */
  lemma ReadBack(entries: seq<string>)
    requires forall e :: e in entries ==> Clean(e)
    ensures IterLines(Render(entries)) == entries
  {
    RenderNoReturn(entries);
    TranslateUnchanged(Render(entries));
    LinesOfRender(entries);
    KeptLinesTerminated(entries);
  }

  /**
   * Merging is idempotent: the written `<split>.txt` reads back as the merged
   * list, and merging that file again changes nothing.
   */
  lemma MergeIdempotent(dir: SourceDir, split: string)
    requires dir.Valid()
    ensures IterLines(Render(MergedLines(dir, split))) == MergedLines(dir, split)
    ensures Dedup(IterLines(Render(MergedLines(dir, split)))) == MergedLines(dir, split)
  {
    var texts := Texts(dir, SourceFiles(dir, split));
    DedupSpec(Stream(texts));
    StreamClean(texts);
    ReadBack(MergedLines(dir, split));
    DedupOfNoDup(MergedLines(dir, split));
  }

  /** `main` writes one file per split that has input, and nothing else. */
  lemma MergeOutputsMembers(dir: SourceDir, outDir: string, splits: seq<string>, w: Written)
    requires dir.Valid()
    ensures w in MergeOutputs(dir, outDir, splits) <==>
            exists s :: s in splits && MergeResult(dir, s, outDir) == Some(w)
  {
    var rs := MergeResults(dir, outDir, splits);
    SomesMembers(rs, w);
    if Some(w) in rs {
      var i :| 0 <= i < |rs| && rs[i] == Some(w);
      assert splits[i] in splits;
    }
    if exists s :: s in splits && MergeResult(dir, s, outDir) == Some(w) {
      var s :| s in splits && MergeResult(dir, s, outDir) == Some(w);
      var i :| 0 <= i < |splits| && splits[i] == s;
      assert rs[i] == Some(w);
    }
  }

  /** `<split>.txt` is written exactly when some `*_<split>.txt` exists. */
  lemma MergeOutputFor(dir: SourceDir, out: string, splits: seq<string>, s: string)
    requires dir.Valid() && s in splits
    ensures Glob(dir.listing, s) != [] <==>
            exists w :: w in MergeOutputs(dir, out, splits) && w.path == JoinPath(out, s + ".txt")
  {
    var ws := MergeOutputs(dir, out, splits);
    NoSourceFiles(dir, s);
    if Glob(dir.listing, s) != [] {
      var w := MergeResult(dir, s, out).value;
      MergeOutputsMembers(dir, out, splits, w);
      assert w in ws && w.path == JoinPath(out, s + ".txt");
    }
    if exists w :: w in ws && w.path == JoinPath(out, s + ".txt") {
      var w :| w in ws && w.path == JoinPath(out, s + ".txt");
      MergeOutputsMembers(dir, out, splits, w);
      var s' :| s' in splits && MergeResult(dir, s', out) == Some(w);
      JoinPathInjective(out, s' + ".txt", s + ".txt");
      assert s' == (s' + ".txt")[..|s'|] && s == (s + ".txt")[..|s|];
      NoSourceFiles(dir, s');
    }
  }

  /**
   * For each split, `main` writes `<split>.txt` under the output directory
   * (default `--dir`) exactly when some `*_<split>.txt` exists.
   */
  lemma MergeAllSpec(dir: SourceDir, outdir: Option<string>)
    requires dir.Valid()
    ensures forall s :: s in Splits ==>
              (Glob(dir.listing, s) != [] <==>
               exists w :: w in MergeOutputs(dir, outdir.GetOr(dir.path), Splits) &&
                           w.path == JoinPath(outdir.GetOr(dir.path), s + ".txt"))
  {
    forall s | s in Splits
      ensures Glob(dir.listing, s) != [] <==>
              exists w :: w in MergeOutputs(dir, outdir.GetOr(dir.path), Splits) &&
                          w.path == JoinPath(outdir.GetOr(dir.path), s + ".txt")
    {
      MergeOutputFor(dir, outdir.GetOr(dir.path), Splits, s);
    }
  }
}
