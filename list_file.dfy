/**
 * The plain-text list format both scripts write and the merger reads: one
 * entry per line, each followed by "\n", with no header and no escaping; how
 * Python reads such a file back in text mode (newline translation, then line
 * by line); and how `pathlib` joins a directory and a file name.
 */
module ListFile {
  import opened Seqs
  import opened Strings

  /** The text written for `entries`: `entry + "\n"` for each, in order. */
  function Render(entries: seq<string>): string {
    if entries == [] then [] else entries[0] + "\n" + Render(entries[1..])
  }

  /** Writing one more entry appends that entry's line to the text. */
  lemma {:induction false} RenderSnoc(entries: seq<string>, e: string)
    ensures Render(entries + [e]) == Render(entries) + e + "\n"
  {
    if entries != [] {
      assert (entries + [e])[1..] == entries[1..] + [e];
      RenderSnoc(entries[1..], e);
    } else {
      assert Render([e]) == e + "\n" + Render([]);
    }
  }

  /**
   * Reading a file in text mode with universal newlines, Python's default:
   * "\r\n" and a lone "\r" each become "\n"; everything else is kept.
   */
  function Translate(t: string): string
    decreases |t|
  {
    if t == [] then []
    else if t[0] == '\r' then "\n" + Translate(if 1 < |t| && t[1] == '\n' then t[2..] else t[1..])
    else [t[0]] + Translate(t[1..])
  }

  /** No "\r" survives the translation. */
  lemma {:induction false} TranslateNoReturn(t: string)
    ensures '\r' !in Translate(t)
    decreases |t|
  {
    if t != [] {
      if t[0] == '\r' {
        TranslateNoReturn(if 1 < |t| && t[1] == '\n' then t[2..] else t[1..]);
      } else {
        TranslateNoReturn(t[1..]);
      }
    }
  }

  /** A text without "\r" reads back as written. */
  lemma {:induction false} TranslateUnchanged(t: string)
    requires '\r' !in t
    ensures Translate(t) == t
  {
    if t != [] {
      assert t[0] != '\r' && t[0] in t;
      assert forall c :: c in t[1..] ==> c in t;
      TranslateUnchanged(t[1..]);
      assert t == [t[0]] + t[1..];
    }
  }

  /** The position of the first "\n" in `t`, or `|t|` when there is none. */
  function NewlineIndex(t: string): (k: nat)
    ensures k <= |t|
    ensures k < |t| ==> t[k] == '\n'
    ensures forall i :: 0 <= i < k ==> t[i] != '\n'
  {
    if t == [] || t[0] == '\n' then 0 else 1 + NewlineIndex(t[1..])
  }

  /** A line as Python's file iteration yields it: non-empty, "\n" at most at its end. */
  predicate LineShaped(l: string) {
    l != [] && forall i :: 0 <= i < |l| - 1 ==> l[i] != '\n'
  }

  /**
   * `for line in f` over a file opened in text mode, given the translated
   * text (see `Translate`): the text cut after each "\n", each line keeping
   * its terminator; the last line lacks one when the text does not end in "\n".
   */
  function Lines(t: string): seq<string>
    decreases |t|
  {
    if t == [] then []
    else
      var k := NewlineIndex(t);
      if k == |t| then [t] else [t[..k + 1]] + Lines(t[k + 1..])
  }

  /**
   * Joining the lines gives the text back; every line is non-empty, holds
   * "\n" at most at its end, and all but the last end in "\n".
   */
  lemma {:induction false} LinesSplitText(t: string)
    ensures Concat(Lines(t)) == t
    ensures forall k :: 0 <= k < |Lines(t)| ==> LineShaped(Lines(t)[k])
    ensures forall k :: 0 <= k < |Lines(t)| - 1 ==> EndsWith(Lines(t)[k], "\n")
    decreases |t|
  {
    if t != [] {
      var k := NewlineIndex(t);
      if k == |t| {
        assert Lines(t) == [t];
        assert Concat([t]) == t + Concat([]);
      } else {
        var rest := Lines(t[k + 1..]);
        LinesSplitText(t[k + 1..]);
        assert Lines(t) == [t[..k + 1]] + rest;
        assert Lines(t)[1..] == rest;
        assert t == t[..k + 1] + t[k + 1..];
        assert forall m :: 1 <= m < |Lines(t)| ==> Lines(t)[m] == rest[m - 1];
      }
    }
  }

  /** Every character of a line is a character of the text it was cut from. */
  lemma LinesChars(t: string, k: nat, c: char)
    requires k < |Lines(t)| && c in Lines(t)[k]
    ensures c in t
  {
    LinesSplitText(t);
    ConcatMembers(Lines(t), c);
  }

  /** Each entry with its line terminator. */
  function Terminated(entries: seq<string>): (r: seq<string>)
    ensures |r| == |entries|
  {
    seq(|entries|, i requires 0 <= i < |entries| => entries[i] + "\n")
  }

  /**
   * Reading a written list back line by line yields exactly the written
   * lines, provided no entry itself contains "\n" (the format has no escaping).
   */
  lemma {:induction false} LinesOfRender(entries: seq<string>)
    requires forall e :: e in entries ==> '\n' !in e
    ensures Lines(Render(entries)) == Terminated(entries)
  {
    if entries != [] {
      var e := entries[0];
      var rest := Render(entries[1..]);
      var t := Render(entries);
      assert e in entries;
      assert t == e + "\n" + rest;
      assert t[|e|] == '\n';
      assert forall i :: 0 <= i < |e| ==> t[i] == e[i] && e[i] in e;
      var k := NewlineIndex(t);
      assert k == |e|;
      assert t[..k + 1] == e + "\n";
      assert t[k + 1..] == rest;
      LinesOfRender(entries[1..]);
      assert Lines(t) == [t[..k + 1]] + Lines(t[k + 1..]);
      assert Terminated(entries) == [e + "\n"] + Terminated(entries[1..]);
    }
  }

  /** A list written from entries without "\r" holds no "\r". */
  lemma {:induction false} RenderNoReturn(entries: seq<string>)
    requires forall e :: e in entries ==> '\r' !in e
    ensures '\r' !in Render(entries)
  {
    if entries != [] {
      assert entries[0] in entries;
      assert forall e :: e in entries[1..] ==> e in entries;
      RenderNoReturn(entries[1..]);
    }
  }

  /**
   * `str(Path(dir) / name)` for a directory string in pathlib's normal form:
   * "." (or the empty path) contributes nothing, the root "/" already ends in
   * a separator, and any other directory gets one "/" before the name.
   */
  function JoinPath(dir: string, name: string): string {
    if dir == [] || dir == "." then name
    else if dir[|dir| - 1] == '/' then dir + name
    else dir + "/" + name
  }

  /** The joined path ends with the name and, unless the directory is "." or "", starts with the directory. */
  lemma JoinPathEnds(dir: string, name: string)
    ensures EndsWith(JoinPath(dir, name), name)
    ensures dir != [] && dir != "." ==> StartsWith(JoinPath(dir, name), dir)
  {
    var r := JoinPath(dir, name);
    var sep := if dir == [] || dir == "." then [] else if dir[|dir| - 1] == '/' then dir else dir + "/";
    assert r == sep + name;
    assert r[|r| - |name|..] == name;
  }

  /** Within one directory, different names give different paths. */
  lemma JoinPathInjective(dir: string, a: string, b: string)
    requires JoinPath(dir, a) == JoinPath(dir, b)
    ensures a == b
  {
    var p := if dir == [] || dir == "." then [] else if dir[|dir| - 1] == '/' then dir else dir + "/";
    assert JoinPath(dir, a) == p + a && JoinPath(dir, b) == p + b;
    assert a == (p + a)[|p|..] && b == (p + b)[|p|..];
  }
}
