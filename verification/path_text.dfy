/**
 * The two pieces of string handling the drag-and-drop code relies on:
 * the extension of a dropped path (`Path::extension`) and the substring
 * test `str::contains`.  Paths are modelled as plain character sequences.
 */
module PathText {
  import opened Wrappers

  type Path = string

  /** `needle` occurs in `hay` starting at position `i`. */
  ghost predicate OccursAt(hay: string, needle: string, i: nat)
  {
    i + |needle| <= |hay| && hay[i..i + |needle|] == needle
  }

  /** Substring test, as `str::contains` with a string pattern (case-sensitive; the empty needle always occurs). */
  function Contains(hay: string, needle: string): (r: bool)
    ensures r <==> exists i: nat :: OccursAt(hay, needle, i)
    decreases |hay|
  {
    if needle <= hay then
      assert OccursAt(hay, needle, 0);
      true
    else if hay == [] then
      false
    else
      ShiftOccurrence(hay, needle);
      Contains(hay[1..], needle)
  }

  /** Character-by-character agreement is an occurrence. */
  lemma OccursAtByChars(hay: string, needle: string, i: nat)
    requires i + |needle| <= |hay|
    requires forall k :: 0 <= k < |needle| ==> hay[i + k] == needle[k]
    ensures OccursAt(hay, needle, i)
  {
    assert hay[i..i + |needle|] == needle;
  }

  /** An occurrence at position 0 is a prefix. */
  lemma OccursAtStart(hay: string, needle: string)
    requires OccursAt(hay, needle, 0)
    ensures needle <= hay
  {
    assert hay[..|needle|] == needle;
  }

  /** Occurrences in the tail of `hay` are the occurrences in `hay` after position 0. */
  lemma ShiftOccurrence(hay: string, needle: string)
    requires hay != [] && !(needle <= hay)
    ensures (exists i: nat :: OccursAt(hay[1..], needle, i)) <==> (exists i: nat :: OccursAt(hay, needle, i))
  {
    forall i: nat | OccursAt(hay[1..], needle, i)
      ensures OccursAt(hay, needle, i + 1)
    {
      assert hay[1..][i..i + |needle|] == hay[i + 1..i + 1 + |needle|];
    }
    assert !OccursAt(hay, needle, 0) by {
      if OccursAt(hay, needle, 0) {
        OccursAtStart(hay, needle);
      }
    }
    forall i: nat | OccursAt(hay, needle, i)
      ensures OccursAt(hay[1..], needle, i - 1)
    {
      assert hay[1..][i - 1..i - 1 + |needle|] == hay[i..i + |needle|];
    }
  }

  /** Position of the last occurrence of `c` in `s`, if any. */
  function LastIndexOf(s: string, c: char): (r: Option<nat>)
    ensures r.None? <==> c !in s
    ensures r.Some? ==> r.value < |s| && s[r.value] == c && c !in s[r.value + 1..]
  {
    if s == [] then None
    else if s[|s| - 1] == c then Some(|s| - 1)
    else
      var r := LastIndexOf(s[..|s| - 1], c);
      assert s == s[..|s| - 1] + [s[|s| - 1]];
      r
  }

  /** A position holding `c` with no `c` after it is the last occurrence. */
  lemma LastIndexOfAt(s: string, c: char, i: nat)
    requires i < |s| && s[i] == c && c !in s[i + 1..]
    ensures LastIndexOf(s, c) == Some(i)
  {
  }

  /** The final component of a path: everything after the last '/'. */
  function FileName(p: Path): (r: string)
    ensures '/' !in r
    ensures |r| <= |p| && p[|p| - |r|..] == r
    ensures r == p || p[|p| - |r| - 1] == '/'
  {
    match LastIndexOf(p, '/')
    case None => p
    case Some(i) => p[i + 1..]
  }

  /**
   * The extension carried by a file name: the text after its last '.',
   * unless that dot opens the name (a hidden file such as ".png" has none)
   * or the name is "..".
   */
  function NameExtension(name: string): (r: Option<string>)
    ensures r.Some? ==> '.' !in r.value
    ensures r.Some? ==> |r.value| + 1 < |name| && name[|name| - |r.value| - 1] == '.' && name[|name| - |r.value|..] == r.value
    ensures r.None? <==> name == ".." || forall k :: 0 < k < |name| ==> name[k] != '.'
  {
    if name == ".." then None
    else
      match LastIndexOf(name, '.')
      case None => None
      case Some(i) =>
        if i == 0 then
          assert forall k :: 0 < k < |name| ==> name[k] == name[i + 1..][k - 1];
          None
        else
          Some(name[i + 1..])
  }

  /** The extension of a path, after `Path::extension`: that of its file name. */
  function Extension(p: Path): (r: Option<string>)
    ensures r.Some? ==> '.' !in r.value
  {
    NameExtension(FileName(p))
  }

  /** An extension is the text after a '.' that ends the path, and holds no '/'. */
  lemma ExtensionIsDottedSuffix(p: Path)
    ensures var r := Extension(p);
      r.Some? ==> '/' !in r.value && |r.value| < |p| && p[|p| - |r.value| - 1] == '.' && p[|p| - |r.value|..] == r.value
  {
    NameExtensionInPath(p, FileName(p));
  }

  /** The extension of a '/'-free suffix of a path is a dotted suffix of the path. */
  lemma NameExtensionInPath(p: Path, name: string)
    requires |name| <= |p| && p[|p| - |name|..] == name && '/' !in name
    ensures var r := NameExtension(name);
      r.Some? ==> '/' !in r.value && |r.value| < |p| && p[|p| - |r.value| - 1] == '.' && p[|p| - |r.value|..] == r.value
  {
    var r := NameExtension(name);
    if r.Some? {
      DottedSuffix(p, name, r.value);
    }
  }

  /**
   * A path has no extension exactly when its file name is "..", or has no
   * '.' after its first character.
   */
  lemma ExtensionNone(p: Path)
    ensures Extension(p).None? <==> FileName(p) == ".." || forall k :: 0 < k < |FileName(p)| ==> FileName(p)[k] != '.'
  {
  }

  /** A dotted suffix of the file name is a dotted suffix of the whole path, and has no '/'. */
  lemma DottedSuffix(p: Path, name: string, e: string)
    requires |name| <= |p|
    requires p[|p| - |name|..] == name
    requires '/' !in name
    requires |e| + 1 < |name|
    requires name[|name| - |e| - 1] == '.'
    requires name[|name| - |e|..] == e
    ensures '/' !in e
    ensures p[|p| - |e| - 1] == '.' && p[|p| - |e|..] == e
  {
    var dir := p[..|p| - |name|];
    var stem := name[..|name| - |e| - 1];
    assert p == dir + name;
    assert name == stem + "." + e;
    assert p == (dir + stem) + "." + e;
  }

  /** A path without '/' is its own file name. */
  lemma FileNameOfPlainName(name: string)
    requires '/' !in name
    ensures FileName(name) == name
  {
  }

  /** A file name made of a non-empty stem, a dot and a dot-free suffix has that suffix as its extension. */
  lemma ExtensionOfName(stem: string, ext: string)
    requires stem != [] && '/' !in stem && '.' !in ext && '/' !in ext && stem + "." + ext != ".."
    ensures Extension(stem + "." + ext) == Some(ext)
  {
    var p := stem + "." + ext;
    assert p[|stem|] == '.';
    assert p[|stem| + 1..] == ext;
    assert '/' !in p by {
      forall k | 0 <= k < |p|
        ensures p[k] != '/'
      {
        if k < |stem| {
          assert p[k] == stem[k];
        } else if k > |stem| {
          assert p[k] == ext[k - |stem| - 1];
        }
      }
    }
    FileNameOfPlainName(p);
    LastIndexOfAt(p, '.', |stem|);
  }

  /** Appending text without '/' to a path extends its file name by that text. */
  lemma FileNameAppend(front: Path, tail: string)
    requires '/' !in tail
    ensures FileName(front + tail) == FileName(front) + tail
  {
    var p := front + tail;
    match LastIndexOf(front, '/')
    case None =>
      assert '/' !in p by {
        forall k | 0 <= k < |p|
          ensures p[k] != '/'
        {
          if k < |front| {
            assert p[k] == front[k];
          } else {
            assert p[k] == tail[k - |front|];
          }
        }
      }
    case Some(i) =>
      assert p[i + 1..] == front[i + 1..] + tail;
      assert '/' !in p[i + 1..] by {
        forall k | i + 1 <= k < |p|
          ensures p[k] != '/'
        {
          if k < |front| {
            assert p[k] == front[i + 1..][k - i - 1];
          } else {
            assert p[k] == tail[k - |front|];
          }
        }
      }
      LastIndexOfAt(p, '/', i);
  }

  /** A path has an empty file name exactly when it is empty or ends in '/'. */
  lemma EmptyFileName(p: Path)
    ensures FileName(p) == [] <==> p == [] || p[|p| - 1] == '/'
  {
    if p != [] && p[|p| - 1] == '/' {
      LastIndexOfAt(p, '/', |p| - 1);
    }
  }

  /** A file name "stem.ext": the extension is `ext`, or none when the stem is empty. */
  lemma NameExtensionOfDotted(stem: string, ext: string)
    requires ext != [] && '.' !in ext && '/' !in ext && '/' !in stem
    ensures NameExtension(stem + "." + ext) == if stem == [] then None else Some(ext)
  {
    var name := stem + "." + ext;
    if stem == [] {
      assert forall k :: 0 < k < |name| ==> name[k] == ext[k - 1];
    } else {
      assert name[|name| - 1] == ext[|ext| - 1];
      ExtensionOfName(stem, ext);
      FileNameOfPlainName(name);
    }
  }

  /**
   * A path ending in '.' and a non-empty, dot-free suffix: the suffix is the
   * extension, unless the dot opens the file name (nothing before it, or a
   * '/' right before it), in which case there is none.
   */
  lemma ExtensionOfDottedSuffix(front: Path, ext: string)
    requires ext != [] && '.' !in ext && '/' !in ext
    ensures Extension(front + "." + ext) ==
              if front == [] || front[|front| - 1] == '/' then None else Some(ext)
  {
    assert front + "." + ext == front + ("." + ext);
    FileNameAppend(front, "." + ext);
    EmptyFileName(front);
    assert FileName(front) + ("." + ext) == FileName(front) + "." + ext;
    NameExtensionOfDotted(FileName(front), ext);
  }

  /**
   * Only the final component of a path carries its extension: the directory
   * part does not count.  The component is neither "" nor ".", which
   * `Path` would skip over.
   */
  lemma ExtensionUnderDirectory(dir: Path, name: string)
    requires '/' !in name && name != "" && name != "."
    ensures Extension(dir + "/" + name) == Extension(name)
  {
    var p := dir + "/" + name;
    assert p[|dir|] == '/';
    assert p[|dir| + 1..] == name;
    LastIndexOfAt(p, '/', |dir|);
    FileNameOfPlainName(name);
  }
}
