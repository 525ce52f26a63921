/** The file-name checks at the top of the `AUFile` constructor
    (lib/au-file-processing/src/AUFile.cpp, lines 21-29): a path is accepted only with
    the extension ".au", and the music style is the file name up to its first '.'.

    Paths are POSIX paths, so the file name is what follows the last '/'. The rules
    for `std::filesystem::path::extension` are those of the C++ standard: the names
    "." and ".." have none, a leading '.' does not start an extension, and otherwise
    the extension runs from the last '.' to the end. */
module Label {
  import opened AuErrors

  const Separator: char := '/'
  const Dot: char := '.'
  const AuExtension: string := ".au"

  /** The largest index below `end` holding c, if there is one. */
  function LastIndexBefore(s: string, c: char, end: nat): (r: int)
    requires end <= |s|
    ensures -1 <= r < end
    ensures r >= 0 ==> s[r] == c
    ensures forall k :: r < k < end ==> s[k] != c
    decreases end
  {
    if end == 0 then -1
    else if s[end - 1] == c then end - 1
    else LastIndexBefore(s, c, end - 1)
  }

  /** The last occurrence is the one with no later occurrence before `end`. */
  lemma {:induction false} LastIndexAt(s: string, c: char, end: nat, i: nat)
    requires i < end <= |s| && s[i] == c
    requires forall k :: i < k < end ==> s[k] != c
    ensures LastIndexBefore(s, c, end) == i
    decreases end
  {
    if end - 1 != i {
      LastIndexAt(s, c, end - 1, i);
    }
  }

  /** `std::string::find`: the first index holding c, or |s| standing for `npos`. */
  function FindFirst(s: string, c: char): (r: nat)
    ensures r <= |s|
    ensures r < |s| ==> s[r] == c
    ensures forall k :: 0 <= k < r ==> s[k] != c
  {
    if |s| == 0 then 0
    else if s[0] == c then 0
    else 1 + FindFirst(s[1..], c)
  }

  /** `path::filename`: everything after the last separator. */
  function Filename(path: string): string
  {
    path[LastIndexBefore(path, Separator, |path|) + 1..]
  }

  /** `path::extension` of a file name. */
  function Extension(name: string): string
  {
    if name == "." || name == ".." then ""
    else
      var i := LastIndexBefore(name, Dot, |name|);
      if i <= 0 then "" else name[i..]
  }

  /** Line 29: `f_path.substr(0, f_path.find('.'))`, the whole name when it holds no '.'. */
  function MusicStyle(name: string): string
  {
    name[..FindFirst(name, Dot)]
  }

  /** Lines 21-29: reject a file whose extension is not ".au", otherwise take its
      music style from the file name. */
  function CheckedStyle(path: string): (r: Result<string>)
    ensures r.Failure? ==> r.error == NotAuFile
  {
    var name := Filename(path);
    if Extension(name) != AuExtension then Failure(NotAuFile)
    else Success(MusicStyle(name))
  }

  // ---------------------------------------------------------------------------
  // Properties

  /** The file name is a suffix of the path and holds no separator. */
  lemma FilenameIsLastComponent(path: string)
    ensures |Filename(path)| <= |path|
    ensures Filename(path) == path[|path| - |Filename(path)|..]
    ensures forall k :: 0 <= k < |Filename(path)| ==> Filename(path)[k] != Separator
    ensures |Filename(path)| == |path| || path[|path| - |Filename(path)| - 1] == Separator
  {
  }

  /** A file name has the extension ".au" exactly when it ends in ".au" with at least
      one character before the dot. */
  lemma AuExtensionIff(name: string)
    ensures Extension(name) == AuExtension <==> |name| >= 4 && name[|name| - 3..] == AuExtension
  {
    var n := |name|;
    if |name| >= 4 && name[n - 3..] == AuExtension {
      assert name[n - 3] == Dot && name[n - 2] != Dot && name[n - 1] != Dot;
      LastIndexAt(name, Dot, n, n - 3);
    }
    if Extension(name) == AuExtension {
      var i := LastIndexBefore(name, Dot, n);
      assert name[i..] == AuExtension;
      assert i == n - 3;
    }
  }

  /** The style is a prefix of the file name and holds no '.'. */
  lemma StyleIsDotFreePrefix(name: string)
    ensures |MusicStyle(name)| <= |name|
    ensures MusicStyle(name) == name[..|MusicStyle(name)|]
    ensures forall k :: 0 <= k < |MusicStyle(name)| ==> MusicStyle(name)[k] != Dot
  {
  }

  /** An accepted path is one whose file name ends in ".au" after at least one
      character; its style is then followed by a '.' in the file name, so the style
      is the longest dot-free prefix. */
  lemma AcceptedPath(path: string)
    ensures CheckedStyle(path).Success? <==> |Filename(path)| >= 4 && Filename(path)[|Filename(path)| - 3..] == AuExtension
    ensures CheckedStyle(path).Success? ==>
              var name, style := Filename(path), CheckedStyle(path).value;
              style == name[..|style|] && |style| < |name| && name[|style|] == Dot
              && forall k :: 0 <= k < |style| ==> style[k] != Dot
  {
    var name := Filename(path);
    AuExtensionIff(name);
    if CheckedStyle(path).Success? {
      assert name[|name| - 3] == Dot;
      assert FindFirst(name, Dot) < |name|;
    }
  }

  /** A file in the GTZAN layout: the style is the genre before the track number. */
  lemma GenreExample()
    ensures CheckedStyle("pop/pop.7.au") == Success("pop")
  {
    var path, name := "pop/pop.7.au", "pop.7.au";
    LastIndexAt(path, Separator, |path|, 3);
    assert Filename(path) == name;
    LastIndexAt(name, Dot, |name|, 5);
    assert Extension(name) == name[5..] == AuExtension;
    assert name[0] != Dot && name[1] != Dot && name[2] != Dot && name[3] == Dot;
    assert FindFirst(name[3..], Dot) == 0;
    assert FindFirst(name, Dot) == 3;
    assert MusicStyle(name) == "pop";
  }
}
