/**
 * The path-string helpers (Sources/Dependencies/Includes/path_utils.h):
 * separator normalisation, joining, and taking the file name of a path.
 *
 * The separators are chosen at compile time in the source (`\` with `/` as
 * the alternative on Windows, the other way round elsewhere); here the
 * platform is a parameter.
 */
module PathUtils {
  import opened Wrappers

  /** The build target, which fixes `PATH_SEP` and `ALT_SEP` (path_utils.h:69-75). */
  datatype Platform = Windows | Posix

  function PathSep(p: Platform): char
  {
    if p.Windows? then '\\' else '/'
  }

  function AltSep(p: Platform): char
  {
    if p.Windows? then '/' else '\\'
  }

  /** The two separators of a platform differ. */
  lemma SeparatorsDiffer(p: Platform)
    ensures PathSep(p) != AltSep(p)
  {
  }

  /** One character of `sanitize_path`: an alternative separator becomes the platform separator. */
  function SanitizeChar(p: Platform, c: char): char
  {
    if c == AltSep(p) then PathSep(p) else c
  }

  /** The string `sanitize_path` returns. */
  function Sanitized(p: Platform, path: string): (r: string)
    ensures |r| == |path|
    ensures forall i | 0 <= i < |r| :: r[i] == SanitizeChar(p, path[i])
  {
    seq(|path|, i requires 0 <= i < |path| => SanitizeChar(p, path[i]))
  }

  /** No alternative separator occurs in s. */
  predicate NoAltSep(p: Platform, s: string)
  {
    forall i | 0 <= i < |s| :: s[i] != AltSep(p)
  }

  /**
   * `sanitize_path` keeps the length, leaves no alternative separator,
   * changes nothing else, and a second pass changes nothing.
   */
  lemma SanitizedProperties(p: Platform, path: string)
    ensures |Sanitized(p, path)| == |path|
    ensures NoAltSep(p, Sanitized(p, path))
    ensures forall i | 0 <= i < |path| && path[i] != AltSep(p) :: Sanitized(p, path)[i] == path[i]
    ensures Sanitized(p, Sanitized(p, path)) == Sanitized(p, path)
  {
    var s := Sanitized(p, path);
    assert forall i | 0 <= i < |s| :: s[i] != AltSep(p) by {
      SeparatorsDiffer(p);
    }
    assert Sanitized(p, s) == s;
  }

  /** A string without alternative separators is left as it is. */
  lemma SanitizedFixed(p: Platform, s: string)
    requires NoAltSep(p, s)
    ensures Sanitized(p, s) == s
  {
  }

  /** `sanitize_path` (path_utils.h:77-83): the loop that rewrites each alternative separator in place. */
  method SanitizePath(p: Platform, path: string) returns (r: string)
    ensures r == Sanitized(p, path)
  {
    r := path;
    var i := 0;
    while i < |r|
      invariant 0 <= i <= |r| == |path|
      invariant forall j | 0 <= j < i :: r[j] == SanitizeChar(p, path[j])
      invariant forall j | i <= j < |r| :: r[j] == path[j]
    {
      if r[i] == AltSep(p) {
        r := r[i := PathSep(p)];
      }
      i := i + 1;
    }
  }

  /** The string `append_path_part` leaves in `result`. */
  function Appended(p: Platform, result: string, part: string): string
  {
    if |result| == 0 then Sanitized(p, part)
    else if result[|result| - 1] != PathSep(p) then result + [PathSep(p)] + Sanitized(p, part)
    else result + Sanitized(p, part)
  }

  /**
   * `append_path_part` (path_utils.h:85-95): the sanitized part is appended,
   * after one platform separator unless `result` is empty or already ends
   * with one.
   */
  method AppendPathPart(p: Platform, result: string, part: string) returns (r: string)
    ensures r == Appended(p, result, part)
    ensures |result| == 0 ==> r == Sanitized(p, part)
    ensures |result| > 0 ==> |result| <= |r| && r[..|result|] == result
    ensures |result| > 0 && result[|result| - 1] != PathSep(p) ==>
      |r| == |result| + 1 + |part| && r[|result|] == PathSep(p) && r[|result| + 1..] == Sanitized(p, part)
    ensures |result| > 0 && result[|result| - 1] == PathSep(p) ==>
      |r| == |result| + |part| && r[|result|..] == Sanitized(p, part)
  {
    var sanitized := SanitizePath(p, part);
    if |result| == 0 {
      return sanitized;
    }
    r := result;
    if r[|r| - 1] != PathSep(p) {
      r := r + [PathSep(p)];
    }
    r := r + sanitized;
  }

  /** The string `path_combine` builds from its arguments, left to right. */
  function Combined(p: Platform, parts: seq<string>): string
    decreases |parts|
  {
    if |parts| == 0 then [] else Appended(p, Combined(p, parts[..|parts| - 1]), parts[|parts| - 1])
  }

  /** Appending keeps a string free of alternative separators. */
  lemma AppendedNoAltSep(p: Platform, result: string, part: string)
    requires NoAltSep(p, result)
    ensures NoAltSep(p, Appended(p, result, part))
  {
    SanitizedProperties(p, part);
    SeparatorsDiffer(p);
    var r := Appended(p, result, part);
    var s := Sanitized(p, part);
    if |result| > 0 && result[|result| - 1] != PathSep(p) {
      forall i | 0 <= i < |r|
        ensures r[i] != AltSep(p)
      {
        if i < |result| {
          assert r[i] == result[i];
        } else if i > |result| {
          assert r[i] == s[i - |result| - 1];
        }
      }
    } else if |result| > 0 {
      forall i | 0 <= i < |r|
        ensures r[i] != AltSep(p)
      {
        if i < |result| {
          assert r[i] == result[i];
        } else {
          assert r[i] == s[i - |result|];
        }
      }
    }
  }

  /** The output of `path_combine` holds no alternative separator. */
  lemma {:induction false} CombinedNoAltSep(p: Platform, parts: seq<string>)
    ensures NoAltSep(p, Combined(p, parts))
    decreases |parts|
  {
    if |parts| > 0 {
      CombinedNoAltSep(p, parts[..|parts| - 1]);
      AppendedNoAltSep(p, Combined(p, parts[..|parts| - 1]), parts[|parts| - 1]);
    }
  }

  /** `path_combine` (path_utils.h:97-106): at least one argument, each appended in turn. */
  method PathCombine(p: Platform, parts: seq<string>) returns (r: string)
    requires |parts| > 0
    ensures r == Combined(p, parts)
    ensures NoAltSep(p, r)
  {
    r := [];
    var i := 0;
    while i < |parts|
      invariant 0 <= i <= |parts|
      invariant r == Combined(p, parts[..i])
    {
      assert parts[..i + 1][..i] == parts[..i];
      r := AppendPathPart(p, r, parts[i]);
      i := i + 1;
    }
    assert parts[..i] == parts;
    CombinedNoAltSep(p, parts);
  }

  /** `find_last_of` with one character: the last index holding c, or None for `npos`. */
  function LastIndexOf(s: string, c: char): (r: Option<nat>)
    ensures r.Some? ==> r.value < |s| && s[r.value] == c && forall j | r.value < j < |s| :: s[j] != c
    ensures r.None? ==> forall j | 0 <= j < |s| :: s[j] != c
    decreases |s|
  {
    if |s| == 0 then None
    else if s[|s| - 1] == c then Some(|s| - 1)
    else LastIndexOf(s[..|s| - 1], c)
  }

  /** The later of the two `find_last_of` results (path_utils.h:112-121). */
  function LastSeparator(p: Platform, path: string): (r: Option<nat>)
    ensures r.Some? ==> r.value < |path| && (path[r.value] == PathSep(p) || path[r.value] == AltSep(p))
    ensures forall j | (if r.Some? then r.value + 1 else 0) <= j < |path| :: path[j] != PathSep(p) && path[j] != AltSep(p)
  {
    var pos1 := LastIndexOf(path, PathSep(p));
    var pos2 := LastIndexOf(path, AltSep(p));
    if pos1.Some? && pos2.Some? then (if pos1.value > pos2.value then pos1 else pos2)
    else if pos1.Some? then pos1
    else pos2
  }

  /** s holds neither separator. */
  predicate NoSeparator(p: Platform, s: string)
  {
    forall i | 0 <= i < |s| :: s[i] != PathSep(p) && s[i] != AltSep(p)
  }

  /**
   * `get_filename` (path_utils.h:108-124): the part of the path after its
   * last separator of either kind; the whole path if it has none.
   */
  function GetFilename(p: Platform, path: string): (r: string)
    ensures |r| <= |path| && r == path[|path| - |r|..]
    ensures NoSeparator(p, r)
    ensures |r| < |path| ==> path[|path| - |r| - 1] == PathSep(p) || path[|path| - |r| - 1] == AltSep(p)
    ensures |path| == 0 ==> r == []
  {
    if |path| == 0 then []
    else match LastSeparator(p, path)
      case Some(pos) => path[pos + 1..]
      case None => path
  }

  /**
   * `get_filename_no_ext` (path_utils.h:126-148): the file name without
   * its last '.' and everything after it; a name without '.' is kept whole.
   */
  function GetFilenameNoExt(p: Platform, path: string): (r: string)
    ensures var name := GetFilename(p, path);
      |r| <= |name| && r == name[..|r|] &&
      (|r| < |name| ==> name[|r|] == '.' && forall j | |r| < j < |name| :: name[j] != '.') &&
      (|r| == |name| ==> forall j | 0 <= j < |name| :: name[j] != '.')
  {
    var filename := GetFilename(p, path);
    match LastIndexOf(filename, '.')
    case Some(dot) => filename[..dot]
    case None => filename
  }
}
