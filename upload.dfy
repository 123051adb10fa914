/**
  The upload checks of src/middleware/upload.js: the file filter the license and proof
  uploads share, the stricter one for profile photos, and the size limit read from the
  environment. The filters test the regular expressions `/jpeg|jpg|png|pdf/` and
  `/jpeg|jpg|png/`, which are unanchored: they match when any alternative occurs anywhere.
*/
module Upload {
  import opened Common
  import Js

  // ---------------------------------------------------------------------------------------
  // path.extname (POSIX)
  // ---------------------------------------------------------------------------------------

  /** The last index of `c` in `s`, if `c` occurs. */
  function LastIndexOf(s: string, c: char): (r: Option<nat>)
    ensures r.None? ==> forall j :: 0 <= j < |s| ==> s[j] != c
    ensures r.Some? ==>
      && r.value < |s| && s[r.value] == c
      && forall j :: r.value < j < |s| ==> s[j] != c
  {
    if s == [] then None
    else if s[|s| - 1] == c then Some(|s| - 1)
    else LastIndexOf(s[..|s| - 1], c)
  }

  /** `p` without the slashes it ends with. */
  function StripTrailingSlashes(p: string): (q: string)
    ensures |q| <= |p| && q == p[..|q|]
    ensures q == [] || q[|q| - 1] != '/'
    ensures forall i :: |q| <= i < |p| ==> p[i] == '/'
  {
    if p != [] && p[|p| - 1] == '/' then StripTrailingSlashes(p[..|p| - 1]) else p
  }

  /** The last path component, ignoring trailing slashes. */
  function BaseName(p: string): (b: string)
    ensures forall i :: 0 <= i < |b| ==> b[i] != '/'
  {
    var q := StripTrailingSlashes(p);
    match LastIndexOf(q, '/')
    case None => q
    case Some(i) => q[i + 1..]
  }

  /**
    `path.extname(p)`: the last component from its last dot on; empty when there is no dot,
    when the dot starts the component (".bashrc"), and for "..".
  */
  function Extname(p: string): (e: string)
    ensures e == [] || e[0] == '.'
  {
    var base := BaseName(p);
    match LastIndexOf(base, '.')
    case None => ""
    case Some(d) => if d == 0 || base == ".." then "" else base[d..]
  }

  /** A file name `stem.ext` without slashes has the extension ".ext" when `ext` has no dot. */
  lemma ExtnameOfName(stem: string, ext: string)
    requires stem != [] && ext != []
    requires forall i :: 0 <= i < |stem| ==> stem[i] != '/'
    requires forall i :: 0 <= i < |ext| ==> ext[i] != '/' && ext[i] != '.'
    ensures Extname(stem + "." + ext) == "." + ext
  {
    var p := stem + "." + ext;
    assert p[|p| - 1] == ext[|ext| - 1];
    assert StripTrailingSlashes(p) == p;
    assert forall j :: 0 <= j < |p| ==> p[j] != '/' by {
      forall j | 0 <= j < |p| ensures p[j] != '/' {
        if j < |stem| { assert p[j] == stem[j]; }
        else if j > |stem| { assert p[j] == ext[j - |stem| - 1]; }
      }
    }
    assert BaseName(p) == p;
    var d := LastIndexOf(p, '.');
    assert p[|stem|] == '.';
    assert d.Some? && d.value == |stem| by {
      forall j | |stem| < j < |p| ensures p[j] != '.' {
        assert p[j] == ext[j - |stem| - 1];
      }
    }
    assert |p| >= 3;
    assert p[|stem|..] == "." + ext;
  }

  // ---------------------------------------------------------------------------------------
  // The file filters
  // ---------------------------------------------------------------------------------------

  const AllowedTypes: seq<string> := ["jpeg", "jpg", "png", "pdf"]
  const PhotoTypes: seq<string> := ["jpeg", "jpg", "png"]
  const FileRejected := "Only PDF and image files (JPEG, PNG) are allowed!"
  const PhotoRejected := "Only image files (JPEG, PNG) are allowed!"

  /** `/a|b|.../.test(s)`: some alternative occurs somewhere in `s`. */
  predicate MatchesAny(s: string, patterns: seq<string>) {
    exists k :: 0 <= k < |patterns| && Js.Contains(s, patterns[k])
  }

  /** What a filter tells multer: accept the file, or fail the upload with a message. */
  datatype Verdict = Accept | Reject(message: string)

  /**
    `fileFilter` of the license and proof uploads: the extension, lower-cased, and the
    mimetype, as given, must each match `/jpeg|jpg|png|pdf/`.
  */
  function FileFilter(originalName: string, mimetype: string): (v: Verdict)
    ensures v.Accept? <==>
      MatchesAny(Js.ToLowerAscii(Extname(originalName)), AllowedTypes) && MatchesAny(mimetype, AllowedTypes)
    ensures v.Reject? ==> v.message == FileRejected
  {
    if MatchesAny(Js.ToLowerAscii(Extname(originalName)), AllowedTypes) && MatchesAny(mimetype, AllowedTypes)
    then Accept else Reject(FileRejected)
  }

  /** The photo upload's filter: the same test against `/jpeg|jpg|png/`. */
  function PhotoFilter(originalName: string, mimetype: string): (v: Verdict)
    ensures v.Accept? <==>
      MatchesAny(Js.ToLowerAscii(Extname(originalName)), PhotoTypes) && MatchesAny(mimetype, PhotoTypes)
    ensures v.Reject? ==> v.message == PhotoRejected
  {
    if MatchesAny(Js.ToLowerAscii(Extname(originalName)), PhotoTypes) && MatchesAny(mimetype, PhotoTypes)
    then Accept else Reject(PhotoRejected)
  }

  /** Every photo the photo filter accepts would also pass the general filter. */
  lemma PhotoFilterIsStricter(originalName: string, mimetype: string)
    ensures PhotoFilter(originalName, mimetype).Accept? ==> FileFilter(originalName, mimetype).Accept?
  {
    forall s: string | MatchesAny(s, PhotoTypes) ensures MatchesAny(s, AllowedTypes) {
      var k, i :| 0 <= k < |PhotoTypes| && 0 <= i && Js.OccursAt(s, PhotoTypes[k], i);
      assert AllowedTypes[k] == PhotoTypes[k];
    }
  }

  /** Some character of `p` does not occur in `s`. */
  predicate LacksCharOf(s: string, p: string) {
    exists j :: 0 <= j < |p| && p[j] !in s
  }

  /** A character of `p` at index `j` that `s` lacks witnesses `LacksCharOf`. */
  lemma LacksCharAt(s: string, p: string, j: nat)
    requires j < |p| && p[j] !in s
    ensures LacksCharOf(s, p)
  {
  }

  /** No pattern matches when each pattern has a character that `s` lacks. */
  lemma NotMatched(s: string, patterns: seq<string>)
    requires forall k :: 0 <= k < |patterns| ==> LacksCharOf(s, patterns[k])
    ensures !MatchesAny(s, patterns)
  {
    forall k, i | 0 <= k < |patterns| && 0 <= i ensures !Js.OccursAt(s, patterns[k], i) {
      var p := patterns[k];
      var j :| 0 <= j < |p| && p[j] !in s;
      if i + |p| <= |s| {
        assert s[i..i + |p|][j] == s[i + j];
      }
    }
  }

  /** A string without 'j' and 'g' matches none of the photo types. */
  lemma NoPhotoType(s: string)
    requires 'j' !in s && 'g' !in s
    ensures !MatchesAny(s, PhotoTypes)
  {
    assert PhotoTypes[0][0] == 'j' && PhotoTypes[1][0] == 'j' && PhotoTypes[2][2] == 'g';
    LacksCharAt(s, PhotoTypes[0], 0);
    LacksCharAt(s, PhotoTypes[1], 0);
    LacksCharAt(s, PhotoTypes[2], 2);
    NotMatched(s, PhotoTypes);
  }

  /**
    A PDF is never accepted as a photo: not a file whose extension is ".pdf" in any case, and
    not a file sent as application/pdf, whatever its name.
  */
  lemma PdfIsNeverAPhoto(originalName: string, mimetype: string)
    requires Js.ToLowerAscii(Extname(originalName)) == ".pdf" || mimetype == "application/pdf"
    ensures PhotoFilter(originalName, mimetype) == Reject(PhotoRejected)
  {
    if mimetype == "application/pdf" {
      PdfMimetypeIsNoPhotoType();
    } else {
      PdfExtensionIsNoPhotoType();
    }
  }

  /** "application/pdf" contains neither 'j' nor 'g', so no photo type. */
  lemma PdfMimetypeIsNoPhotoType()
    ensures !MatchesAny("application/pdf", PhotoTypes)
  {
    var m := "application/pdf";
    assert forall i :: 0 <= i < |m| ==> m[i] != 'j' && m[i] != 'g';
    NoPhotoType(m);
  }

  /** Nor does the extension ".pdf". */
  lemma PdfExtensionIsNoPhotoType()
    ensures !MatchesAny(".pdf", PhotoTypes)
  {
    var e := ".pdf";
    assert forall i :: 0 <= i < |e| ==> e[i] != 'j' && e[i] != 'g';
    NoPhotoType(e);
  }

  /** The extension ".pdf" in any case lower-cases to ".pdf". */
  lemma LowerPdf(ext: string)
    requires |ext| == 4 && ext[0] == '.'
    requires ext[1] in "pP" && ext[2] in "dD" && ext[3] in "fF"
    ensures Js.ToLowerAscii(ext) == ".pdf"
  {
  }

  /** A string in which `AllowedTypes[k]` occurs at `i` passes both filters' pattern test. */
  lemma MatchesAt(s: string, k: nat, i: nat)
    requires k < |PhotoTypes| && Js.OccursAt(s, PhotoTypes[k], i)
    ensures MatchesAny(s, PhotoTypes) && MatchesAny(s, AllowedTypes)
  {
    assert AllowedTypes[k] == PhotoTypes[k];
  }

  /** "png" starts at `i` in `s` when the three characters there are p, n, g. */
  lemma PngAt(s: string, i: nat)
    requires i + 3 <= |s| && s[i] == 'p' && s[i + 1] == 'n' && s[i + 2] == 'g'
    ensures Js.OccursAt(s, PhotoTypes[2], i)
  {
    assert s[i..i + 3] == "png";
  }

  /** Lower-casing leaves the leading dot and lower-cases the rest. */
  lemma ToLowerAfterDot(e: string)
    ensures Js.ToLowerAscii("." + e) == "." + Js.ToLowerAscii(e)
  {
    assert Js.ToLowerAscii("." + e) == "." + Js.ToLowerAscii(e)
      by { assert forall i :: 0 <= i < |e| ==> ("." + e)[i + 1] == e[i]; }
  }

  /** The lower-cased extension of `stem.ext` is "." followed by `ext` lower-cased. */
  lemma LowerExtnameOfName(stem: string, ext: string)
    requires stem != [] && ext != []
    requires forall i :: 0 <= i < |stem| ==> stem[i] != '/'
    requires forall i :: 0 <= i < |ext| ==> ext[i] != '/' && ext[i] != '.'
    ensures Js.ToLowerAscii(Extname(stem + "." + ext)) == "." + Js.ToLowerAscii(ext)
  {
    ExtnameOfName(stem, ext);
    ToLowerAfterDot(ext);
  }

  /**
    The extension half of the test ignores case: two names that differ only in the case of
    their extension get the same verdict from both filters.
  */
  lemma ExtensionCaseIsIgnored(stem: string, ext1: string, ext2: string, mimetype: string)
    requires stem != [] && ext1 != [] && ext2 != []
    requires forall i :: 0 <= i < |stem| ==> stem[i] != '/'
    requires forall i :: 0 <= i < |ext1| ==> ext1[i] != '/' && ext1[i] != '.'
    requires forall i :: 0 <= i < |ext2| ==> ext2[i] != '/' && ext2[i] != '.'
    requires Js.ToLowerAscii(ext1) == Js.ToLowerAscii(ext2)
    ensures FileFilter(stem + "." + ext1, mimetype) == FileFilter(stem + "." + ext2, mimetype)
    ensures PhotoFilter(stem + "." + ext1, mimetype) == PhotoFilter(stem + "." + ext2, mimetype)
  {
    LowerExtnameOfName(stem, ext1);
    LowerExtnameOfName(stem, ext2);
  }

  /**
    The mimetype half is case-sensitive: a mimetype without lower-case letters, such as
    IMAGE/PNG, is refused by both filters whatever the file is called.
  */
  lemma UpperCaseMimetypeIsRefused(originalName: string, mimetype: string)
    requires forall i :: 0 <= i < |mimetype| ==> !('a' <= mimetype[i] <= 'z')
    ensures FileFilter(originalName, mimetype) == Reject(FileRejected)
    ensures PhotoFilter(originalName, mimetype) == Reject(PhotoRejected)
  {
    assert AllowedTypes[0][0] == 'j' && AllowedTypes[1][0] == 'j';
    assert AllowedTypes[2][0] == 'p' && AllowedTypes[3][0] == 'p';
    assert 'j' !in mimetype && 'p' !in mimetype;
    LacksCharAt(mimetype, AllowedTypes[0], 0);
    LacksCharAt(mimetype, AllowedTypes[1], 0);
    LacksCharAt(mimetype, AllowedTypes[2], 0);
    LacksCharAt(mimetype, AllowedTypes[3], 0);
    NotMatched(mimetype, AllowedTypes);
    NoPhotoType(mimetype);
  }

  /**
    The tests are unanchored: a name and mimetype that merely contain "png" somewhere, such
    as "archive.pngz" sent as "application/x-png-archive", pass both filters.
  */
  lemma FilterIsUnanchored(stem: string, ext: string, mimetype: string, i: nat, j: nat)
    requires stem != [] && ext != []
    requires forall k :: 0 <= k < |stem| ==> stem[k] != '/'
    requires forall k :: 0 <= k < |ext| ==> ext[k] != '/' && ext[k] != '.'
    requires i + 3 <= |ext| && ext[i] == 'p' && ext[i + 1] == 'n' && ext[i + 2] == 'g'
    requires j + 3 <= |mimetype| && mimetype[j] == 'p' && mimetype[j + 1] == 'n' && mimetype[j + 2] == 'g'
    ensures FileFilter(stem + "." + ext, mimetype).Accept?
    ensures PhotoFilter(stem + "." + ext, mimetype).Accept?
  {
    LowerExtnameOfName(stem, ext);
    PngAfterDot(ext, i);
    PngAt(mimetype, j);
    MatchesAt(mimetype, 2, j);
  }

  /** Lower-casing keeps "png" where it is, so ".ext" still matches. */
  lemma PngAfterDot(ext: string, i: nat)
    requires i + 3 <= |ext| && ext[i] == 'p' && ext[i + 1] == 'n' && ext[i + 2] == 'g'
    ensures MatchesAny("." + Js.ToLowerAscii(ext), PhotoTypes)
    ensures MatchesAny("." + Js.ToLowerAscii(ext), AllowedTypes)
  {
    var t := Js.ToLowerAscii(ext);
    assert t[i] == 'p' && t[i + 1] == 'n' && t[i + 2] == 'g';
    DotPng(t, i);
  }

  /** "png" inside `t` is still "png" one place later in "." + `t`. */
  lemma DotPng(t: string, i: nat)
    requires i + 3 <= |t| && t[i] == 'p' && t[i + 1] == 'n' && t[i + 2] == 'g'
    ensures MatchesAny("." + t, PhotoTypes) && MatchesAny("." + t, AllowedTypes)
  {
    var e := "." + t;
    assert e[i + 1] == 'p' && e[i + 2] == 'n' && e[i + 3] == 'g';
    PngAt(e, i + 1);
    MatchesAt(e, 2, i + 1);
  }

  // ---------------------------------------------------------------------------------------
  // The size limit
  // ---------------------------------------------------------------------------------------

  const DefaultMaxFileSize := 5 * 1024 * 1024

  /**
    `parseInt(process.env.MAX_FILE_SIZE) || 5 * 1024 * 1024`: an unset variable, a value that
    does not start with a number, and zero all give the 5 MiB default.
  */
  function MaxFileSize(variable: Option<string>): (r: int)
    ensures variable.None? ==> r == DefaultMaxFileSize
    ensures variable.Some? ==> match Js.ParseInt(variable.value)
      case Some(n) => r == if n != 0 then n else DefaultMaxFileSize
      case None => r == DefaultMaxFileSize
  {
    if variable.None? then DefaultMaxFileSize
    else
      match Js.ParseInt(variable.value)
      case Some(n) => if n != 0 then n else DefaultMaxFileSize
      case None => DefaultMaxFileSize
  }

  /** A limit written as a decimal integer is that integer, except that 0 means the default. */
  lemma MaxFileSizeOfNumber(n: int)
    ensures MaxFileSize(Some(Js.IntToString(n))) == if n != 0 then n else DefaultMaxFileSize
  {
    Js.ParseIntOfIntToString(n);
  }

  /** Leading white space, such as U+3000, does not change the limit read from the variable. */
  lemma MaxFileSizeOfSpacedNumber(c: char, n: int)
    requires Js.IsJsSpace(c)
    ensures MaxFileSize(Some([c] + Js.IntToString(n))) == if n != 0 then n else DefaultMaxFileSize
  {
    Js.ParseIntSkipsLeadingSpace(c, Js.IntToString(n));
    Js.ParseIntOfIntToString(n);
  }
}
