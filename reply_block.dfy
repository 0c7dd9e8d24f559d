/** The file-type badge the reply page shows next to an attachment: a style
    class and a short label, chosen from the file name's extension, then
    from the MIME type, then by a fallback. */
module ReplyBlock {
  import opened Common

  /** A badge: the style class and the caption (the "class" and "label" keys). */
  datatype FileType = FileType(cssClass: string, caption: string)

  /** The position of the last `c` in `s`, if any. */
  function LastIndexOf(s: string, c: char): (r: Option<nat>)
    ensures r.Some? ==> r.value < |s| && s[r.value] == c && c !in s[r.value + 1..]
    ensures r.None? <==> c !in s
  {
    if s == [] then None
    else if s[|s| - 1] == c then Some(|s| - 1)
    else
      match LastIndexOf(s[..|s| - 1], c)
      case Some(i) => assert s[i + 1..] == s[..|s| - 1][i + 1..] + [s[|s| - 1]]; Some(i)
      case None => assert s == s[..|s| - 1] + [s[|s| - 1]]; None
  }

  /** What follows the last `c` in `s`, or "" when there is none. */
  function AfterLast(s: string, c: char): string
  {
    match LastIndexOf(s, c)
    case Some(i) => s[i + 1..]
    case None => ""
  }

  /** `basename`, for a name without trailing slashes: what follows the
      last '/', or the whole name. */
  function BaseName(s: string): string
  {
    match LastIndexOf(s, '/')
    case Some(i) => s[i + 1..]
    case None => s
  }

  /** `pathinfo(name, PATHINFO_EXTENSION)`: what follows the last '.' of the
      base name, or "" when it has no dot. */
  function Extension(filename: string): string
  {
    AfterLast(BaseName(filename), '.')
  }

  /** Bytes after the last `c` do not move it. */
  lemma {:induction false} LastIndexOfSkip(s: string, t: string, c: char)
    requires c !in t
    ensures LastIndexOf(s + t, c) == LastIndexOf(s, c)
  {
    if t != [] {
      var init := t[..|t| - 1];
      assert (s + t)[..|s + t| - 1] == s + init;
      LastIndexOfSkip(s, init, c);
    } else {
      assert s + t == s;
    }
  }

  /** What follows a `c` with no `c` after it. */
  lemma AfterLastOf(s: string, t: string, c: char)
    requires c !in t
    ensures AfterLast(s + [c] + t, c) == t
  {
    LastIndexOfSkip(s + [c], t, c);
    assert (s + [c])[..|s + [c]| - 1] == s;
    assert (s + [c] + t)[|s| + 1..] == t;
  }

  /** Appending bytes without a '/' appends them to the base name. */
  lemma BaseNameKeepsTail(stem: string, tail: string)
    requires '/' !in tail
    ensures BaseName(stem + tail) == BaseName(stem) + tail
  {
    LastIndexOfSkip(stem, tail, '/');
    match LastIndexOf(stem, '/')
    case None =>
    case Some(j) =>
      SuffixOfConcat(stem, tail, j + 1);
  }

  /** A suffix that starts inside `a` runs on through `b`. */
  lemma SuffixOfConcat(a: string, b: string, k: nat)
    requires k <= |a|
    ensures (a + b)[k..] == a[k..] + b
  {
    var l := (a + b)[k..];
    var r := a[k..] + b;
    assert |l| == |r|;
    forall i | 0 <= i < |l| ensures l[i] == r[i] {
      if i < |a| - k {
        assert l[i] == a[k + i] == r[i];
      } else {
        assert l[i] == b[i - (|a| - k)] == r[i];
      }
    }
  }

  /** The extension is what follows the last dot of the name, whatever the
      directories and the stem hold. */
  lemma ExtensionAfterLastDot(stem: string, ext: string)
    requires '.' !in ext && '/' !in ext
    ensures Extension(stem + "." + ext) == ext
  {
    assert stem + "." + ext == stem + ("." + ext);
    BaseNameKeepsTail(stem, "." + ext);
    assert BaseName(stem) + ("." + ext) == BaseName(stem) + ['.'] + ext;
    AfterLastOf(BaseName(stem), ext, '.');
  }

  /** A base name without a dot has no extension. */
  lemma ExtensionWithoutDot(dir: string, base: string)
    requires '.' !in base && '/' !in base
    ensures Extension(dir + "/" + base) == ""
    ensures Extension(base) == ""
  {
    LastIndexOfSkip([], base, '/');
    assert [] + base == base;
    assert dir + "/" + base == dir + ['/'] + base;
    LastIndexOfSkip(dir + ['/'], base, '/');
    assert (dir + ['/'])[..|dir + ['/']| - 1] == dir;
    assert (dir + ['/'] + base)[|dir| + 1..] == base;
  }

  /** The extension lists, in the order they are tried. */
  const ImageExtensions: seq<string> := ["jpg", "jpeg", "png", "gif", "webp", "svg"]
  const WordExtensions: seq<string> := ["doc", "docx", "rtf"]
  const ExcelExtensions: seq<string> := ["xls", "xlsx", "csv"]
  const PowerPointExtensions: seq<string> := ["ppt", "pptx"]
  const ArchiveExtensions: seq<string> := ["zip", "rar", "7z", "tar", "gz"]
  const CodeExtensions: seq<string> := ["php", "js", "css", "html", "xml", "json"]
  const TextExtensions: seq<string> := ["txt", "md"]

  /** The extensions with a badge of their own. None of them is a numeric
      string, so PHP's loose `in_array` is plain equality on them. */
  predicate Recognised(ext: string)
  {
    || ext == "pdf" || ext in ImageExtensions || ext in WordExtensions || ext in ExcelExtensions
    || ext in PowerPointExtensions || ext in ArchiveExtensions || ext in CodeExtensions
    || ext in TextExtensions
  }

  /** The badge an extension (already lower-cased) selects. */
  function ByExtension(ext: string): (r: Option<FileType>)
    ensures r.Some? <==> Recognised(ext)
    ensures r.Some? ==> r.value.cssClass in FileClasses
  {
    if ext == "pdf" then Some(FileType("type-pdf", "PDF"))
    else if ext in ImageExtensions then Some(FileType("type-image", Upper(ext)))
    else if ext in WordExtensions then Some(FileType("type-word", "DOC"))
    else if ext in ExcelExtensions then Some(FileType("type-excel", "XLS"))
    else if ext in PowerPointExtensions then Some(FileType("type-powerpoint", "PPT"))
    else if ext in ArchiveExtensions then Some(FileType("type-archive", "ZIP"))
    else if ext in CodeExtensions then Some(FileType("type-code", "CODE"))
    else if ext in TextExtensions then Some(FileType("type-text", "TXT"))
    else None
  }

  /** The badge a MIME type selects; the prefix test is case-sensitive. */
  function ByMime(mime: string): (r: Option<FileType>)
    ensures r.Some? <==> IsPrefix("image/", mime) || IsPrefix("audio/", mime) || IsPrefix("video/", mime)
    ensures r.Some? ==> r.value.cssClass in FileClasses
  {
    if IsPrefix("image/", mime) then Some(FileType("type-image", "IMG"))
    else if IsPrefix("audio/", mime) then Some(FileType("type-audio", "AUD"))
    else if IsPrefix("video/", mime) then Some(FileType("type-video", "VID"))
    else None
  }

  /** The label of the fallback badge: the first three bytes of the
      extension in capitals, or "FILE" when that is "" or "0". */
  function FallbackLabel(ext: string): (r: string)
    ensures r == "FILE" || (|r| <= 3 && |r| <= |ext| && Truthy(r))
    ensures r == "FILE" <==> !Truthy(Upper(Prefix(ext, 3)))
    ensures r != "FILE" ==>
              && |r| == (if |ext| < 3 then |ext| else 3)
              && forall i :: 0 <= i < |r| ==> r[i] == UpperChar(ext[i])
  {
    var short := Upper(Prefix(ext, 3));
    if Truthy(short) then short else "FILE"
  }

  /** The style classes a badge can have. */
  const FileClasses: set<string> := {
    "type-pdf", "type-image", "type-word", "type-excel", "type-powerpoint", "type-archive",
    "type-code", "type-text", "type-audio", "type-video", "type-default"}

  /** getFileTypeInfo(filename, mimeType). */
  function FileTypeInfo(filename: string, mime: string): (r: FileType)
    ensures r.cssClass in FileClasses
  {
    var ext := Lower(Extension(filename));
    match ByExtension(ext)
    case Some(t) => t
    case None =>
      match ByMime(mime)
      case Some(t) => t
      case None => FileType("type-default", FallbackLabel(ext))
  }

  // ---------------------------------------------------------------------
  // Properties

  /** A recognised extension decides the badge whatever the MIME type says;
      only an unrecognised one lets the MIME type, and then the fallback,
      decide. */
  lemma ExtensionBeatsMime(filename: string, mime1: string, mime2: string)
    ensures Recognised(Lower(Extension(filename))) ==>
              FileTypeInfo(filename, mime1) == FileTypeInfo(filename, mime2)
                == ByExtension(Lower(Extension(filename))).value
    ensures !Recognised(Lower(Extension(filename))) && ByMime(mime1).Some? ==>
              FileTypeInfo(filename, mime1) == ByMime(mime1).value
    ensures !Recognised(Lower(Extension(filename))) && ByMime(mime1).None? ==>
              FileTypeInfo(filename, mime1) == FileType("type-default", FallbackLabel(Lower(Extension(filename))))
  {
  }

  /** The extension is compared without ASCII case: names whose extensions
      differ only in case get the same badge. */
  lemma ExtensionCaseIgnored(f1: string, f2: string, mime: string)
    requires Lower(Extension(f1)) == Lower(Extension(f2))
    ensures FileTypeInfo(f1, mime) == FileTypeInfo(f2, mime)
  {
  }

  /** An image extension is labelled with itself in capitals; "pdf" is
      labelled PDF. */
  lemma ImageLabelledByExtension(ext: string)
    requires ext in ImageExtensions
    ensures ByExtension(ext) == Some(FileType("type-image", Upper(ext)))
    ensures ByExtension("pdf") == Some(FileType("type-pdf", "PDF"))
  {
  }

  lemma TextBadge()
    ensures ByExtension("txt") == Some(FileType("type-text", "TXT"))
  {
    assert "txt" != "pdf";
    assert "txt" !in ImageExtensions;
    assert "txt" !in WordExtensions;
    assert "txt" !in ExcelExtensions;
    assert "txt" !in PowerPointExtensions;
    assert "txt" !in ArchiveExtensions;
    assert "txt" !in CodeExtensions;
  }

  lemma JpgBadge()
    ensures ByExtension("jpg") == Some(FileType("type-image", "JPG"))
  {
    assert "jpg" != "pdf";
    assert Upper("jpg") == "JPG";
  }

  lemma MpegUnknown()
    ensures ByExtension("mpeg") == None
  {
    assert "mpeg" != "pdf";
    assert "mpeg" !in ImageExtensions;
    assert "mpeg" !in WordExtensions;
    assert "mpeg" !in ExcelExtensions;
    assert "mpeg" !in PowerPointExtensions;
    assert "mpeg" !in ArchiveExtensions;
    assert "mpeg" !in CodeExtensions;
    assert "mpeg" !in TextExtensions;
  }

  /** A text file sent as an image is still a text file. */
  lemma TextBeatsImageMime()
    ensures FileTypeInfo("x.txt", "image/png") == FileType("type-text", "TXT")
  {
    assert "x.txt" == "x" + "." + "txt";
    ExtensionAfterLastDot("x", "txt");
    LowerTxt();
    assert Lower(Extension("x.txt")) == "txt";
    TextBadge();
    ExtensionBeatsMime("x.txt", "image/png", "image/png");
  }

  /** A capitalised image extension is recognised. */
  lemma CapitalImageExtension()
    ensures FileTypeInfo("photo.JPG", "application/octet-stream") == FileType("type-image", "JPG")
  {
    assert "photo.JPG" == "photo" + "." + "JPG";
    ExtensionAfterLastDot("photo", "JPG");
    LowerJpg();
    JpgBadge();
  }

  lemma LowerJpg()
    ensures Lower("JPG") == "jpg"
  {
    var l := Lower("JPG");
    assert l[0] == 'j' && l[1] == 'p' && l[2] == 'g';
  }

  /** The fallback label: none for an empty extension or "0", and at most
      three capitals otherwise. */
  lemma FallbackLabels()
    ensures FallbackLabel("") == "FILE"
    ensures FallbackLabel("0") == "FILE"
    ensures FallbackLabel("mpeg") == "MPE"
  {
    assert Prefix("0", 3) == "0";
    assert Upper("0")[0] == '0';
    assert Prefix("mpeg", 3) == "mpe";
    var u := Upper("mpe");
    assert u[0] == 'M' && u[1] == 'P' && u[2] == 'E';
  }

  lemma LowerTxt()
    ensures Lower("txt") == "txt"
  {
    var l := Lower("txt");
    assert l[0] == 't' && l[1] == 'x' && l[2] == 't';
  }

  lemma LowerMpeg()
    ensures Lower("mpeg") == "mpeg"
  {
    var l := Lower("mpeg");
    assert l[0] == 'm' && l[1] == 'p' && l[2] == 'e' && l[3] == 'g';
  }

  /** A MIME prefix decides for an unknown extension. */
  lemma VideoByMime()
    ensures FileTypeInfo("clip.mpeg", "video/mpeg") == FileType("type-video", "VID")
  {
    assert "clip.mpeg" == "clip" + "." + "mpeg";
    ExtensionAfterLastDot("clip", "mpeg");
    LowerMpeg();
    assert Lower(Extension("clip.mpeg")) == "mpeg";
    MpegUnknown();
    VideoMime();
    ExtensionBeatsMime("clip.mpeg", "video/mpeg", "video/mpeg");
  }

  lemma VideoMime()
    ensures ByMime("video/mpeg") == Some(FileType("type-video", "VID"))
  {
    assert IsPrefix("video/", "video/mpeg");
    assert !IsPrefix("image/", "video/mpeg") && !IsPrefix("audio/", "video/mpeg");
  }
}
