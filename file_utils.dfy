/**
 * fileUtils: what the file browser shows for an object key.  The type label
 * and the icon are looked up by the text after the last '.', the folder
 * name is the last '/'-separated segment of the key.
 */
module FileUtils {
  import opened Text

  /**
   * String.prototype.split with a one-character separator: the pieces
   * between separators, one more than there are separators.
   */
  function Split(s: string, c: char): (parts: seq<string>)
    ensures |parts| >= 1
    ensures c !in parts[|parts| - 1] && EndsWith(s, parts[|parts| - 1])
    ensures |parts[|parts| - 1]| < |s| ==> s[|s| - |parts[|parts| - 1]| - 1] == c
    decreases |s|
  {
    if s == [] then [[]]
    else
      var front := s[..|s| - 1];
      var init := Split(front, c);
      var last := s[|s| - 1];
      assert s == front + [last];
      if last == c then init + [[]]
      else
        var piece := init[|init| - 1];
        EndsWithSnoc(front, piece, last);
        init[..|init| - 1] + [piece + [last]]
  }

  /** A suffix of `front` followed by `x` is a suffix of `front + [x]`, preceded by what preceded it. */
  lemma EndsWithSnoc(front: string, piece: string, x: char)
    requires EndsWith(front, piece)
    ensures EndsWith(front + [x], piece + [x])
    ensures |piece| < |front| ==> (front + [x])[|front| - |piece| - 1] == front[|front| - |piece| - 1]
  {
    assert (front + [x])[|front| - |piece|..] == front[|front| - |piece|..] + [x];
  }

  /** No piece holds the separator. */
  lemma {:induction false} SplitPiecesFree(s: string, c: char)
    ensures forall i :: 0 <= i < |Split(s, c)| ==> c !in Split(s, c)[i]
    decreases |s|
  {
    if s != [] {
      var front := s[..|s| - 1];
      SplitPiecesFree(front, c);
      var init := Split(front, c);
      var parts := Split(s, c);
      assert forall i :: 0 <= i < |init| - 1 ==> parts[i] == init[i];
    }
  }

  /** The pieces put back together with the separator between them. */
  function Join(parts: seq<string>, c: char): string
    requires |parts| >= 1
  {
    if |parts| == 1 then parts[0] else Join(parts[..|parts| - 1], c) + [c] + parts[|parts| - 1]
  }

  /** Splitting loses nothing: joining the pieces gives the string back. */
  lemma {:induction false} JoinSplit(s: string, c: char)
    ensures Join(Split(s, c), c) == s
    decreases |s|
  {
    if s != [] {
      var front, x := s[..|s| - 1], s[|s| - 1];
      var init := Split(front, c);
      JoinSplit(front, c);
      assert s == front + [x] by { DropLastThenAppend(s); }
      if x == c {
        assert Split(s, c) == init + [[]] by { SplitLastChar(s, c); }
        JoinNewPiece(init, c);
      } else {
        assert Split(s, c) == init[..|init| - 1] + [init[|init| - 1] + [x]] by { SplitLastChar(s, c); }
        JoinLongerPiece(init, c, x);
      }
    }
  }

  /** One step of the split: the last character either starts a new piece or extends the last one. */
  lemma SplitLastChar(s: string, c: char)
    requires s != []
    ensures var init := Split(s[..|s| - 1], c);
      Split(s, c) == if s[|s| - 1] == c then init + [[]] else init[..|init| - 1] + [init[|init| - 1] + [s[|s| - 1]]]
  {
  }

  /** An empty last piece adds one separator. */
  lemma JoinNewPiece(parts: seq<string>, c: char)
    requires |parts| >= 1
    ensures Join(parts + [[]], c) == Join(parts, c) + [c]
  {
    var longer := parts + [[]];
    assert longer[..|longer| - 1] == parts;
    assert longer[|longer| - 1] == [];
  }

  /** A character added to the last piece is a character added to the joined string. */
  lemma JoinLongerPiece(parts: seq<string>, c: char, x: char)
    requires |parts| >= 1
    ensures Join(parts[..|parts| - 1] + [parts[|parts| - 1] + [x]], c) == Join(parts, c) + [x]
  {
    var n := |parts| - 1;
    var grown := parts[..n] + [parts[n] + [x]];
    assert grown[|grown| - 1] == parts[n] + [x];
    if n > 0 {
      assert grown[..|grown| - 1] == parts[..n];
      var rest := Join(parts[..n], c);
      assert Join(grown, c) == rest + [c] + (parts[n] + [x]);
      assert Join(parts, c) == rest + [c] + parts[n];
    }
  }

  /** `split(c).pop()`: the text after the last `c`, or all of `s` when there is none. */
  function Pop(s: string, c: char): (r: string)
    ensures c !in r && EndsWith(s, r)
    ensures |r| < |s| ==> s[|s| - |r| - 1] == c
  {
    var parts := Split(s, c);
    parts[|parts| - 1]
  }

  /** The last piece is what follows the last separator. */
  lemma PopAfterLast(p: string, c: char, e: string)
    requires c !in e
    ensures Pop(p + [c] + e, c) == e
  {
    SplitLastPiece(p, c, e);
  }

  lemma {:induction false} SplitLastPiece(p: string, c: char, e: string)
    requires c !in e
    ensures var parts := Split(p + [c] + e, c); parts[|parts| - 1] == e
    decreases |e|
  {
    var s := p + [c] + e;
    SplitLastChar(s, c);
    if e == [] {
      assert s[|s| - 1] == c;
    } else {
      var front := e[..|e| - 1];
      assert s[..|s| - 1] == p + [c] + front;
      assert s[|s| - 1] == e[|e| - 1];
      SplitLastPiece(p, c, front);
      DropLastThenAppend(e);
    }
  }

  /** With no separator, the one piece is the whole string. */
  lemma PopWhole(s: string, c: char)
    requires c !in s
    ensures Pop(s, c) == s
  {
  }

  const FolderType: string := "Folder"
  const FolderIcon: string := "/icons/folder-icon.png"

  /** The extensions getFileType names, compared as they are written. */
  const TypedExtensions: set<string> := {
    "pdf", "jpg", "jpeg", "png", "mp3", "wav", "mp4", "avi", "mkv", "txt", "doc", "docx",
    "xls", "xlsx", "ppt", "pptx", "zip", "rar", "gif", "svg", "html", "htm", "css", "js", "json"}

  /** The extensions getFileIcon has a picture for, after lower-casing. */
  const IconExtensions: set<string> := {
    "jpg", "jpeg", "png", "gif", "pdf", "doc", "docx", "xls", "xlsx", "ppt", "pptx", "zip",
    "rar", "txt", "html", "htm", "css", "svg", "js", "json"}

  /** The switch of getFileType. */
  function FileTypeOf(extension: string): (kind: string)
    ensures kind != FolderType <==> extension in TypedExtensions
  {
    match extension
    case "pdf" => "PDF Document"
    case "jpg" => "Image"
    case "jpeg" => "Image"
    case "png" => "Image"
    case "mp3" => "Audio"
    case "wav" => "Audio"
    case "mp4" => "Video"
    case "avi" => "Video"
    case "mkv" => "Video"
    case "txt" => "Text File"
    case "doc" => "Word Document"
    case "docx" => "Word Document"
    case "xls" => "Excel Spreadsheet"
    case "xlsx" => "Excel Spreadsheet"
    case "ppt" => "PowerPoint Presentation"
    case "pptx" => "PowerPoint Presentation"
    case "zip" => "ZIP Archive"
    case "rar" => "RAR Archive"
    case "gif" => "GIF Image"
    case "svg" => "SVG Image"
    case "html" => "HTML Document"
    case "htm" => "HTML Document"
    case "css" => "CSS Stylesheet"
    case "js" => "JavaScript File"
    case "json" => "JSON File"
    case _ => FolderType
  }

  /** getFileType: the label of the extension; anything unknown, a name without a dot included, is a folder. */
  function GetFileType(fileName: string): (kind: string)
    ensures kind != FolderType <==> Pop(fileName, '.') in TypedExtensions
  {
    FileTypeOf(Pop(fileName, '.'))
  }

  /** The switch of getFileIcon. */
  function FileIconOf(extension: string): (icon: string)
    ensures icon != FolderIcon <==> extension in IconExtensions
  {
    match extension
    case "jpg" => "/icons/png-icon.png"
    case "jpeg" => "/icons/png-icon.png"
    case "png" => "/icons/png-icon.png"
    case "gif" => "/icons/image-icon.png"
    case "pdf" => "/icons/pdf-icon.png"
    case "doc" => "/icons/doc-icon.png"
    case "docx" => "/icons/doc-icon.png"
    case "xls" => "/icons/xls-icon.png"
    case "xlsx" => "/icons/xls-icon.png"
    case "ppt" => "/icons/ppt-icon.png"
    case "pptx" => "/icons/ppt-icon.png"
    case "zip" => "/icons/zip-icon.png"
    case "rar" => "/icons/rar-icon.png"
    case "txt" => "/icons/txt-icon.png"
    case "html" => "/icons/html-icon.png"
    case "htm" => "/icons/html-icon.png"
    case "css" => "/icons/css-icon.png"
    case "svg" => "/icons/svg-icon.png"
    case "js" => "/icons/js-icon.png"
    case "json" => "/icons/json-icon.png"
    case _ => FolderIcon
  }

  /** getFileIcon: the icon of the lower-cased extension, the folder icon by default. */
  function GetFileIcon(fileName: string): (icon: string)
    ensures icon != FolderIcon <==> LowerAscii(Pop(fileName, '.')) in IconExtensions
  {
    FileIconOf(LowerAscii(Pop(fileName, '.')))
  }

  /** A folder key ends in '/', so no extension matches and it is shown as a folder. */
  lemma FolderKeyIsFolder(key: string)
    requires EndsWith(key, "/")
    ensures GetFileType(key) == FolderType && GetFileIcon(key) == FolderIcon
  {
    FolderKeyExtension(key);
    SlashedUntyped(Pop(key, '.'));
    SlashedNoIcon(LowerAscii(Pop(key, '.')));
  }

  /** What follows the last dot of a folder key still holds its final '/', lower-cased or not. */
  lemma FolderKeyExtension(key: string)
    requires EndsWith(key, "/")
    ensures '/' in Pop(key, '.') && '/' in LowerAscii(Pop(key, '.'))
  {
    var ext := Pop(key, '.');
    assert key[|key| - 1] == '/';
    assert ext != [] && ext[|ext| - 1] == '/';
    assert LowerAscii(ext)[|ext| - 1] == '/';
  }

  /** No typed extension holds a '/'. */
  lemma SlashedUntyped(ext: string)
    requires '/' in ext
    ensures ext !in TypedExtensions
  {
    NoSlashExtensions();
  }

  /** No extension with an icon holds a '/'. */
  lemma SlashedNoIcon(ext: string)
    requires '/' in ext
    ensures ext !in IconExtensions
  {
    NoSlashExtensions();
  }

  lemma NoSlashExtensions()
    ensures forall e :: e in TypedExtensions ==> '/' !in e
    ensures forall e :: e in IconExtensions ==> '/' !in e
  {
  }

  /** A name with a dot: the type and the icon are those of what follows the last dot. */
  lemma NamedWithExtension(name: string, ext: string)
    requires '.' !in ext
    ensures GetFileType(name + ("." + ext)) == FileTypeOf(ext)
    ensures GetFileIcon(name + ("." + ext)) == FileIconOf(LowerAscii(ext))
  {
    PopAfterLast(name, '.', ext);
    assert name + ['.'] + ext == name + ("." + ext);
  }

  // With NamedWithExtension, the facts below about an extension hold for
  // every file name ending in a dot and that extension.

  /** The type is case-sensitive and the icon is not: "PDF" is a folder type with the PDF icon. */
  lemma UpperCaseExtension()
    ensures FileTypeOf("PDF") == FolderType
    ensures FileIconOf(LowerAscii("PDF")) == "/icons/pdf-icon.png"
  {
    assert LowerAscii("PDF") == "pdf";
  }

  /** Audio and video have a type but the folder icon. */
  lemma MediaHasFolderIcon()
    ensures FileTypeOf("mp3") == "Audio" && FileIconOf(LowerAscii("mp3")) == FolderIcon
  {
    assert LowerAscii("mp3") == "mp3";
  }

  /** Three image extensions share one label, and gif has a label of its own. */
  lemma ImageLabels(ext: string)
    requires ext in {"jpg", "jpeg", "png"}
    ensures FileTypeOf(ext) == "Image" && FileTypeOf("gif") == "GIF Image"
  {
  }

  /** `replace(/\/+$/, '')`: the run of '/' at the end removed. */
  function TrimTrailingSlashes(s: string): (r: string)
    ensures |r| <= |s| && r == s[..|r|]
    ensures r != [] ==> r[|r| - 1] != '/'
    ensures forall i :: |r| <= i < |s| ==> s[i] == '/'
  {
    if s != [] && s[|s| - 1] == '/' then TrimTrailingSlashes(s[..|s| - 1]) else s
  }

  /** extractFolderName: the last segment once the trailing slashes are gone; never holds a '/'. */
  function ExtractFolderName(filePath: string): (name: string)
    ensures '/' !in name
    ensures EndsWith(TrimTrailingSlashes(filePath), name)
    ensures name == [] <==> forall i :: 0 <= i < |filePath| ==> filePath[i] == '/'
  {
    var cleaned := TrimTrailingSlashes(filePath);
    var name := Pop(cleaned, '/');
    assert cleaned != [] ==> cleaned[|cleaned| - 1] == filePath[|cleaned| - 1] != '/' && name != [];
    name
  }

  lemma FolderNameOfDirectory()
    ensures ExtractFolderName("a/b/") == "b"
  {
    assert TrimTrailingSlashes("a/b/") == "a/b" by {
      assert "a/b/"[..3] == "a/b";
    }
    PopAfterLast("a", '/', "b");
    assert "a" + ['/'] + "b" == "a/b";
  }

  lemma FolderNameOfFile()
    ensures ExtractFolderName("x.txt") == "x.txt"
  {
    PopWhole("x.txt", '/');
  }
}
