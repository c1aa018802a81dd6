/**
 * The file types of import and export, and how a file name selects one by
 * its extension.  The extension is the one `std::filesystem::path` gives on a
 * POSIX system (section [fs.path.decompose] of ISO C++17): the suffix of the
 * last path component from its last '.', and empty when that component has
 * no '.', when its only '.' is its first character, or when it is "." or "..".
 */
module FileTypes {
  import opened Wrappers

  datatype FileType = Csv | Tbl | Binary

  /** The import types of the SQL parser's IMPORT statement. */
  datatype ImportType = ImportCsv | ImportTbl

  /** `import_type_to_file_type`: the file type an IMPORT statement names. */
  function ImportTypeToFileType(importType: ImportType): (r: FileType)
    ensures r != Binary
    ensures r == Csv <==> importType == ImportCsv
    ensures r == Tbl <==> importType == ImportTbl
  {
    match importType
    case ImportCsv => Csv
    case ImportTbl => Tbl
  }

  /** The extension that selects each file type. */
  function ExtensionOf(fileType: FileType): string
  {
    match fileType
    case Csv => ".csv"
    case Tbl => ".tbl"
    case Binary => ".bin"
  }

  /** The position of the last c in s, if s holds one. */
  function LastIndexOf(s: string, c: char): (r: Option<nat>)
    ensures r.Some? ==> r.value < |s| && s[r.value] == c && forall k :: r.value < k < |s| ==> s[k] != c
    ensures r.None? ==> forall k :: 0 <= k < |s| ==> s[k] != c
  {
    if s == [] then None
    else if s[|s| - 1] == c then Some(|s| - 1)
    else LastIndexOf(s[..|s| - 1], c)
  }

  /**
   * `path::filename`: the last component, everything after the last '/':
   * a suffix without '/' that is the whole path or follows a '/'.
   */
  function FileName(path: string): (r: string)
    ensures |r| <= |path| && r == path[|path| - |r|..]
    ensures forall k :: 0 <= k < |r| ==> r[k] != '/'
    ensures |r| == |path| || path[|path| - |r| - 1] == '/'
  {
    match LastIndexOf(path, '/')
    case None => path
    case Some(i) => path[i + 1..]
  }

  /**
   * `path::extension`: empty exactly when the last component is "." or "..",
   * or has no '.' after its first character; otherwise the suffix of the
   * last component from its last '.', which is not the component's first
   * character.  So "a." has the extension ".".
   */
  function Extension(path: string): (r: string)
    ensures |r| <= |path| && r == path[|path| - |r|..]
    ensures r != [] ==> r[0] == '.' && forall k :: 0 < k < |r| ==> r[k] != '.' && r[k] != '/'
    ensures r == [] <==>
      var name := FileName(path);
      name == "." || name == ".." || forall k :: 0 < k < |name| ==> name[k] != '.'
    ensures r != [] ==>
      var name := FileName(path);
      |r| < |name| && r == name[|name| - |r|..]
  {
    var name := FileName(path);
    if name == "." || name == ".." then ""
    else match LastIndexOf(name, '.')
      case None => ""
      case Some(i) => if i == 0 then "" else name[i..]
  }

  /**
   * `file_type_from_filename`: ".csv", ".tbl" and ".bin" select their file
   * type; any other extension, the empty one included, fails with a message
   * that names it.
   */
  function FileTypeFromFilename(filename: string): (r: Result<FileType, string>)
    ensures r.Ok? ==> ExtensionOf(r.value) == Extension(filename)
    ensures r.Err? ==>
      r.error == "Unknown file extension " + Extension(filename) &&
      forall ft: FileType :: ExtensionOf(ft) != Extension(filename)
  {
    FileTypeOfExtension(Extension(filename))
  }

  /** The comparisons `file_type_from_filename` makes on the extension. */
  function FileTypeOfExtension(extension: string): (r: Result<FileType, string>)
    ensures r.Ok? ==> ExtensionOf(r.value) == extension
    ensures r.Err? ==>
      r.error == "Unknown file extension " + extension &&
      forall ft: FileType :: ExtensionOf(ft) != extension
  {
    if extension == ".csv" then Ok(Csv)
    else if extension == ".tbl" then Ok(Tbl)
    else if extension == ".bin" then Ok(Binary)
    else Err("Unknown file extension " + extension)
  }

  /**
   * An extension is classified exactly when it is some file type's, and then
   * as that file type; otherwise the error names it.  Comparison is exact:
   * ".CSV" is not ".csv".
   */
  lemma ExtensionClassified(extension: string)
    ensures FileTypeOfExtension(extension).Ok? <==> exists ft: FileType :: ExtensionOf(ft) == extension
    ensures FileTypeOfExtension(extension).Ok? ==> ExtensionOf(FileTypeOfExtension(extension).value) == extension
    ensures FileTypeOfExtension(extension).Err? ==>
      FileTypeOfExtension(extension).error == "Unknown file extension " + extension
  {
    if FileTypeOfExtension(extension).Err? {
      forall ft: FileType ensures ExtensionOf(ft) != extension {
        match ft
        case Csv =>
        case Tbl =>
        case Binary =>
      }
    } else {
      assert ExtensionOf(FileTypeOfExtension(extension).value) == extension;
    }
  }

  /** A file name is classified by its extension, as ExtensionClassified states. */
  lemma ClassifiedByExtension(filename: string)
    ensures FileTypeFromFilename(filename).Ok? <==>
      exists ft: FileType :: ExtensionOf(ft) == Extension(filename)
    ensures FileTypeFromFilename(filename).Ok? ==>
      ExtensionOf(FileTypeFromFilename(filename).value) == Extension(filename)
    ensures FileTypeFromFilename(filename).Err? ==>
      FileTypeFromFilename(filename).error == "Unknown file extension " + Extension(filename)
  {
    ExtensionClassified(Extension(filename));
  }

  /** A file name with a file type's extension selects that file type. */
  lemma SelectsByExtension(filename: string, ft: FileType)
    requires Extension(filename) == ExtensionOf(ft)
    ensures FileTypeFromFilename(filename) == Ok(ft)
  {
  }

  /** The last c in s + t is in t when t holds one, and otherwise the last c in s. */
  lemma {:induction false} LastIndexOfAppend(s: string, t: string, c: char)
    ensures LastIndexOf(s + t, c) ==
      match LastIndexOf(t, c)
      case Some(i) => Some(|s| + i)
      case None => LastIndexOf(s, c)
    decreases |t|
  {
    if t == [] {
      assert s + t == s;
    } else if t[|t| - 1] != c {
      assert (s + t)[..|s + t| - 1] == s + t[..|t| - 1];
      LastIndexOfAppend(s, t[..|t| - 1], c);
    }
  }

  /** A path that does not end with '/', followed by more characters without '/'. */
  lemma FileNameAppend(stem: string, suffix: string)
    requires stem != [] && stem[|stem| - 1] != '/'
    requires forall k :: 0 <= k < |suffix| ==> suffix[k] != '/'
    ensures FileName(stem) != []
    ensures FileName(stem + suffix) == FileName(stem) + suffix
  {
    assert LastIndexOf(suffix, '/') == None;
    LastIndexOfAppend(stem, suffix, '/');
    match LastIndexOf(stem, '/')
    case None =>
    case Some(i) =>
      FileNameAfterSeparator(stem, suffix, i);
  }

  /** The last component of stem + suffix when stem's last '/' is at i, before its end. */
  lemma FileNameAfterSeparator(stem: string, suffix: string, i: nat)
    requires i + 1 < |stem| && LastIndexOf(stem + suffix, '/') == Some(i)
    ensures FileName(stem + suffix) == stem[i + 1..] + suffix
  {
    assert (stem + suffix)[i + 1..] == stem[i + 1..] + suffix;
  }

  /** The extension depends on the last component alone. */
  lemma ExtensionOfLastComponent(path: string)
    ensures Extension(path) == Extension(FileName(path))
  {
    var name := FileName(path);
    assert LastIndexOf(name, '/') == None;
    assert FileName(name) == name;
  }

  /** A dot followed by at least one character, none of them a dot or a separator. */
  predicate IsDotSuffix(ext: string)
  {
    |ext| > 1 && ext[0] == '.' && forall k :: 0 < k < |ext| ==> ext[k] != '.' && ext[k] != '/'
  }

  lemma ExtensionOfIsDotSuffix(ft: FileType)
    ensures IsDotSuffix(ExtensionOf(ft))
  {
  }

  /** A non-empty name without separators, followed by a dot suffix, has that suffix as its extension. */
  lemma ExtensionAfterName(base: string, ext: string)
    requires base != [] && forall k :: 0 <= k < |base| ==> base[k] != '/'
    requires IsDotSuffix(ext)
    ensures Extension(base + ext) == ext
  {
    var name := base + ext;
    assert FileName(name) == name by {
      assert LastIndexOf(ext, '/') == None;
      assert LastIndexOf(base, '/') == None;
      LastIndexOfAppend(base, ext, '/');
    }
    assert LastIndexOf(name, '.') == Some(|base|) by {
      assert LastIndexOf(ext, '.') == Some(0);
      LastIndexOfAppend(base, ext, '.');
    }
    assert name[|base|..] == ext;
  }

  /**
   * Appending a file type's extension to a name whose last component is not
   * empty selects that file type, whatever dots come earlier: "a.bin" +
   * ".csv" is a CSV file.
   */
  lemma AppendedExtensionSelects(stem: string, ft: FileType)
    requires stem != [] && stem[|stem| - 1] != '/'
    ensures Extension(stem + ExtensionOf(ft)) == ExtensionOf(ft)
    ensures FileTypeFromFilename(stem + ExtensionOf(ft)) == Ok(ft)
  {
    var ext := ExtensionOf(ft);
    ExtensionOfIsDotSuffix(ft);
    FileNameAppend(stem, ext);
    var base := FileName(stem);
    ExtensionAfterName(base, ext);
    ExtensionOfLastComponent(stem + ext);
    assert Extension(stem + ext) == ext;
    SelectsByExtension(stem + ext, ft);
  }

  /**
   * The extension belongs to the last component alone: a file whose name has
   * no dot has no extension, whatever the directory, so "dir.bin/file" fails.
   */
  lemma {:induction false} DirectoryDotsIgnored(dir: string, name: string)
    requires forall k :: 0 <= k < |name| ==> name[k] != '.' && name[k] != '/'
    ensures Extension(dir + "/" + name) == ""
    ensures FileTypeFromFilename(dir + "/" + name) == Err("Unknown file extension ")
  {
    var path := dir + "/" + name;
    assert path == (dir + "/") + name;
    LastIndexOfAppend(dir + "/", name, '/');
    assert LastIndexOf(dir + "/", '/') == Some(|dir|);
    assert FileName(path) == name;
    assert LastIndexOf(name, '.') == None;
    assert name != "." && name != "..";
    assert "Unknown file extension " + "" == "Unknown file extension ";
  }

  /** A last component ending in a dot has the extension ".", unless it is "." or "..". */
  lemma TrailingDotIsExtension(stem: string)
    requires FileName(stem + ".") != "." && FileName(stem + ".") != ".."
    ensures Extension(stem + ".") == "."
    ensures FileTypeFromFilename(stem + ".") == Err("Unknown file extension .")
  {
    var name := FileName(stem + ".");
    assert name[|name| - 1] == '.';
    assert "Unknown file extension " + "." == "Unknown file extension .";
  }

  /** A hidden file such as ".csv" has no extension: its only dot is its first character. */
  lemma {:induction false} HiddenFileHasNoExtension(dir: string, name: string)
    requires |name| > 1 && name[0] == '.'
    requires forall k :: 0 < k < |name| ==> name[k] != '.' && name[k] != '/'
    ensures Extension(dir + "/" + name) == ""
    ensures FileTypeFromFilename(dir + "/" + name).Err?
  {
    var path := dir + "/" + name;
    assert path == (dir + "/") + name;
    LastIndexOfAppend(dir + "/", name, '/');
    assert LastIndexOf(dir + "/", '/') == Some(|dir|);
    assert FileName(path) == name;
    assert LastIndexOf(name, '.') == Some(0) by {
      LastIndexOfAppend([name[0]], name[1..], '.');
      assert [name[0]] + name[1..] == name;
    }
  }
}
