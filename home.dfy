/**
 * Home: the file grid.  Of the account's listing it shows the entries
 * directly inside the current directory; double-clicking a folder opens it.
 */
module Home {
  import opened Wrappers
  import opened Text
  import opened Entities
  import Seqs
  import FileUtils
  import DirectoryNavigation

  /** No character other than '/' follows the first '/'. */
  predicate OneLevel(rest: string) {
    forall i, j :: 0 <= i < j < |rest| && rest[i] == '/' ==> rest[j] == '/'
  }

  /** An entry is shown when its key extends the current directory by one level. */
  predicate Listed(key: string, currentDir: string) {
    StartsWith(key, currentDir) && key != currentDir && OneLevel(key[|currentDir|..])
  }

  /** The predicate of `files.filter`, with its scan for a character after a '/'. */
  method ShowsInDirectory(key: string, currentDir: string) returns (shown: bool)
    ensures shown == Listed(key, currentDir)
  {
    if !StartsWith(key, currentDir) || key == currentDir {
      return false;
    }
    var remaining := key[|currentDir|..];
    var foundSlash := false;
    var i := 0;
    while i < |remaining|
      invariant 0 <= i <= |remaining|
      invariant foundSlash <==> exists k :: 0 <= k < i && remaining[k] == '/'
      invariant forall a, b :: 0 <= a < b < i && remaining[a] == '/' ==> remaining[b] == '/'
    {
      if remaining[i] == '/' {
        foundSlash := true;
      } else if foundSlash {
        return false;
      }
      i := i + 1;
    }
    return true;
  }

  /** The effect that recomputes the grid: the listed entries, in listing order. */
  method FilterFiles(files: seq<FileObject>, currentDir: string) returns (filtered: seq<FileObject>)
    ensures filtered == Seqs.Filter(files, (f: FileObject) => Listed(f.objectKey, currentDir))
  {
    ghost var p := (f: FileObject) => Listed(f.objectKey, currentDir);
    filtered := [];
    var i := 0;
    while i < |files|
      invariant 0 <= i <= |files|
      invariant filtered == Seqs.Filter(files[..i], p)
    {
      var shown := ShowsInDirectory(files[i].objectKey, currentDir);
      Seqs.PrefixSnoc(files, i);
      Seqs.FilterSnoc(files[..i], files[i], p);
      if shown {
        filtered := filtered + [files[i]];
      }
      i := i + 1;
    }
    assert files[..i] == files;
  }

  /** The entries of the current directory itself are shown: a file, and a folder with its trailing '/'. */
  lemma ChildIsListed(currentDir: string, name: string)
    requires name != [] && '/' !in name
    ensures Listed(currentDir + name, currentDir)
    ensures Listed(currentDir + name + "/", currentDir)
  {
    StartsWithConcat(currentDir, name);
    StartsWithConcat(currentDir, name + "/");
    assert currentDir + name + "/" == currentDir + (name + "/");
    var rest := name + "/";
    assert forall i :: 0 <= i < |rest| - 1 ==> rest[i] == name[i];
  }

  /** What is inside a subfolder is not. */
  lemma GrandchildIsHidden(currentDir: string, folder: string, name: string)
    requires folder != [] && '/' !in folder && name != [] && '/' !in name
    ensures !Listed(currentDir + folder + "/" + name, currentDir)
  {
    var key := currentDir + folder + "/" + name;
    StartsWithConcat(currentDir, folder + "/" + name);
    assert key == currentDir + (folder + "/" + name);
    var rest := key[|currentDir|..];
    assert rest[|folder|] == '/' && rest[|folder| + 1] == name[0];
  }

  lemma ListingExamples()
    ensures Listed("sub/", "") && Listed("f.txt", "") && !Listed("sub/x", "")
  {
    ChildIsListed("", "sub");
    assert "" + "sub" + "/" == "sub/";
    ChildIsListed("", "f.txt");
    assert "" + "f.txt" == "f.txt";
    GrandchildIsHidden("", "sub", "x");
    assert "" + "sub" + "/" + "x" == "sub/x";
  }

  /** What the page keeps about where the user is. */
  datatype View = View(currentDir: string, inputValue: string, selected: Option<FileObject>)

  /**
   * handleFileClick on a double click: a folder becomes the current
   * directory and the path box shows it; any selection is cleared.
   */
  function DoubleClick(view: View, file: FileObject): (v: View)
    ensures v.selected.None?
    ensures FileUtils.GetFileType(file.objectKey) == FileUtils.FolderType ==>
      v.currentDir == file.objectKey && v.inputValue == DirectoryNavigation.NavBarStart + file.objectKey
    ensures FileUtils.GetFileType(file.objectKey) != FileUtils.FolderType ==>
      v.currentDir == view.currentDir && v.inputValue == view.inputValue
  {
    if FileUtils.GetFileType(file.objectKey) == FileUtils.FolderType then
      View(file.objectKey, DirectoryNavigation.NavBarStart + file.objectKey, None)
    else view.(selected := None)
  }

  /** Opening a listed subfolder and pressing the back arrow returns to the directory it was listed in. */
  lemma OpenThenBack(view: View, name: string, size: nat)
    requires view.currentDir == "" || EndsWith(view.currentDir, "/")
    requires name != [] && '/' !in name
    ensures Listed(view.currentDir + name + "/", view.currentDir)
    ensures var next := DoubleClick(view, FileObject(view.currentDir + name + "/", size));
      next.currentDir == view.currentDir + name + "/"
      && DirectoryNavigation.DropTwo(DirectoryNavigation.BackInput(next.inputValue)) == view.currentDir
  {
    var key := view.currentDir + name + "/";
    ChildIsListed(view.currentDir, name);
    assert EndsWith(key, "/") by {
      assert key[|key| - 1] == '/';
    }
    FileUtils.FolderKeyIsFolder(key);
    var next := DoubleClick(view, FileObject(key, size));
    assert next.inputValue == DirectoryNavigation.NavBarStart + key;
    Regroup(DirectoryNavigation.NavBarStart, view.currentDir, name, "/");
    DirectoryNavigation.BackToParent(view.currentDir, name);
  }

  lemma Regroup(a: string, b: string, c: string, d: string)
    ensures a + (b + c + d) == a + b + c + d
  {
  }
}
