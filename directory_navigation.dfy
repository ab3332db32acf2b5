/**
 * DirectoryNavigationBar: the path box above the file grid.  Its text is
 * the ":/" mark followed by the current directory; Enter moves to the
 * directory typed, the back arrow to the parent.
 */
module DirectoryNavigation {
  import opened Wrappers
  import opened Text

  const NavBarStart: string := ":/"

  // ---------------------------------------------------------------------
  // Enter
  // ---------------------------------------------------------------------

  /** A directory as Enter leaves it: ending in '/', with no white space at its start or before that '/'. */
  predicate Settled(dir: string) {
    EndsWith(dir, "/") && !JsSpace(dir[0]) && (|dir| == 1 || !JsSpace(dir[|dir| - 2]))
  }

  /**
   * `replace(/\s+\/$/, '/')`: the white space right before a final '/' is
   * removed.  The leftmost match starts where the run of white space before
   * the final '/' starts.
   */
  function CollapseBeforeSlash(s: string): (r: string)
    ensures !EndsWith(s, "/") ==> r == s
    ensures EndsWith(s, "/") && !JsSpace(s[0]) ==> Settled(r)
  {
    if EndsWith(s, "/") then
      var kept := DropTrailingJs(s[..|s| - 1]);
      assert kept != [] ==> kept[0] == s[0];
      kept + "/"
    else s
  }

  /** The last step of Enter: a '/' is added when the text does not end in one. */
  function AppendSlash(s: string): (r: string)
    ensures EndsWith(s, "/") ==> r == s
    ensures !EndsWith(s, "/") ==> r == s + "/"
  {
    if EndsWith(s, "/") then s else s + "/"
  }

  /** A trimmed text becomes a settled directory. */
  lemma TrimmedSettles(t: string)
    requires t == [] || (!JsSpace(t[0]) && !JsSpace(t[|t| - 1]))
    ensures Settled(AppendSlash(CollapseBeforeSlash(t)))
  {
    if !EndsWith(t, "/") {
      var d := t + "/";
      assert t != [] ==> d[0] == t[0] && d[|d| - 2] == t[|t| - 1];
    }
  }

  /** The directory Enter moves to. */
  function EnteredDir(inputValue: string): (dir: string)
    ensures inputValue == NavBarStart ==> dir == ""
    ensures inputValue != NavBarStart ==> Settled(dir)
  {
    if inputValue == NavBarStart then ""
    else
      var trimmed := JsTrim(ReplaceFirst(inputValue, NavBarStart, ""));
      TrimmedSettles(trimmed);
      AppendSlash(CollapseBeforeSlash(trimmed))
  }

  /** handleInputKeyPress on Enter: the box shows the mark and the directory, which becomes the current one. */
  method PressEnter(inputValue: string) returns (submitted: string, currentDir: string)
    ensures currentDir == EnteredDir(inputValue)
    ensures submitted == NavBarStart + currentDir
  {
    if inputValue == NavBarStart {
      submitted := NavBarStart;
      currentDir := "";
      return;
    }
    var newValue := ReplaceFirst(inputValue, NavBarStart, "");
    newValue := JsTrim(newValue);
    newValue := CollapseBeforeSlash(newValue);
    ghost var collapsed := newValue;
    assert collapsed == CollapseBeforeSlash(JsTrim(ReplaceFirst(inputValue, NavBarStart, "")));
    EndsWithChar(collapsed, '/');
    if |newValue| == 0 || newValue[|newValue| - 1] != '/' {
      newValue := newValue + "/";
    }
    submitted := NavBarStart + newValue;
    currentDir := newValue;
  }

  /** Trimming a string with no white space at its ends leaves it as it is. */
  lemma JsTrimOfTrimmed(s: string)
    requires s != [] && !JsSpace(s[0]) && !JsSpace(s[|s| - 1])
    ensures JsTrim(s) == s
  {
  }

  /** Enter on what Enter put in the box stays in the same directory. */
  lemma EnterIsStable(inputValue: string)
    ensures EnteredDir(NavBarStart + EnteredDir(inputValue)) == EnteredDir(inputValue)
  {
    var dir := EnteredDir(inputValue);
    if dir != "" {
      EnterSettled(dir);
    }
  }

  /** Enter on the mark followed by a settled directory moves to that directory. */
  lemma EnterSettled(dir: string)
    requires Settled(dir)
    ensures EnteredDir(NavBarStart + dir) == dir
  {
    MarkRemoved(dir);
    SettledIsFixed(dir);
  }

  /** Removing the mark from the box gives back what follows it. */
  lemma MarkRemoved(dir: string)
    requires dir != ""
    ensures NavBarStart + dir != NavBarStart
    ensures ReplaceFirst(NavBarStart + dir, NavBarStart, "") == dir
  {
    StartsWithConcat(NavBarStart, dir);
    ReplaceFirstAtStart(NavBarStart + dir, NavBarStart, "");
  }

  /** The steps after the mark is removed leave a settled directory as it is. */
  lemma SettledIsFixed(dir: string)
    requires Settled(dir)
    ensures AppendSlash(CollapseBeforeSlash(JsTrim(dir))) == dir
  {
    JsTrimOfTrimmed(dir);
    SettledIsCollapsed(dir);
  }

  /** A settled directory has nothing to collapse. */
  lemma SettledIsCollapsed(dir: string)
    requires Settled(dir)
    ensures CollapseBeforeSlash(dir) == dir
  {
    var front := dir[..|dir| - 1];
    assert front == [] || !JsSpace(front[|front| - 1]);
    assert front + "/" == dir;
  }

  // ---------------------------------------------------------------------
  // The back arrow
  // ---------------------------------------------------------------------

  /** lastIndexOf: where `c` last occurs in `s`. */
  function LastIndexOf(s: string, c: char): (r: Option<nat>)
    ensures r.Some? ==> r.value < |s| && s[r.value] == c && forall k :: r.value < k < |s| ==> s[k] != c
    ensures r.None? ==> forall k :: 0 <= k < |s| ==> s[k] != c
  {
    if s == [] then None
    else if s[|s| - 1] == c then Some(|s| - 1)
    else LastIndexOf(s[..|s| - 1], c)
  }

  /** What the back arrow puts in the box: the text up to the last '/' before the final character, ending in '/'. */
  function BackInput(inputValue: string): (v: string)
    ensures EndsWith(v, "/")
  {
    var t := if inputValue == [] then [] else inputValue[..|inputValue| - 1];
    var cut := match LastIndexOf(t, '/') case Some(i) => t[..i + 1] case None => t;
    if EndsWith(cut, "/") then cut else cut + "/"
  }

  /** `slice(2)`: the text after the first two characters. */
  function DropTwo(s: string): string {
    if |s| >= 2 then s[2..] else ""
  }

  /** handleArrowButtonClick: the reverse scan for the last '/', then the mark is dropped for the current directory. */
  method PressBack(inputValue: string) returns (submitted: string, currentDir: string)
    ensures submitted == BackInput(inputValue)
    ensures currentDir == DropTwo(submitted)
  {
    var newValue := if inputValue == [] then [] else inputValue[..|inputValue| - 1];
    ghost var t := newValue;
    var i := |newValue| - 1;
    while i >= 0
      invariant -1 <= i < |t| && newValue == t
      invariant forall k :: i < k < |t| ==> t[k] != '/'
      decreases i
    {
      if newValue[i] == '/' {
        newValue := newValue[..i + 1];
        break;
      }
      i := i - 1;
    }
    assert newValue == match LastIndexOf(t, '/') case Some(j) => t[..j + 1] case None => t;
    if !EndsWith(newValue, "/") {
      newValue := newValue + "/";
    }
    submitted := newValue;
    currentDir := DropTwo(newValue);
  }

  /** From a directory one level below `parent`, the back arrow goes to `parent`. */
  lemma BackToParent(parent: string, name: string)
    requires parent == "" || EndsWith(parent, "/")
    requires '/' !in name
    ensures DropTwo(BackInput(NavBarStart + parent + name + "/")) == parent
  {
    var front := NavBarStart + parent;
    var input := front + name + "/";
    assert input[..|input| - 1] == front + name;
    LastSlashBefore(front, name);
    assert DropTwo(front) == parent;
  }

  /** The last '/' of `front + name` is the one ending `front`, when `name` has none. */
  lemma LastSlashBefore(front: string, name: string)
    requires EndsWith(front, "/")
    requires '/' !in name
    ensures LastIndexOf(front + name, '/') == Some(|front| - 1)
  {
    var t := front + name;
    assert t[|front| - 1] == '/';
    assert forall k :: |front| - 1 < k < |t| ==> t[k] == name[k - |front|];
  }

  /** From ":/a/b/" the back arrow moves to "a/". */
  lemma BackFromNested()
    ensures DropTwo(BackInput(":/a/b/")) == "a/"
  {
    BackToParent("a/", "b");
    assert NavBarStart + "a/" + "b" + "/" == ":/a/b/";
  }

  /** From ":/a/" the back arrow moves to the root. */
  lemma BackFromTopLevel()
    ensures DropTwo(BackInput(":/a/")) == ""
  {
    BackToParent("", "a");
    assert NavBarStart + "" + "a" + "/" == ":/a/";
  }

  /** From the root the back arrow stays at the root. */
  lemma BackFromRoot()
    ensures DropTwo(BackInput(":/")) == ""
  {
    assert ":/"[..1] == ":";
    assert LastIndexOf(":", '/') == None;
  }
}
