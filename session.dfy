/**
 The document session of the reader as a value: the open files, the index of the active
 one, the live content of the reader surface and whether the highlight menu is shown,
 with one transition function per event the page reacts to. The class in module Reader
 performs the same transitions in place.
 */
module Session {
  import opened Wrappers
  import Page

  /** An open document: its file name and its stored HTML. */
  datatype File = File(name: string, html: string)

  /**
   The page's module-level state: `files` and `activeIndex` as the script keeps them,
   `live` for the reader element's `innerHTML`, `menuVisible` for the highlight menu's display.
   */
  datatype State = State(files: seq<File>, activeIndex: int, live: string, menuVisible: bool)

  /** What the tab strip shows for one file. */
  datatype Tab = Tab(name: string, isActive: bool)

  /**
   The browser's editing operations on the live reader content for the current selection,
   whose behaviour is not part of the page: wrapping the selection in a span of a class
   (`None` when `Range.surroundContents` throws), `execCommand("hiliteColor")` with a colour
   (`None` for `undefined`), and `execCommand("removeFormat")`.
   */
  datatype Editing = Editing(
    surround: (string, string) -> Option<string>,
    hiliteColor: (Option<string>, string) -> string,
    removeFormat: string -> string)

  const WelcomeName := "Welcome.md"

  const WelcomeHtml :=
    "\n<h1>Welcome to Document Reader</h1>\n" +
    "<p>This is a study-focused viewer. We have hidden the code editor to help you focus.</p>\n" +
    "<h2>How to Highlight?</h2>\n" +
    "<p>1. <strong>Select any text</strong> with your mouse.</p>\n" +
    "<p>2. A floating menu will appear.</p>\n" +
    "<p>3. Pick a color to <span class=\"highlight-yellow\">highlight the text</span> instantly.</p>\n" +
    "<h2>Math & Code Support</h2>\n" +
    "<pre><code class=\"language-python\">def study_hard():\n" +
    "return \"Success\"</code></pre>\n" +
    "<p>Math equation: $$E = mc^2$$</p>\n"

  /** The notice shown when the last open file would be closed. */
  const KeepOneOpen := "Keep at least one file open."

  /** At least one file is open and the active index points at one of them. */
  predicate Valid(s: State)
  {
    |s.files| >= 1 && 0 <= s.activeIndex < |s.files|
  }

  /** The active file's stored HTML is the live content. */
  predicate Committed(s: State)
    requires Valid(s)
  {
    s.files[s.activeIndex].html == s.live
  }

  /** `r` has the files of `s`, except possibly the one at `k`, and every name is kept. */
  predicate OnlyChanged(s: State, r: State, k: int)
  {
    && |r.files| == |s.files|
    && (forall i :: 0 <= i < |s.files| ==> r.files[i].name == s.files[i].name)
    && (forall i :: 0 <= i < |s.files| && i != k ==> r.files[i] == s.files[i])
  }

  // ---- Loading and committing ----

  /** `loadActiveFile`: the reader shows the rendered stored HTML of the active file. */
  function Load(s: State, render: string -> string): (r: State)
    requires Valid(s)
    ensures Valid(r) && r.live == render(s.files[s.activeIndex].html)
    ensures r.(live := s.live) == s
  {
    s.(live := render(s.files[s.activeIndex].html))
  }

  /** `files[activeIndex].html = reader.innerHTML`: save the live content into the active file. */
  function Commit(s: State): (r: State)
    requires Valid(s)
    ensures Valid(r) && Committed(r)
    ensures OnlyChanged(s, r, s.activeIndex)
    ensures r.activeIndex == s.activeIndex && r.live == s.live && r.menuVisible == s.menuVisible
  {
    s.(files := s.files[s.activeIndex := s.files[s.activeIndex].(html := s.live)])
  }

  /**
   The reader's input listener, after an edit the filter lets through (a cut, a drop) has
   changed the reader's content to `edited`: that content is saved into the active file.
   */
  function Input(s: State, edited: string): (r: State)
    requires Valid(s)
    ensures Valid(r) && Committed(r) && r.live == edited
    ensures OnlyChanged(s, r, s.activeIndex) && r.activeIndex == s.activeIndex && r.menuVisible == s.menuVisible
  {
    Commit(s.(live := edited))
  }

  /** A committed state is its own commit. */
  lemma CommitIdempotent(s: State)
    requires Valid(s)
    ensures Committed(s) <==> Commit(s) == s
  {
  }

  /** The session when the page has started: the welcome file, active and shown. */
  function Initial(render: string -> string): (s: State)
    ensures Valid(s)
    ensures s.files == [File(WelcomeName, WelcomeHtml)] && s.activeIndex == 0
    ensures s.live == render(WelcomeHtml) && !s.menuVisible
  {
    Load(State([File(WelcomeName, WelcomeHtml)], 0, "", false), render)
  }

  // ---- Tabs ----

  /** `switchTab`: save the live content into the active file, then show file `index`. */
  function Switch(s: State, index: int, render: string -> string): (r: State)
    requires Valid(s) && 0 <= index < |s.files|
    ensures Valid(r) && r.activeIndex == index
    ensures OnlyChanged(s, r, s.activeIndex) && r.files[s.activeIndex].html == s.live
    ensures r.live == render(r.files[index].html) && r.menuVisible == s.menuVisible
  {
    Load(Commit(s).(activeIndex := index), render)
  }

  /** Switching to the active tab commits and re-renders it; on a committed state only the live content changes. */
  lemma SwitchToActive(s: State, render: string -> string)
    requires Valid(s)
    ensures Switch(s, s.activeIndex, render) == Commit(s).(live := render(s.live))
    ensures Committed(s) ==> Switch(s, s.activeIndex, render) == s.(live := render(s.live))
  {
  }

  /**
   Away from tab `i` and back again: the file at `i` then holds what was committed when the
   session left it, and the reader shows that content rendered.
   */
  lemma SwitchAwayAndBack(s: State, i: int, j: int, render: string -> string)
    requires Valid(s) && 0 <= i < |s.files| && 0 <= j < |s.files| && i != j
    ensures var away := Switch(Switch(s, i, render), j, render);
      var back := Switch(away, i, render);
      && back.files[i] == away.files[i]
      && away.files[i].html == render(Switch(s, i, render).files[i].html)
      && back.live == render(away.files[i].html)
  {
  }

  /** `closeTab`: remove file `index` unless it is the last one, keep the index in range and reload. */
  function Close(s: State, index: int, render: string -> string): (r: (State, Option<string>))
    requires Valid(s) && 0 <= index < |s.files|
    ensures Valid(r.0)
    ensures |s.files| == 1 ==> r == (s, Some(KeepOneOpen))
    ensures |s.files| > 1 ==> r.1 == None && r.0.files == s.files[..index] + s.files[index + 1..]
    ensures |s.files| > 1 ==> r.0.activeIndex == (if s.activeIndex >= |s.files| - 1 then |s.files| - 2 else s.activeIndex)
    ensures |s.files| > 1 ==> r.0.live == render(r.0.files[r.0.activeIndex].html) && r.0.menuVisible == s.menuVisible
  {
    if |s.files| == 1 then (s, Some(KeepOneOpen))
    else
      var files := s.files[..index] + s.files[index + 1..];
      var active := if s.activeIndex >= |files| then |files| - 1 else s.activeIndex;
      (Load(s.(files := files, activeIndex := active), render), None)
  }

  /**
   Closing does not save the live content: every file that stays open keeps its stored HTML,
   and the active file is whatever now sits at the unchanged (or clamped) index, which is the
   successor of the active file when a tab at or before it is closed (unless the active file
   is the last one).
   */
  lemma CloseShiftsActive(s: State, index: int, render: string -> string)
    requires Valid(s) && 0 <= index < |s.files| && |s.files| > 1
    ensures var r := Close(s, index, render).0;
      && (forall k :: 0 <= k < |r.files| ==> r.files[k] == s.files[if k < index then k else k + 1])
      && (index <= s.activeIndex < |s.files| - 1 ==> r.files[r.activeIndex] == s.files[s.activeIndex + 1])
      && (index == s.activeIndex == |s.files| - 1 ==> r.files[r.activeIndex] == s.files[index - 1])
      && (index > s.activeIndex || index < s.activeIndex == |s.files| - 1 ==>
            r.files[r.activeIndex] == s.files[s.activeIndex])
  {
  }

  // ---- Upload ----

  /** The counter of one upload: how many reads have completed out of how many were started. */
  datatype Batch = Batch(loaded: nat, total: nat)

  /**
   One read of an upload completes: the file is appended, the counter goes up, and the last
   completion switches to the slot where the first file of the batch would stand.
   */
  function ReadDone(s: State, b: Batch, f: File, render: string -> string): (r: (State, Batch))
    requires Valid(s) && b.loaded < b.total
    requires b.loaded + 1 == b.total ==> b.total <= |s.files| + 1
    ensures Valid(r.0) && r.1 == b.(loaded := b.loaded + 1)
    ensures b.loaded + 1 < b.total ==> r.0 == s.(files := s.files + [f])
    ensures b.loaded + 1 == b.total ==> r.0 == Switch(s.(files := s.files + [f]), |s.files| + 1 - b.total, render)
  {
    var appended := s.(files := s.files + [f]);
    var loaded := b.loaded + 1;
    if loaded == b.total then (Switch(appended, |appended.files| - b.total, render), b.(loaded := loaded))
    else (appended, b.(loaded := loaded))
  }

  /** The remaining reads of a batch complete one after the other, in the order of `done`. */
  function RunBatch(s: State, b: Batch, done: seq<File>, render: string -> string): (r: State)
    requires Valid(s) && b.loaded + |done| == b.total && b.total <= |s.files| + |done|
    decreases |done|
  {
    if done == [] then s
    else
      var (s', b') := ReadDone(s, b, done[0], render);
      RunBatch(s', b', done[1..], render)
  }

  /** Until the last read, the batch only appends; the last one switches to the computed slot. */
  lemma {:induction false} RunBatchAppends(s: State, b: Batch, done: seq<File>, render: string -> string)
    requires Valid(s) && b.loaded + |done| == b.total && b.total <= |s.files| + |done| && done != []
    decreases |done|
    ensures RunBatch(s, b, done, render) == Switch(s.(files := s.files + done), |s.files| + |done| - b.total, render)
  {
    var s' := ReadDone(s, b, done[0], render).0;
    if |done| > 1 {
      RunBatchAppends(s', b.(loaded := b.loaded + 1), done[1..], render);
      assert s'.files + done[1..] == s.files + done;
    } else {
      assert s.files + [done[0]] == s.files + done;
    }
  }

  /**
   A whole batch of k >= 1 reads with no other event in between appends the k files in
   completion order after the existing ones (the old active file has its live content saved),
   and activates the first appended file, which is also rendered.
   */
  lemma UploadBatch(s: State, done: seq<File>, render: string -> string)
    requires Valid(s) && done != []
    ensures var r := RunBatch(s, Batch(0, |done|), done, render);
      && Valid(r)
      && r.files == Commit(s).files + done
      && r.activeIndex == |s.files|
      && r.live == render(done[0].html)
  {
    RunBatchAppends(s, Batch(0, |done|), done, render);
    SwitchToAppended(s, done, render);
  }

  /** Switching to the first appended slot saves the old active file and shows the first new one. */
  lemma SwitchToAppended(s: State, done: seq<File>, render: string -> string)
    requires Valid(s) && done != []
    ensures var r := Switch(s.(files := s.files + done), |s.files|, render);
      && r.files == Commit(s).files + done
      && r.live == render(done[0].html)
  {
  }

  // ---- Selection and highlights ----

  /** `handleSelection`: the menu is shown exactly for a non-collapsed selection anchored in the reader. */
  function SelectionChanged(s: State, isCollapsed: bool, anchorInReader: bool): (r: State)
    ensures r.menuVisible <==> !isCollapsed && anchorInReader
    ensures r.(menuVisible := s.menuVisible) == s
  {
    s.(menuVisible := !(isCollapsed || !anchorInReader))
  }

  /**
   `applyHighlight`: with no selection range nothing happens; otherwise the selection is
   wrapped in a span of the class or, when that throws, coloured with the class's colour,
   the menu is hidden and the result is saved into the active file.
   */
  function Highlight(s: State, className: string, rangeCount: nat, dom: Editing): (r: State)
    requires Valid(s)
    ensures rangeCount == 0 ==> r == s
    ensures rangeCount > 0 ==> Valid(r) && Committed(r) && !r.menuVisible
    ensures rangeCount > 0 ==> OnlyChanged(s, r, s.activeIndex) && r.activeIndex == s.activeIndex
    ensures rangeCount > 0 ==> r.live == match dom.surround(className, s.live)
                                         case Some(wrapped) => wrapped
                                         case None => dom.hiliteColor(Page.ColorOf(className), s.live)
  {
    if rangeCount == 0 then s
    else
      var live := match dom.surround(className, s.live)
                  case Some(wrapped) => wrapped
                  case None => dom.hiliteColor(Page.ColorOf(className), s.live);
      Commit(s.(live := live, menuVisible := false))
  }

  /** `removeHighlight`: clear the formatting, hide the menu and save into the active file. */
  function Unhighlight(s: State, dom: Editing): (r: State)
    requires Valid(s)
    ensures Valid(r) && Committed(r) && !r.menuVisible
    ensures OnlyChanged(s, r, s.activeIndex) && r.activeIndex == s.activeIndex
    ensures r.live == dom.removeFormat(s.live)
  {
    Commit(s.(live := dom.removeFormat(s.live), menuVisible := false))
  }

  // ---- Export ----

  /** The outcome of `exportHTML`: the new session, the snapshot text and its download name. */
  datatype Exported = Exported(state: State, content: string, filename: string)

  /**
   `exportHTML`: save first, then build the snapshot of the active file. The snapshot's body
   is therefore the live content, never a stale stored copy.
   */
  function Export(s: State): (r: Exported)
    requires Valid(s)
    ensures r.state == Commit(s)
    ensures r.content == Page.Snapshot(s.files[s.activeIndex].name, s.live)
    ensures r.filename == Page.DownloadName(s.files[s.activeIndex].name)
  {
    var c := Commit(s);
    var file := c.files[c.activeIndex];
    Exported(c, Page.Snapshot(file.name, file.html), Page.DownloadName(file.name))
  }

  /** The exported title is the active file's name and the exported body is the live content. */
  lemma ExportShowsLive(s: State)
    requires Valid(s)
    ensures var r := Export(s);
      var title := s.files[s.activeIndex].name;
      && r.state.activeIndex == s.activeIndex
      && r.content[|Page.TitleOpen|..|Page.TitleOpen| + |title|] == title
      && r.content[|Page.TitleOpen| + |title| + |Page.TitleToBody|..|r.content| - |Page.BodyClose|] == s.live
  {
  }
}
