/**
 The page script's session, as the script keeps it: module-level variables that event
 handlers update in place. `DocumentSession` holds them; each `UploadBatch` is the state one
 call of the upload handler shares between its file readers. Every method is proved to make
 the transition that module Session defines on `State()`.
 */
module Reader {
  import opened Wrappers
  import Page
  import S = Session

  class DocumentSession {
    var files: seq<S.File>
    var activeIndex: int
    /** The reader element's `innerHTML`. */
    var live: string
    /** Whether the highlight menu is displayed. */
    var menuVisible: bool
    /**
     Assigning HTML to the reader, then typesetting its maths and colouring its code blocks,
     as `innerHTML` reads back afterwards.
     */
    const render: string -> string
    /** The Markdown converter applied to an uploaded file's text. */
    const parse: string -> string

    function State(): S.State
      reads this
    {
      S.State(files, activeIndex, live, menuVisible)
    }

    ghost predicate Valid()
      reads this
    {
      S.Valid(State())
    }

    /** The page starts with the welcome file, active and loaded into the reader. */
    constructor (render: string -> string, parse: string -> string)
      ensures Valid() && State() == S.Initial(render)
      ensures this.render == render && this.parse == parse
    {
      this.render := render;
      this.parse := parse;
      files := [S.File(S.WelcomeName, S.WelcomeHtml)];
      activeIndex := 0;
      live := "";
      menuVisible := false;
      new;
      LoadActiveFile();
    }

    /** The reader shows the active file's stored HTML, rendered. */
    method LoadActiveFile()
      requires Valid()
      modifies this
      ensures Valid() && State() == S.Load(old(State()), render)
    {
      live := render(files[activeIndex].html);
    }

    /**
     An edit changed the reader's content to `edited` and the input listener fired: the
     content is saved into the active file.
     */
    method OnInput(edited: string)
      requires Valid()
      modifies this
      ensures Valid() && State() == S.Input(old(State()), edited)
    {
      live := edited;
      files := files[activeIndex := files[activeIndex].(html := live)];
    }

    /** The tab strip: one entry per open file, in order, marked active at the active index. */
    method RenderTabs() returns (tabs: seq<S.Tab>)
      ensures |tabs| == |files|
      ensures forall i :: 0 <= i < |files| ==> tabs[i].name == files[i].name
      ensures forall i :: 0 <= i < |files| ==> (tabs[i].isActive <==> i == activeIndex)
    {
      tabs := [];
      var index := 0;
      while index < |files|
        invariant 0 <= index <= |files|
        invariant |tabs| == index
        invariant forall i :: 0 <= i < index ==> tabs[i] == S.Tab(files[i].name, i == activeIndex)
      {
        tabs := tabs + [S.Tab(files[index].name, index == activeIndex)];
        index := index + 1;
      }
    }

    /** Save the live content into the active file, then show file `index`. */
    method SwitchTab(index: int)
      requires Valid() && 0 <= index < |files|
      modifies this
      ensures Valid() && State() == S.Switch(old(State()), index, render)
    {
      files := files[activeIndex := files[activeIndex].(html := live)];
      activeIndex := index;
      LoadActiveFile();
    }

    /**
     Close file `index`, unless it is the only one (then the notice is returned and nothing
     changes); the active index is clamped to the shorter list and the active file reloaded.
     */
    method CloseTab(index: int) returns (notice: Option<string>)
      requires Valid() && 0 <= index < |files|
      modifies this
      ensures Valid() && (State(), notice) == S.Close(old(State()), index, render)
    {
      if |files| == 1 {
        return Some(S.KeepOneOpen);
      }
      files := files[..index] + files[index + 1..];
      if activeIndex >= |files| {
        activeIndex := |files| - 1;
      }
      LoadActiveFile();
      notice := None;
    }

    /**
     The upload handler for `fileCount` chosen files: nothing for none, otherwise a fresh
     completion counter whose reads are still to complete.
     */
    method HandleFileUpload(fileCount: nat) returns (batch: UploadBatch?)
      ensures batch == null <==> fileCount == 0
      ensures batch != null ==> fresh(batch) && batch.session == this
      ensures batch != null ==> batch.Counter() == S.Batch(0, fileCount)
    {
      if fileCount == 0 {
        return null;
      }
      batch := new UploadBatch(this, fileCount);
    }

    /** The selection listener: the menu is shown for a non-collapsed selection anchored in the reader. */
    method HandleSelection(isCollapsed: bool, anchorInReader: bool)
      modifies this
      ensures State() == S.SelectionChanged(old(State()), isCollapsed, anchorInReader)
    {
      if isCollapsed || !anchorInReader {
        menuVisible := false;
        return;
      }
      menuVisible := true;
    }

    /**
     A highlight colour was picked: without a selection range nothing happens; otherwise the
     selection is wrapped in a span of `className`, or coloured with the class's colour when
     wrapping throws, the menu is hidden and the active file saved.
     */
    method ApplyHighlight(className: string, rangeCount: nat, dom: S.Editing)
      requires Valid()
      modifies this
      ensures Valid() && State() == S.Highlight(old(State()), className, rangeCount, dom)
    {
      if rangeCount == 0 {
        return;
      }
      var wrapped := dom.surround(className, live);
      if wrapped.Some? {
        live := wrapped.value;
      } else {
        live := dom.hiliteColor(Page.ColorOf(className), live);
      }
      menuVisible := false;
      files := files[activeIndex := files[activeIndex].(html := live)];
    }

    /** The eraser: formatting is removed from the selection, the menu hidden and the active file saved. */
    method RemoveHighlight(dom: S.Editing)
      requires Valid()
      modifies this
      ensures Valid() && State() == S.Unhighlight(old(State()), dom)
    {
      live := dom.removeFormat(live);
      menuVisible := false;
      files := files[activeIndex := files[activeIndex].(html := live)];
    }

    /** Save the active file, then give its snapshot and the name to download it under. */
    method ExportHTML() returns (content: string, filename: string)
      requires Valid()
      modifies this
      ensures Valid() && S.Exported(State(), content, filename) == S.Export(old(State()))
    {
      files := files[activeIndex := files[activeIndex].(html := live)];
      content := Page.Snapshot(files[activeIndex].name, files[activeIndex].html);
      filename := Page.DownloadName(files[activeIndex].name);
    }
  }

  /**
   The counter that one call of the upload handler shares between the readers of its files:
   each completed read appends its file, and the last one activates the first slot of the batch.
   */
  class UploadBatch {
    const session: DocumentSession
    /** The number of files chosen in this upload. */
    const total: nat
    var loadedCount: nat

    constructor (session: DocumentSession, total: nat)
      ensures this.session == session && Counter() == S.Batch(0, total)
    {
      this.session := session;
      this.total := total;
      loadedCount := 0;
    }

    function Counter(): S.Batch
      reads this
    {
      S.Batch(loadedCount, total)
    }

    /**
     The read of the file `name` completed with `text`. The last completion switches tabs,
     which needs the batch's first slot to exist: fewer than `total` files may not be left
     open by closes that happened while the reads were pending.
     */
    method CompleteRead(name: string, text: string)
      requires session.Valid() && loadedCount < total
      requires loadedCount + 1 == total ==> total <= |session.files| + 1
      modifies this, session
      ensures session.Valid()
      ensures (session.State(), Counter())
           == S.ReadDone(old(session.State()), old(Counter()), S.File(name, session.parse(text)), session.render)
    {
      var html := session.parse(text);
      session.files := session.files + [S.File(name, html)];
      loadedCount := loadedCount + 1;
      if loadedCount == total {
        session.SwitchTab(|session.files| - total);
      }
    }
  }
}
