# Document reader session — a Dafny model

The document reader is a small single-page viewer. It opens Markdown files as tabs, lets
the user mark passages with coloured highlights, and exports the annotated document as a
standalone HTML file. This project models the page script's session state machine and
proves properties of it. The state is the list of open files (name and stored HTML), the
active index, the reader's live content and whether the highlight menu is shown. The
events are switching and closing tabs, loading the active file, saving edits, uploading a
batch of files, applying and removing highlights, and exporting. The pure helpers are
modelled too: the keystroke filter of the read-only reader, the tab projection, the
highlight colour map, the export stylesheet and template, and the download file name.

Files:

- `wrappers.dfy`: `Option`, for JavaScript's `undefined` and "not found".
- `text.dfy`: `indexOf`, `replace` with a string pattern (first occurrence only) and
  `toLowerCase` on ASCII letters.
- `page.dfy`: key filter, colour map, stylesheet, snapshot template, download name.
- `session.dfy`: the session as a value `State`. It has one transition function per
  event, with the invariant `Valid` (at least one file, active index in range) and the
  lemmas.
- `reader.dfy`: the script's state in place. Class `DocumentSession` holds the
  module-level variables. Class `UploadBatch` is the counter that one call of the upload
  handler shares between its file readers. Every method is proved to perform the
  transition of `session.dfy` on `State()` and to keep `Valid()`.

Some of the script's behaviour is easy to misread; the model follows the script:

- Closing a tab does not save the live content first.
- Closing a tab before the active one does not move the index, so the successor becomes
  active (unless the active file was the last one).
- Neither switching nor closing checks the index; the bounds are preconditions.
- The download name replaces the first ".md" anywhere in the name, not the extension.
- Switching to the tab that is already active still saves and re-renders it.
- Removing a highlight has no selection guard.

The source file uses CRLF line ends. JavaScript template literals turn them into LF, so
the templates here use "\n".

## Model

| member | source | states |
|---|---|---|
| `Text.IndexFrom` | assets/index.js:212 | the search behind `replace`: the result is an occurrence of the pattern, and none occurs earlier; "not found" means no occurrence at all |
| `Text.ReplaceFirst` | assets/index.js:212 | a string pattern replaces only its leftmost occurrence, with the text before and after kept; a string without the pattern is returned unchanged |
| `Text.ToLower` | assets/index.js:36 | the result has the same length and no capital A to Z left; each capital becomes the letter 32 code points later, and every other character is kept |
| `Text.LowersToLetter` | assets/index.js:36 | a key lower-cases to a one-letter string exactly when it is that letter or its capital |
| `Page.KeyAllowed` | assets/index.js:34-41 | a keydown passes exactly when Ctrl or Meta is held and the key is c, a or x in either case; every other key is blocked |
| `Page.ColorOf` | assets/index.js:158-164 | yellow, green, blue and pink highlights get #fde047, #86efac, #93c5fd and #f9a8d4; any other class name gets `undefined` (but see "## Left out") |
| `Page.ColorsAgreeWithStylesheet` | assets/index.js:197-198 | for each of the four classes in the colour map, the export stylesheet holds the rule giving that class the same background colour |
| `Page.Snapshot` | assets/index.js:189-207 | the snapshot's length is the sum of its parts; the title element holds exactly the title; the body element holds exactly the body |
| `Page.SnapshotIsInjective` | assets/index.js:189-207 | two snapshots with the same title are equal only when their bodies are equal |
| `Page.DownloadName` | assets/index.js:212 | the first ".md" becomes ".html" with the rest of the name kept; a name without ".md" is unchanged |
| `Page.DownloadNameRenamesFirst` | assets/index.js:212 | when ".md" first occurs after `stem`, the result is `stem + ".html" + rest`, even if `rest` holds another ".md" |
| `Page.WelcomeDownloadName` | assets/index.js:212 | "Welcome.md" is downloaded as "Welcome.html" |
| `Page.DoubleMarkdownDownloadName` | assets/index.js:212 | "a.md.md" becomes "a.html.md": the extension itself is not what is replaced |
| `Page.PlainDownloadName` | assets/index.js:212 | a name without ".md" ("README") is kept |
| `Session.Load` | assets/index.js:81-90 | loading keeps the session valid; the reader shows the active file's stored HTML, rendered; files, index and menu are unchanged |
| `Session.Input` | assets/index.js:44-46 | after an edit to the reader, the edited content is live and saved into the active file; other files, names, the index and the menu are kept |
| `Session.Commit` | assets/index.js:187 | saving makes the active file's HTML equal to the live content; no other file, no name, the index, the live content and the menu are all unchanged |
| `Session.CommitIdempotent` | assets/index.js:187 | saving changes nothing exactly when the active file is already saved |
| `Session.Initial` | assets/index.js:2-28 | the page starts valid with only "Welcome.md" holding the welcome HTML, active at index 0, rendered into the reader, menu hidden |
| `Session.Switch` | assets/index.js:63-70 | switching first stores the live content in the previously active file and touches no other file or name; then the index is the target and the reader shows the target's stored HTML rendered; validity is kept |
| `Session.SwitchToActive` | assets/index.js:63-70 | switching to the active tab is a save followed by re-rendering the live content; on a saved state it changes only the live content |
| `Session.SwitchAwayAndBack` | assets/index.js:63-70 | after switching to i, then to j, then back to i, file i holds what was saved when leaving it, and the reader shows that content rendered |
| `Session.Close` | assets/index.js:72-79 | with one file open: no change and the "Keep at least one file open." notice; otherwise the file is spliced out, the index is clamped only if it fell off the end, the active file is reloaded, and validity is kept |
| `Session.CloseShiftsActive` | assets/index.js:75-76 | remaining files keep their stored HTML (no save); closing at or before the active file activates its successor; closing the active last file activates its predecessor; otherwise the same file stays active |
| `Session.ReadDone` | assets/index.js:99-107 | each completed read appends its file and counts up; before the last completion nothing else changes; the last one switches to slot `length - batch size` |
| `Session.RunBatchAppends` | assets/index.js:97-109 | a run of the remaining completions equals appending all their files in completion order, then one switch to the batch's first slot |
| `Session.UploadBatch` | assets/index.js:92-111 | an uninterrupted batch of k >= 1 files keeps the old files (its active one saved), appends the k files in completion order, and activates and renders the first appended one at the old length |
| `Session.SwitchToAppended` | assets/index.js:105 | switching to the first appended slot saves the old active file and shows the first new file |
| `Session.SelectionChanged` | assets/index.js:114-130 | the menu is shown exactly when the selection is not collapsed and its anchor is in the reader; nothing else changes |
| `Session.Highlight` | assets/index.js:132-174 | with no selection range, nothing changes; otherwise the live content is the wrapped selection, or on failure the class's fallback colour applied; the menu is hidden, the active file saved, and the other files, names and index kept |
| `Session.Unhighlight` | assets/index.js:176-183 | the live content has its formatting removed, the menu is hidden, and the active file is saved with the others kept, unconditionally |
| `Session.Export` | assets/index.js:185-213 | export saves first; the snapshot is built from the active file's name and the live content; the download name is that name renamed |
| `Session.ExportShowsLive` | assets/index.js:187-205 | export keeps the active index; the exported title is the active file's name and the exported body is exactly the live content |
| `Reader.DocumentSession.constructor` | assets/index.js:2-28 | the new session is valid and equals the initial state |
| `Reader.DocumentSession.LoadActiveFile` | assets/index.js:81-90 | the reader shows the active file's HTML rendered, and nothing else changes |
| `Reader.DocumentSession.OnInput` | assets/index.js:44-46 | the state becomes `Session.Input` of the old state and the edited content; validity is kept |
| `Reader.DocumentSession.RenderTabs` | assets/index.js:50-61 | one descriptor per file in order, with the file's name, marked active exactly at the active index |
| `Reader.DocumentSession.SwitchTab` | assets/index.js:63-70 | the state becomes `Session.Switch` of the old state; validity is kept |
| `Reader.DocumentSession.CloseTab` | assets/index.js:72-79 | the state and notice are `Session.Close` of the old state; validity is kept |
| `Reader.DocumentSession.HandleFileUpload` | assets/index.js:92-111 | no files: no counter and no change; otherwise a fresh counter at 0 of the file count, tied to this session, with the session unchanged |
| `Reader.DocumentSession.HandleSelection` | assets/index.js:114-130 | the state becomes `Session.SelectionChanged` of the old state |
| `Reader.DocumentSession.ApplyHighlight` | assets/index.js:132-174 | the state becomes `Session.Highlight` of the old state; validity is kept |
| `Reader.DocumentSession.RemoveHighlight` | assets/index.js:176-183 | the state becomes `Session.Unhighlight` of the old state; validity is kept |
| `Reader.DocumentSession.ExportHTML` | assets/index.js:185-214 | the new state, content and file name are `Session.Export` of the old state |
| `Reader.UploadBatch.constructor` | assets/index.js:96 | a batch starts with no read completed |
| `Reader.UploadBatch.CompleteRead` | assets/index.js:99-107 | the session and counter become `Session.ReadDone` of the old ones, with the file's text converted by the session's Markdown converter; the session stays valid |

## Left out

- The browser's editing of the reader is not modelled. This covers `Range.surroundContents`
  with its thrown exception (modelled as `None`), `execCommand("hiliteColor")`,
  `execCommand("removeFormat")` and the `designMode` toggling. These are the functions of
  `Session.Editing`, supplied per call, because their behaviour is browser-engine code.
  So the structure of highlights (one span versus per-block fragments, text unchanged) is
  not proved.
- Rendering is a function value, `render`, fixed per session. It covers assigning HTML to
  `innerHTML`, reading it back, KaTeX's `renderMathInElement` and `hljs.highlightAll`. The
  Markdown converter `marked.parse` is a function value, `parse`. Both are third-party code.
- The welcome file's yellow span around "highlight the text" is not followed through a
  highlight and an export. That depends on the editing and rendering functions above.
- `FileReader` asynchrony is not modelled. A completion is a call of
  `UploadBatch.CompleteRead`, in any order and interleaved with other events. A read that
  never completes is a call never made. Resetting `input.value` is left out; it is DOM.
- `Reader.UploadBatch.CompleteRead`, `Session.ReadDone`, `Session.RunBatch`: require that
  closing tabs while the reads were pending did not leave fewer open files than the batch
  size at the last completion. Otherwise the script calls `switchTab` with
  `files.length - uploadedFiles.length`, which is negative. It can be any negative number:
  with one file open, upload four, let three complete, close three tabs, and the fourth
  completion calls `switchTab(-2)`. That call stores the negative `activeIndex`, and then
  `loadActiveFile` throws. From then on every `switchTab`, `closeTab`, `applyHighlight`,
  `removeHighlight`, `exportHTML` and input event throws on `files[activeIndex]`, so the
  session stays broken.
- `Reader.DocumentSession.SwitchTab`, `Reader.DocumentSession.CloseTab`: the index is
  required to be in range. The script does not check it, and the tab strip only ever
  passes valid indices.
  - For `switchTab`, an index past the end makes `loadActiveFile` throw.
  - For `closeTab`, an index past the end makes `splice` remove nothing, and the active
    file is just reloaded. A negative index makes `splice` count from the end.
- The selection itself is not modelled. The handlers receive `rangeCount`, `isCollapsed`
  and "anchor inside the reader" as parameters. Clearing it with
  `selection.removeAllRanges()` has no effect in the model.
- The menu's pixel position (`getBoundingClientRect`, `scrollY`, `offsetWidth`) is left
  out. It is floating-point layout; only the shown or hidden decision is modelled.
- The tab strip's DOM (class names, close button, click handlers) is left out. Calls to
  `renderTabs` inside `switchTab` and `closeTab` are not repeated: the strip depends only
  on `files` and `activeIndex`, and `RenderTabs` computes it from them.
- Downloading (`Blob`, `URL.createObjectURL`, `a.click()`), the `alert` display (the
  notice is returned instead), `preventDefault`, `stopPropagation` and listener
  registration are left out. They are I/O and event plumbing.
- `Page.ColorOf`: does not model property names inherited from `Object.prototype`. The
  colour map is an object literal, so `colorMap["toString"]`, `colorMap["constructor"]` or
  `colorMap["__proto__"]` give a function or an object rather than `undefined`, and that
  value reaches `execCommand("hiliteColor")`. The model gives `None` for every name but the
  four classes.
- `Text.ToLower`: lower-cases only A to Z, where JavaScript's `toLowerCase` covers all of
  Unicode. No other character lower-cases to "c", "a" or "x", so the key filter is exact.
- `Text.ReplaceFirst`: does not interpret `$` patterns in the replacement. The only
  replacement used, ".html", has none.
- The menu's initial display comes from the page's HTML and CSS, which are not part of
  this model. It is taken to be hidden.
