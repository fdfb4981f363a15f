/** The workspace store (`useWorkspaceStore`): the editor text, the view
    mode, the two pane ratios and two layout flags, six setters, and the
    projection of the state that is persisted. */
module WorkspaceStore {
  import opened Base

  /** The three view modes. */
  datatype ViewMode = Split | Editor | Preview

  /** The string each view mode is stored as. */
  function ViewModeName(m: ViewMode): string {
    match m
    case Split => "split"
    case Editor => "editor"
    case Preview => "preview"
  }

  function ParseViewMode(s: string): Option<ViewMode> {
    if s == "split" then Some(Split)
    else if s == "editor" then Some(Editor)
    else if s == "preview" then Some(Preview)
    else None
  }

  /** The stored names are exactly the three view modes, one name each. */
  lemma ViewModeNamesRoundTrip(m: ViewMode, s: string)
    ensures ParseViewMode(ViewModeName(m)) == Some(m)
    ensures ParseViewMode(s) == Some(m) ==> s == ViewModeName(m)
  {
  }

  datatype Workspace = Workspace(
    markdown: string,
    viewMode: ViewMode,
    splitRatio: real,
    previewWidthRatio: real,
    isMobile: bool,
    isPreviewFullWidth: bool)

  const Initial: Workspace := Workspace("", Split, 0.5, 0.7, false, false)

  datatype Setter =
    | SetMarkdown(markdown: string)
    | SetViewMode(viewMode: ViewMode)
    | SetSplitRatio(splitRatio: real)
    | SetPreviewWidthRatio(previewWidthRatio: real)
    | SetIsMobile(isMobile: bool)
    | SetIsPreviewFullWidth(isPreviewFullWidth: bool)

  /** Each setter assigns its own field and leaves the other five alone. */
  function Apply(w: Workspace, s: Setter): (r: Workspace)
    ensures r.markdown == (if s.SetMarkdown? then s.markdown else w.markdown)
    ensures r.viewMode == (if s.SetViewMode? then s.viewMode else w.viewMode)
    ensures r.splitRatio == (if s.SetSplitRatio? then s.splitRatio else w.splitRatio)
    ensures r.previewWidthRatio == (if s.SetPreviewWidthRatio? then s.previewWidthRatio else w.previewWidthRatio)
    ensures r.isMobile == (if s.SetIsMobile? then s.isMobile else w.isMobile)
    ensures r.isPreviewFullWidth == (if s.SetIsPreviewFullWidth? then s.isPreviewFullWidth else w.isPreviewFullWidth)
  {
    match s
    case SetMarkdown(v) => w.(markdown := v)
    case SetViewMode(v) => w.(viewMode := v)
    case SetSplitRatio(v) => w.(splitRatio := v)
    case SetPreviewWidthRatio(v) => w.(previewWidthRatio := v)
    case SetIsMobile(v) => w.(isMobile := v)
    case SetIsPreviewFullWidth(v) => w.(isPreviewFullWidth := v)
  }

  /** The persisted part of the state. */
  datatype Persisted = Persisted(
    markdown: string,
    viewMode: ViewMode,
    splitRatio: real,
    previewWidthRatio: real)

  /** `partialize`. */
  function Partialize(w: Workspace): (r: Persisted)
    ensures r.markdown == w.markdown && r.viewMode == w.viewMode
    ensures r.splitRatio == w.splitRatio && r.previewWidthRatio == w.previewWidthRatio
  {
    Persisted(w.markdown, w.viewMode, w.splitRatio, w.previewWidthRatio)
  }

  /** A flag setter leaves everything that is persisted alone, so the
      persisted state of a fresh store is the same whatever layout it is
      first shown in. */
  lemma InitialPersistedIgnoresLayout(isMobile: bool, isPreviewFullWidth: bool)
    ensures Partialize(Apply(Apply(Initial, SetIsMobile(isMobile)), SetIsPreviewFullWidth(isPreviewFullWidth)))
            == Partialize(Initial)
    ensures Partialize(Initial).markdown == "" && Partialize(Initial).viewMode == Split
  {
  }

  /** Two states persist alike exactly when they agree on the four persisted
      fields; the layout flags never reach storage. */
  lemma PartializeKeepsExactlyFour(w1: Workspace, w2: Workspace)
    ensures Partialize(w1) == Partialize(w2) <==>
              && w1.markdown == w2.markdown && w1.viewMode == w2.viewMode
              && w1.splitRatio == w2.splitRatio && w1.previewWidthRatio == w2.previewWidthRatio
  {
  }

  /** A setter leaves the persisted state unchanged exactly when it is one
      of the two layout-flag setters or writes the value already there. */
  lemma PersistedChangeIff(w: Workspace, s: Setter)
    ensures Partialize(Apply(w, s)) == Partialize(w) <==>
              || s.SetIsMobile? || s.SetIsPreviewFullWidth?
              || (s.SetMarkdown? && s.markdown == w.markdown)
              || (s.SetViewMode? && s.viewMode == w.viewMode)
              || (s.SetSplitRatio? && s.splitRatio == w.splitRatio)
              || (s.SetPreviewWidthRatio? && s.previewWidthRatio == w.previewWidthRatio)
  {
  }
}
