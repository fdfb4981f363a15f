/** The older preview component (`MarkdownPreview`). It renders on a 200 ms
    debounce: every change of the markdown clears the pending timer and arms
    a new one; when a timer fires, the markdown it captured is rendered, and
    whatever render settles writes its HTML and clears `isRendering`. Unlike
    the rendering hook it has no cancellation, so an older render that
    settles late overwrites a newer one. It also carries its own drag state
    for the two resize handles. */
module MarkdownPreview {
  import opened Base
  import opened Text
  import RenderHook
  import PointerResize
  import WorkspaceStore

  /** The component's rendering state: the current markdown, the shown HTML,
      the `isRendering` flag, the markdown captured by the armed debounce
      timer (if any), the renders started and not yet settled (each with the
      untrimmed markdown it parses), and the number the next render gets. */
  datatype Preview = Preview(
    markdown: string,
    html: string,
    isRendering: bool,
    timer: Option<string>,
    runs: map<nat, string>,
    nextRun: nat)

  const Initial: Preview := Preview("", "", false, None, map[], 0)

  /** The markdown changed: the pending timer is cleared and a new one is
      armed over the new value. */
  function OnMarkdown(s: Preview, markdown: string): (r: Preview)
    ensures r.markdown == markdown && r.timer == Some(markdown)
    ensures r.html == s.html && r.isRendering == s.isRendering && r.runs == s.runs
  {
    s.(markdown := markdown, timer := Some(markdown))
  }

  /** The debounce timer fires and `processMarkdown` runs on the captured
      value. Blank markdown empties the HTML and leaves `isRendering` as it
      was; anything else sets `isRendering` and starts a render of the
      markdown as typed (not trimmed). */
  function OnTimer(s: Preview): (r: Preview)
    ensures s.timer.None? ==> r == s
    ensures r.timer.None? && r.markdown == s.markdown
    ensures s.timer.Some? && Trim(s.timer.value) == "" ==>
              r.html == "" && r.isRendering == s.isRendering && r.runs == s.runs
    ensures s.timer.Some? && Trim(s.timer.value) != "" ==>
              && r.html == s.html && r.isRendering
              && r.runs.Keys == s.runs.Keys + {s.nextRun} && r.runs[s.nextRun] == s.timer.value
  {
    match s.timer
    case None => s
    case Some(markdown) =>
      if Trim(markdown) == "" then s.(timer := None, html := "")
      else
        s.(timer := None, isRendering := true,
           runs := s.runs[s.nextRun := markdown], nextRun := s.nextRun + 1)
  }

  /** A render settles. Whichever it is, its HTML (or the error paragraph)
      is written and `isRendering` is reset. */
  function OnSettled(s: Preview, pipeline: RenderHook.Pipeline, run: nat): (r: Preview)
    ensures run !in s.runs ==> r == s
    ensures run in s.runs ==>
              && r.html == RenderHook.Committed(pipeline(s.runs[run]))
              && !r.isRendering
              && r.runs == s.runs - {run}
              && r.markdown == s.markdown && r.timer == s.timer
  {
    if run !in s.runs then s
    else s.(html := RenderHook.Committed(pipeline(s.runs[run])), isRendering := false,
            runs := s.runs - {run})
  }

  /** The armed timer always holds the current markdown: each change
      replaces it, so only the value current when it fires is rendered. */
  ghost predicate Debounced(s: Preview) {
    && (s.timer.Some? ==> s.timer.value == s.markdown)
    && (forall run :: run in s.runs ==> run < s.nextRun)
  }

  datatype Event = Markdown(markdown: string) | TimerFires | Settled(run: nat)

  function Step(s: Preview, pipeline: RenderHook.Pipeline, e: Event): Preview {
    match e
    case Markdown(markdown) => OnMarkdown(s, markdown)
    case TimerFires => OnTimer(s)
    case Settled(run) => OnSettled(s, pipeline, run)
  }

  function Run(s: Preview, pipeline: RenderHook.Pipeline, events: seq<Event>): Preview
    decreases |events|
  {
    if events == [] then s
    else Run(Step(s, pipeline, events[0]), pipeline, events[1..])
  }

  /** Along any sequence of events the timer holds the current markdown, so
      a render that starts always parses the markdown current at that
      moment. */
  lemma {:induction false} DebounceRendersCurrent(pipeline: RenderHook.Pipeline, s: Preview, events: seq<Event>)
    requires Debounced(s)
    ensures var r := Run(s, pipeline, events);
            Debounced(r) &&
            (r.timer.Some? && Trim(r.markdown) != "" ==> OnTimer(r).runs[r.nextRun] == r.markdown)
    decreases |events|
  {
    if events != [] {
      var next := Step(s, pipeline, events[0]);
      assert Debounced(next);
      DebounceRendersCurrent(pipeline, next, events[1..]);
    }
  }

  /** Rapid edits coalesce: a change made before the timer fires leaves no
      trace of the value it replaced. */
  lemma EditsCoalesce(s: Preview, a: string, b: string)
    ensures OnMarkdown(OnMarkdown(s, a), b) == OnMarkdown(s, b)
  {
  }

  /** No last-input-wins: edit to `x`, let the timer fire, edit to `y`,
      let it fire again; if the render of `y` settles before the render of
      `x`, the HTML for `x` stays on screen under the markdown `y`, and
      `isRendering` already turned false when `x`'s render settled while
      `y`'s was still in flight. */
  lemma StaleRenderOverwrites(pipeline: RenderHook.Pipeline, s0: Preview, x: string, y: string)
    requires Trim(x) != "" && Trim(y) != ""
    ensures var s1 := OnTimer(OnMarkdown(s0, x));
            var s := OnTimer(OnMarkdown(s1, y));
            var first := s0.nextRun;
            var afterOld := OnSettled(s, pipeline, first);
            var afterBoth := OnSettled(OnSettled(s, pipeline, first + 1), pipeline, first);
            && s.runs == s0.runs[first := x][first + 1 := y]
            && !afterOld.isRendering && first + 1 in afterOld.runs
            && afterBoth.markdown == y && !afterBoth.isRendering
            && afterBoth.html == RenderHook.Committed(pipeline(x))
            && (RenderHook.Committed(pipeline(x)) != RenderHook.Committed(pipeline(y)) ==>
                  afterBoth.html != RenderHook.Committed(pipeline(y)))
  {
    var m1 := OnMarkdown(s0, x);
    assert m1.timer == Some(x);
    var s1 := OnTimer(m1);
    assert s1.runs == s0.runs[s0.nextRun := x] && s1.nextRun == s0.nextRun + 1;
    var m2 := OnMarkdown(s1, y);
    assert m2.timer == Some(y) && m2.runs == s1.runs && m2.nextRun == s1.nextRun;
    var s := OnTimer(m2);
    assert s.runs == s1.runs[s1.nextRun := y];
  }

  /** `previewContent`: the HTML, or the placeholder paragraph when there is
      none. */
  function PreviewContent(s: Preview): (r: string)
    ensures r != ""
    ensures s.html != "" ==> r == s.html
    ensures s.html == "" ==> r == RenderHook.FallbackEmptyHtml
  {
    RenderHook.FallbackHtml(s.html)
  }

  /** The component's own drag state and the view mode it guards on. */
  datatype Drag = Drag(viewMode: WorkspaceStore.ViewMode, drag: Option<PointerResize.DragType>)

  /** A drag is only ever active in the view mode that shows its handle. */
  ghost predicate DragMatchesMode(d: Drag) {
    && (d.drag == Some(PointerResize.SplitDrag) ==> d.viewMode == WorkspaceStore.Split)
    && (d.drag == Some(PointerResize.PreviewDrag) ==> d.viewMode == WorkspaceStore.Preview)
  }

  /** `startSplitResize`: only in split mode. */
  function StartSplitResize(d: Drag): (r: Drag)
    ensures d.viewMode == WorkspaceStore.Split ==> r.drag == Some(PointerResize.SplitDrag)
    ensures d.viewMode != WorkspaceStore.Split ==> r == d
    ensures r.viewMode == d.viewMode
  {
    if d.viewMode != WorkspaceStore.Split then d else d.(drag := Some(PointerResize.SplitDrag))
  }

  /** `startPreviewResize`: only in preview mode. */
  function StartPreviewResize(d: Drag): (r: Drag)
    ensures d.viewMode == WorkspaceStore.Preview ==> r.drag == Some(PointerResize.PreviewDrag)
    ensures d.viewMode != WorkspaceStore.Preview ==> r == d
    ensures r.viewMode == d.viewMode
  {
    if d.viewMode != WorkspaceStore.Preview then d else d.(drag := Some(PointerResize.PreviewDrag))
  }

  /** The effect on `viewmode`: a change of view mode drops the drag. */
  function OnViewMode(d: Drag, mode: WorkspaceStore.ViewMode): (r: Drag)
    ensures r.viewMode == mode
    ensures mode != d.viewMode ==> r.drag.None?
    ensures mode == d.viewMode ==> r == d
  {
    if mode == d.viewMode then d else Drag(mode, None)
  }

  /** `clearDrag`, on pointer up and pointer cancel. */
  function ClearDrag(d: Drag): (r: Drag)
    ensures r.drag.None? && r.viewMode == d.viewMode
  {
    d.(drag := None)
  }

  datatype DragEvent = StartSplit | StartPreview | ViewMode(mode: WorkspaceStore.ViewMode) | PointerUp

  function DragStep(d: Drag, e: DragEvent): Drag {
    match e
    case StartSplit => StartSplitResize(d)
    case StartPreview => StartPreviewResize(d)
    case ViewMode(mode) => OnViewMode(d, mode)
    case PointerUp => ClearDrag(d)
  }

  /** Every drag event keeps the drag consistent with the view mode. */
  lemma DragStepKeepsMode(d: Drag, e: DragEvent)
    requires DragMatchesMode(d)
    ensures DragMatchesMode(DragStep(d, e))
  {
  }

  /** `handlePointerMove`: with a drag, a container and a non-zero width,
      the horizontal position is clamped and handed to the store setter for
      the active drag, every time; the height and the mobile layout play no
      part, and there is no threshold. */
  function PointerMove(d: Drag, clientX: real, container: Option<PointerResize.Rect>): (r: Option<PointerResize.Commit>)
    ensures d.drag.None? || container.None? ==> r.None?
    ensures container.Some? && container.value.width == 0.0 ==> r.None?
    ensures d.drag.Some? && container.Some? && container.value.width != 0.0 ==> r.Some?
    ensures r.Some? && r.value.SplitRatio? ==>
              d.drag == Some(PointerResize.SplitDrag) &&
              PointerResize.MinSplit <= r.value.ratio <= PointerResize.MaxSplit
    ensures r.Some? && r.value.PreviewWidthRatio? ==>
              d.drag == Some(PointerResize.PreviewDrag) &&
              PointerResize.MinPreviewWidth <= r.value.ratio <= PointerResize.MaxPreviewWidth
    ensures r.Some? && r.value.SplitRatio? ==>
              var relativeX := (clientX - container.value.left) / container.value.width;
              && (PointerResize.MinSplit <= relativeX <= PointerResize.MaxSplit ==> r.value.ratio == relativeX)
              && (relativeX < PointerResize.MinSplit ==> r.value.ratio == PointerResize.MinSplit)
              && (relativeX > PointerResize.MaxSplit ==> r.value.ratio == PointerResize.MaxSplit)
    ensures r.Some? && r.value.PreviewWidthRatio? ==>
              var relativeX := (clientX - container.value.left) / container.value.width;
              && (PointerResize.MinPreviewWidth <= relativeX <= PointerResize.MaxPreviewWidth ==>
                    r.value.ratio == relativeX)
              && (relativeX < PointerResize.MinPreviewWidth ==> r.value.ratio == PointerResize.MinPreviewWidth)
              && (relativeX > PointerResize.MaxPreviewWidth ==> r.value.ratio == PointerResize.MaxPreviewWidth)
  {
    if d.drag.None? || container.None? then None
    else
      var rect := container.value;
      if rect.width == 0.0 then None
      else
        var relativeX := (clientX - rect.left) / rect.width;
        match d.drag.value
        case SplitDrag =>
          Some(PointerResize.SplitRatio(PointerResize.Clamp(relativeX, PointerResize.MinSplit, PointerResize.MaxSplit)))
        case PreviewDrag =>
          Some(PointerResize.PreviewWidthRatio(
            PointerResize.Clamp(relativeX, PointerResize.MinPreviewWidth, PointerResize.MaxPreviewWidth)))
  }

  /** The component proposes what the hook's frame would propose for the
      same horizontal position on a desktop layout, but commits it on
      every move, with no frame and no threshold. */
  lemma PointerMoveMatchesHookProposal(d: Drag, clientX: real, rect: PointerResize.Rect, relativeY: real)
    requires d.drag.Some? && rect.width != 0.0
    ensures var relativeX := (clientX - rect.left) / rect.width;
            var proposed := PointerResize.Proposed(d.drag.value, PointerResize.Frame(relativeX, relativeY, false));
            var r := PointerMove(d, clientX, Some(rect));
            && r.Some? && r.value.ratio == proposed
            && (r.value.SplitRatio? <==> d.drag.value.SplitDrag?)
  {
  }
}
