/** Pane resizing by pointer drag (`usePointerResize`). A drag is started by
    one of two handles; each pointer move over a non-degenerate container
    replaces the pending animation frame with one that captures the pointer
    position; when the frame fires, the ratio for the active drag is clamped
    to its range and committed if it moved by more than 0.001.

    Ratios are `real`: the floating-point division and comparison of the
    source are taken as exact. */
module PointerResize {
  import opened Base
  import WorkspaceStore

  const MinSplit: real := 0.25
  const MaxSplit: real := 0.75
  const MinPreviewWidth: real := 0.4
  const MaxPreviewWidth: real := 1.0
  const Threshold: real := 0.001

  datatype DragType = SplitDrag | PreviewDrag

  /** `Math.min(Math.max(x, lo), hi)`. */
  function Clamp(x: real, lo: real, hi: real): (r: real)
    requires lo <= hi
    ensures lo <= r <= hi
    ensures lo <= x <= hi ==> r == x
    ensures x < lo ==> r == lo
    ensures x > hi ==> r == hi
  {
    var atLeast := if x > lo then x else lo;
    if atLeast < hi then atLeast else hi
  }

  /** Clamping is idempotent. */
  lemma ClampIdempotent(x: real, lo: real, hi: real)
    requires lo <= hi
    ensures Clamp(Clamp(x, lo, hi), lo, hi) == Clamp(x, lo, hi)
  {
  }

  function Abs(x: real): real {
    if x < 0.0 then -x else x
  }

  /** The container's bounding rectangle. */
  datatype Rect = Rect(left: real, top: real, width: real, height: real)

  /** A requested animation frame, with the pointer position relative to the
      container and the `isMobile` flag it was requested under. */
  datatype Frame = Frame(relativeX: real, relativeY: real, isMobile: bool)

  /** The hook's refs: the active drag, the last committed ratios and the
      outstanding animation frame (at most one, by construction). */
  datatype Resize = Resize(
    drag: Option<DragType>,
    splitRatio: real,
    previewWidthRatio: real,
    frame: Option<Frame>)

  /** A call of `onSplitRatioChange` or `onPreviewWidthRatioChange`. */
  datatype Commit = SplitRatio(ratio: real) | PreviewWidthRatio(ratio: real)

  function StartSplitResize(s: Resize): (r: Resize)
    ensures r.drag == Some(SplitDrag)
    ensures r.splitRatio == s.splitRatio && r.previewWidthRatio == s.previewWidthRatio && r.frame == s.frame
  {
    s.(drag := Some(SplitDrag))
  }

  function StartPreviewResize(s: Resize): (r: Resize)
    ensures r.drag == Some(PreviewDrag)
    ensures r.splitRatio == s.splitRatio && r.previewWidthRatio == s.previewWidthRatio && r.frame == s.frame
  {
    s.(drag := Some(PreviewDrag))
  }

  /** `cancelActiveResize`, also run on pointer up and pointer cancel. */
  function CancelActiveResize(s: Resize): (r: Resize)
    ensures r.drag.None? && r.frame.None?
    ensures r.splitRatio == s.splitRatio && r.previewWidthRatio == s.previewWidthRatio
  {
    s.(drag := None, frame := None)
  }

  /** `cancelPendingFrame`, also the clean-up of the listener effect when
      the component unmounts or `isMobile` or a callback changes: the
      outstanding frame is dropped and the drag stays. */
  function CancelPendingFrame(s: Resize): (r: Resize)
    ensures r.frame.None? && r.drag == s.drag
    ensures r.splitRatio == s.splitRatio && r.previewWidthRatio == s.previewWidthRatio
  {
    s.(frame := None)
  }

  /** The props were re-rendered: the ratio refs follow them. */
  function SyncRatios(s: Resize, splitRatio: real, previewWidthRatio: real): (r: Resize)
    ensures r.splitRatio == splitRatio && r.previewWidthRatio == previewWidthRatio
    ensures r.drag == s.drag && r.frame == s.frame
  {
    s.(splitRatio := splitRatio, previewWidthRatio := previewWidthRatio)
  }

  /** `handlePointerMove`. Without an active drag, without a container, or
      with a zero-width or zero-height container nothing happens; otherwise
      the pending frame is cancelled and replaced by one for this position. */
  function PointerMove(s: Resize, clientX: real, clientY: real, container: Option<Rect>, isMobile: bool): (r: Resize)
    ensures s.drag.None? || container.None? ==> r == s
    ensures container.Some? && (container.value.width == 0.0 || container.value.height == 0.0) ==> r == s
    ensures s.drag.Some? && container.Some? && container.value.width != 0.0 && container.value.height != 0.0 ==>
              && r.drag == s.drag && r.splitRatio == s.splitRatio && r.previewWidthRatio == s.previewWidthRatio
              && r.frame == Some(Frame((clientX - container.value.left) / container.value.width,
                                       (clientY - container.value.top) / container.value.height,
                                       isMobile))
  {
    if s.drag.None? || container.None? then s
    else
      var rect := container.value;
      if rect.width == 0.0 || rect.height == 0.0 then s
      else
        var relativeX := (clientX - rect.left) / rect.width;
        var relativeY := (clientY - rect.top) / rect.height;
        s.(frame := Some(Frame(relativeX, relativeY, isMobile)))
  }

  /** The ratio a frame proposes for a drag, before the threshold test: the
      split drag follows the vertical position on mobile and the horizontal
      one otherwise; the preview drag always follows the horizontal one. */
  function Proposed(drag: DragType, f: Frame): (r: real)
    ensures drag.SplitDrag? ==> MinSplit <= r <= MaxSplit
    ensures drag.PreviewDrag? ==> MinPreviewWidth <= r <= MaxPreviewWidth
    ensures drag.SplitDrag? ==>
              var p := if f.isMobile then f.relativeY else f.relativeX;
              && (MinSplit <= p <= MaxSplit ==> r == p)
              && (p < MinSplit ==> r == MinSplit)
              && (p > MaxSplit ==> r == MaxSplit)
    ensures drag.PreviewDrag? ==>
              && (MinPreviewWidth <= f.relativeX <= MaxPreviewWidth ==> r == f.relativeX)
              && (f.relativeX < MinPreviewWidth ==> r == MinPreviewWidth)
              && (f.relativeX > MaxPreviewWidth ==> r == MaxPreviewWidth)
  {
    match drag
    case SplitDrag => Clamp(if f.isMobile then f.relativeY else f.relativeX, MinSplit, MaxSplit)
    case PreviewDrag => Clamp(f.relativeX, MinPreviewWidth, MaxPreviewWidth)
  }

  /** The animation frame fires: the drag read at that moment decides which
      ratio moves; it is committed only when it differs from the last
      committed one by more than the threshold. */
  function FrameFires(s: Resize): (r: (Resize, Option<Commit>))
    ensures r.0.frame.None? && r.0.drag == s.drag
    ensures s.frame.None? || s.drag.None? ==> r.1.None?
    ensures r.1.Some? && r.1.value.SplitRatio? ==>
              && MinSplit <= r.1.value.ratio <= MaxSplit
              && r.0.splitRatio == r.1.value.ratio && r.0.previewWidthRatio == s.previewWidthRatio
    ensures r.1.Some? && r.1.value.PreviewWidthRatio? ==>
              && MinPreviewWidth <= r.1.value.ratio <= MaxPreviewWidth
              && r.0.previewWidthRatio == r.1.value.ratio && r.0.splitRatio == s.splitRatio
    ensures r.1.None? ==> r.0.splitRatio == s.splitRatio && r.0.previewWidthRatio == s.previewWidthRatio
  {
    var s1 := s.(frame := None);
    if s.frame.None? || s.drag.None? then (s1, None)
    else
      var ratio := Proposed(s.drag.value, s.frame.value);
      match s.drag.value
      case SplitDrag =>
        if Abs(ratio - s.splitRatio) > Threshold then (s1.(splitRatio := ratio), Some(SplitRatio(ratio)))
        else (s1, None)
      case PreviewDrag =>
        if Abs(ratio - s.previewWidthRatio) > Threshold
        then (s1.(previewWidthRatio := ratio), Some(PreviewWidthRatio(ratio)))
        else (s1, None)
  }

  /** A firing frame commits exactly when the clamped ratio for the active
      drag moved by more than the threshold, and what it commits is that
      clamped ratio. */
  lemma CommitIff(s: Resize)
    requires s.frame.Some? && s.drag.Some?
    ensures var ratio := Proposed(s.drag.value, s.frame.value);
            var current := if s.drag.value.SplitDrag? then s.splitRatio else s.previewWidthRatio;
            var (_, commit) := FrameFires(s);
            && (commit.Some? <==> Abs(ratio - current) > Threshold)
            && (commit.Some? ==> commit.value.ratio == ratio
                                 && (commit.value.SplitRatio? <==> s.drag.value.SplitDrag?))
  {
  }

  /** A later move supersedes an earlier one: only the latest position is
      outstanding, so two moves in a row act like the second alone. */
  lemma LatestMoveWins(s: Resize, x1: real, y1: real, x2: real, y2: real, rect: Rect, isMobile: bool)
    requires s.drag.Some? && rect.width != 0.0 && rect.height != 0.0
    ensures PointerMove(PointerMove(s, x1, y1, Some(rect), isMobile), x2, y2, Some(rect), isMobile)
            == PointerMove(s, x2, y2, Some(rect), isMobile)
  {
  }

  /** Pointer up ends the drag for good: no later move, and no frame that
      was pending, commits anything until a new drag starts. */
  lemma ReleasedDragCommitsNothing(s: Resize, x: real, y: real, container: Option<Rect>, isMobile: bool)
    ensures var released := CancelActiveResize(s);
            && FrameFires(released).1.None?
            && FrameFires(PointerMove(released, x, y, container, isMobile)).1.None?
  {
  }

  /** The store's initial ratios already lie inside the ranges a drag
      clamps to, so a first frame proposing them commits nothing. */
  lemma InitialRatiosInRange(f: Frame)
    ensures MinSplit <= WorkspaceStore.Initial.splitRatio <= MaxSplit
    ensures MinPreviewWidth <= WorkspaceStore.Initial.previewWidthRatio <= MaxPreviewWidth
    ensures var s := Resize(Some(SplitDrag), WorkspaceStore.Initial.splitRatio,
                            WorkspaceStore.Initial.previewWidthRatio,
                            Some(f.(relativeX := WorkspaceStore.Initial.splitRatio, isMobile := false)));
            FrameFires(s).1.None?
  {
  }
}
