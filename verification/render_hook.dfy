/** The rendering hook (`useMarkdownRenderer`): it holds `{html, isRendering}`
    and reacts to a changed input, to a render settling (with HTML or with an
    error) and to effect clean-up. Each effect run is numbered; a clean-up
    marks its run `cancelled`, which here means that its number is no longer
    the current one. The markdown-to-HTML pipeline is a parameter, as is the
    single lazily created renderer. */
module RenderHook {
  import opened Base
  import opened Text

  const FallbackErrorHtml: string := "<p class=\"text-destructive\">Error parsing markdown.</p>"
  const FallbackEmptyHtml: string := "<p class=\"text-muted-foreground\">Start typing to see a formatted preview.</p>"

  /** The whole pipeline on one trimmed input: parse, highlight, substitute
      diagrams, serialise. It either yields HTML or throws. */
  type Pipeline = string -> Try<string>

  datatype RenderState = RenderState(html: string, isRendering: bool)

  /** The hook's state: what it exposes, the input of the latest effect run,
      the number of that run, the runs whose render has not settled yet
      (each with the trimmed text it renders), and whether the component is
      still mounted. */
  datatype Hook = Hook(
    view: RenderState,
    input: string,
    epoch: nat,
    inFlight: map<nat, string>,
    mounted: bool)

  const Initial: Hook := Hook(RenderState("", false), "", 0, map[], true)

  /** The HTML a settled render commits. */
  function Committed(outcome: Try<string>): (r: string)
    ensures outcome.Ok? ==> r == outcome.value
    ensures outcome.Thrown? ==> r == FallbackErrorHtml
  {
    match outcome
    case Ok(html) => html
    case Thrown => FallbackErrorHtml
  }

  /** The HTML that reflects `input` once its render has committed. */
  function Expected(pipeline: Pipeline, input: string): string {
    var trimmed := Trim(input);
    if trimmed == "" then "" else Committed(pipeline(trimmed))
  }

  /** The effect for a new input: the previous run is cleaned up (cancelled)
      and a new run starts. A blank input commits the empty result at once
      and renders nothing; any other input marks the state as rendering,
      keeps the old HTML on screen and starts rendering the trimmed text. */
  function OnInput(h: Hook, markdown: string): (r: Hook)
    requires h.mounted
    ensures r.epoch == h.epoch + 1 && r.input == markdown && r.mounted
    ensures Trim(markdown) == "" ==> r.view == RenderState("", false) && r.inFlight == h.inFlight
    ensures Trim(markdown) != "" ==>
              && r.view == RenderState(h.view.html, true)
              && r.inFlight.Keys == h.inFlight.Keys + {r.epoch}
              && r.inFlight[r.epoch] == Trim(markdown)
              && (forall run :: run in h.inFlight && run != r.epoch ==> r.inFlight[run] == h.inFlight[run])
  {
    var epoch := h.epoch + 1;
    var trimmed := Trim(markdown);
    if trimmed == "" then
      h.(view := RenderState("", false), input := markdown, epoch := epoch)
    else
      h.(view := h.view.(isRendering := true), input := markdown, epoch := epoch,
         inFlight := h.inFlight[epoch := trimmed])
  }

  /** The render of `run` settles. Only a run that was not cancelled commits:
      its HTML, or the error fallback, with `isRendering` false. */
  function OnSettled(h: Hook, pipeline: Pipeline, run: nat): (r: Hook)
    ensures r.epoch == h.epoch && r.input == h.input && r.mounted == h.mounted
    ensures r.inFlight == h.inFlight - {run}
    ensures !(run in h.inFlight && h.mounted && run == h.epoch) ==> r.view == h.view
    ensures run in h.inFlight && h.mounted && run == h.epoch ==>
              r.view == RenderState(Committed(pipeline(h.inFlight[run])), false)
  {
    if run !in h.inFlight then h
    else
      var rest := h.inFlight - {run};
      if h.mounted && run == h.epoch then
        h.(view := RenderState(Committed(pipeline(h.inFlight[run])), false), inFlight := rest)
      else
        h.(inFlight := rest)
  }

  /** Clean-up on unmount: the current run is cancelled too. */
  function OnUnmount(h: Hook): (r: Hook)
    ensures r.view == h.view && !r.mounted
  {
    h.(mounted := false)
  }

  datatype Event = Input(markdown: string) | Settled(run: nat) | Unmount

  function Step(h: Hook, pipeline: Pipeline, e: Event): Hook {
    match e
    case Input(markdown) => if h.mounted then OnInput(h, markdown) else h
    case Settled(run) => OnSettled(h, pipeline, run)
    case Unmount => OnUnmount(h)
  }

  function Run(h: Hook, pipeline: Pipeline, events: seq<Event>): Hook
    decreases |events|
  {
    if events == [] then h
    else Run(Step(h, pipeline, events[0]), pipeline, events[1..])
  }

  /** While mounted: `isRendering` holds exactly when the current run's
      render is in flight, that render is of the current trimmed input, and
      when nothing is rendering the HTML on screen is the one for the current
      input. No run newer than the current one exists. */
  ghost predicate Consistent(pipeline: Pipeline, h: Hook) {
    && (forall run :: run in h.inFlight ==> run <= h.epoch)
    && (h.mounted ==> (h.view.isRendering <==> h.epoch in h.inFlight))
    && (h.mounted && h.epoch in h.inFlight ==> h.inFlight[h.epoch] == Trim(h.input) != "")
    && (h.mounted && !h.view.isRendering ==> h.view.html == Expected(pipeline, h.input))
  }

  lemma InitialConsistent(pipeline: Pipeline)
    ensures Consistent(pipeline, Initial)
  {
    TrimEmptyIff("");
  }

  lemma InputConsistent(pipeline: Pipeline, h: Hook, markdown: string)
    requires Consistent(pipeline, h) && h.mounted
    ensures Consistent(pipeline, OnInput(h, markdown))
  {
    var r := OnInput(h, markdown);
    assert h.epoch + 1 !in h.inFlight;
    if Trim(markdown) == "" {
      assert r.epoch !in r.inFlight;
      assert r.view.html == Expected(pipeline, r.input);
    } else {
      assert r.view.isRendering && r.epoch in r.inFlight;
      assert r.inFlight[r.epoch] == Trim(r.input);
    }
  }

  lemma SettledConsistent(pipeline: Pipeline, h: Hook, run: nat)
    requires Consistent(pipeline, h)
    ensures Consistent(pipeline, OnSettled(h, pipeline, run))
  {
    var r := OnSettled(h, pipeline, run);
    if run in h.inFlight && h.mounted && run == h.epoch {
      assert r.view.html == Committed(pipeline(Trim(h.input)));
      assert r.view.html == Expected(pipeline, r.input);
    }
  }

  /** Every event keeps the hook consistent. */
  lemma StepConsistent(pipeline: Pipeline, h: Hook, e: Event)
    requires Consistent(pipeline, h)
    ensures Consistent(pipeline, Step(h, pipeline, e))
  {
    match e
    case Input(markdown) =>
      if h.mounted {
        InputConsistent(pipeline, h, markdown);
      }
    case Settled(run) =>
      SettledConsistent(pipeline, h, run);
    case Unmount =>
  }

  /** Last input wins: along any sequence of input changes, completions,
      errors and clean-ups, whenever the mounted hook is not rendering, the
      HTML it shows is the result for the latest input, never for an older
      one, however the renders interleave. */
  lemma {:induction false} LastInputWins(pipeline: Pipeline, h: Hook, events: seq<Event>)
    requires Consistent(pipeline, h)
    ensures var r := Run(h, pipeline, events);
            Consistent(pipeline, r) &&
            (r.mounted && !r.view.isRendering ==> r.view.html == Expected(pipeline, r.input))
    decreases |events|
  {
    if events != [] {
      StepConsistent(pipeline, h, events[0]);
      LastInputWins(pipeline, Step(h, pipeline, events[0]), events[1..]);
    }
  }

  /** A render that was overtaken by newer input commits nothing: with
      input `x` rendering, a newer input `y` arrives, and `x`'s render then
      settles (with HTML or with an error); the state is the one `y` left. */
  lemma StaleRenderDropped(pipeline: Pipeline, h: Hook, x: string, y: string)
    requires h.mounted && Trim(x) != ""
    ensures var h1 := OnInput(h, x);
            var h2 := OnInput(h1, y);
            OnSettled(h2, pipeline, h1.epoch).view == h2.view
  {
  }

  /** `fallbackHtml`: the HTML when there is some, the placeholder paragraph
      otherwise; the preview is never blank. */
  function FallbackHtml(html: string): (r: string)
    ensures r != ""
    ensures html != "" ==> r == html
    ensures html == "" ==> r == FallbackEmptyHtml
  {
    if html != "" then html else FallbackEmptyHtml
  }

  /** The module-level `rendererPromise`: unset until the first request, then
      holding the outcome of the one creation (which may have failed). */
  datatype RendererSlot = Unset | Created(ready: bool)

  /** `getMarkdownRenderer`: creates the renderer on the first request only;
      `creationSucceeds` is what that creation would yield. */
  function GetRenderer(slot: RendererSlot, creationSucceeds: bool): (r: (RendererSlot, bool))
    ensures r.0.Created?
    ensures r.1 <==> slot.Unset?
    ensures slot.Created? ==> r.0 == slot
    ensures slot.Unset? ==> r.0 == Created(creationSucceeds)
  {
    match slot
    case Unset => (Created(creationSucceeds), true)
    case Created(_) => (slot, false)
  }

  /** Serves a sequence of renderer requests and counts the creations. */
  function GetRenderers(slot: RendererSlot, outcomes: seq<bool>): (RendererSlot, nat)
    decreases |outcomes|
  {
    if outcomes == [] then (slot, 0)
    else
      var (next, created) := GetRenderer(slot, outcomes[0]);
      var (last, count) := GetRenderers(next, outcomes[1..]);
      (last, count + if created then 1 else 0)
  }

  /** The renderer is created at most once: any number of requests from an
      unset slot create it exactly once, and every later request sees the
      outcome of that first creation, failure included. */
  lemma {:induction false} RendererCreatedOnce(outcomes: seq<bool>)
    requires outcomes != []
    ensures GetRenderers(Unset, outcomes) == (Created(outcomes[0]), 1)
  {
    CreatedSlotStays(Created(outcomes[0]), outcomes[1..]);
  }

  lemma {:induction false} CreatedSlotStays(slot: RendererSlot, outcomes: seq<bool>)
    requires slot.Created?
    ensures GetRenderers(slot, outcomes) == (slot, 0)
    decreases |outcomes|
  {
    if outcomes != [] {
      CreatedSlotStays(slot, outcomes[1..]);
    }
  }
}
