/**
 The event loop of `run_viewer` as an object: its local variables become the
 fields of a `Viewer`, each branch of the loop a method that updates them, and
 the loop itself a method that handles a sequence of events. Every method is
 proved to perform exactly the transition `Navigation` defines.
 */
module ViewerLoop {
  import opened Options
  import opened Catalog
  import opened Session
  import opened Navigation

  class Viewer {
    const config: Config
    var index: int
    var currentSurface: Option<Surface>
    var nextSurface: Option<Surface>
    var nextIndex: Option<int>
    var needsRedraw: bool

    /** The fields as one value. */
    function State(): ViewState
      reads this
    {
      ViewState(index, currentSurface, nextSurface, nextIndex, needsRedraw)
    }

    /** The index designates one of the images, as every method needs. */
    predicate Valid()
      reads this
    {
      InRange(config, State())
    }

    /** Entering `run_viewer`: nothing on screen, an empty slot, a redraw pending. */
    constructor(c: Config, start: int)
      requires 0 <= start < |c.images|
      ensures Valid() && config == c && State() == Initial(start)
      ensures Coherent(config, State())
    {
      config := c;
      index := start;
      currentSurface := None;
      nextSurface := None;
      nextIndex := None;
      needsRedraw := true;
    }

    /** The drawing step at the top of the loop. */
    method Redraw() returns (shown: Option<Surface>, preload: Option<nat>)
      requires Valid()
      modifies this
      ensures Valid()
      ensures Drawn(State(), shown, preload) == Navigation.Redraw(config, old(State()))
      ensures old(Coherent(config, State())) ==> Coherent(config, State())
    {
      shown, preload := None, None;
      if needsRedraw {
        if currentSurface.None? {
          currentSurface := Some(LoadSurface(config.images[index]));
        }
        shown := currentSurface;
        var target := index + 1;
        if target < |config.images| {
          preload := Some(target);
        }
        needsRedraw := false;
      }
    }

    /** The Right key; `saved` is the record passed to `save_state`, if any. */
    method Right() returns (saved: Option<SessionRecord>)
      requires Valid()
      modifies this
      ensures Valid()
      ensures Moved(State(), saved) == Navigation.Right(config, old(State()))
      ensures old(Coherent(config, State())) ==> Coherent(config, State())
    {
      saved := None;
      if index < |config.images| - 1 {
        index := index + 1;
        if nextSurface.Some? && nextIndex == Some(index) {
          currentSurface := nextSurface;
        } else {
          currentSurface := Some(LoadSurface(config.images[index]));
        }
        nextSurface := None;
        nextIndex := None;
        needsRedraw := true;
        saved := Some(SavedRecord(config, index));
      }
    }

    /** The Left key; `saved` is the record passed to `save_state`, if any. */
    method Left() returns (saved: Option<SessionRecord>)
      requires Valid()
      modifies this
      ensures Valid()
      ensures Moved(State(), saved) == Navigation.Left(config, old(State()))
      ensures old(Coherent(config, State())) ==> Coherent(config, State())
    {
      saved := None;
      if index > 0 {
        index := index - 1;
        currentSurface := Some(LoadSurface(config.images[index]));
        nextSurface := None;
        nextIndex := None;
        needsRedraw := true;
        saved := Some(SavedRecord(config, index));
      }
    }

    /** The Return key: the source and destination of the copy; no field changes. */
    method Pick() returns (src: Path, dst: Path)
      requires Valid()
      ensures src == Navigation.Pick(config, State())
      ensures dst == CopyDestination(src, config.outputDir)
    {
      src := config.images[index];
      dst := CopyDestination(src, config.outputDir);
    }

    /** The effect of a `preload_next(target)` thread, applied as one step. */
    method PreloadNext(target: nat, ok: bool)
      modifies this
      ensures State() == Complete(config, old(State()), target, ok)
      ensures old(Coherent(config, State())) ==> Coherent(config, State())
    {
      if target >= |config.images| {
        return;
      }
      if ok {
        nextSurface := Some(LoadSurface(config.images[target]));
        nextIndex := Some(target);
      } else {
        nextSurface := None;
        nextIndex := None;
      }
    }

    /** One event, dispatched as the loop body does. */
    method Handle(e: Event) returns (saved: Option<SessionRecord>)
      requires Valid()
      modifies this
      ensures Valid()
      ensures Moved(State(), saved) == Transition(config, old(State()), e)
    {
      saved := None;
      match e {
        case KeyRight =>
          saved := Right();
        case KeyLeft =>
          saved := Left();
        case KeyReturn =>
          var src, dst := Pick();
        case Frame =>
          var shown, preload := Redraw();
        case PreloadDone(target, ok) =>
          PreloadNext(target, ok);
      }
    }

    /**
     The loop over a sequence of events; `record` is what the session file
     holds at the end, starting from `prior`.
     */
    method Process(events: seq<Event>, prior: SessionRecord) returns (record: SessionRecord)
      requires Valid()
      modifies this
      ensures Valid()
      ensures State() == Run(config, old(State()), events)
      ensures record == Persisted(config, old(State()), events, prior)
    {
      record := prior;
      for i := 0 to |events|
        invariant Valid()
        invariant State() == Run(config, old(State()), events[..i])
        invariant record == Persisted(config, old(State()), events[..i], prior)
      {
        assert events[..i + 1][..i] == events[..i];
        var saved := Handle(events[i]);
        if saved.Some? {
          record := saved.value;
        }
      }
      assert events[..|events|] == events;
    }
  }
}
