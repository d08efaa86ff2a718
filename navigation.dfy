/**
 The navigation and preload state machine of `run_viewer`, as functions on
 the viewer's state. The state is the index being viewed, the surface on
 screen, the one-slot prefetch cache (`next_surface`, `next_index`) and the
 redraw flag. Events are the Right, Left and Return keys, a frame of the main
 loop and the completion of a background preload; a completion is one atomic
 event that may arrive between any two others, for any target.
 */
module Navigation {
  import opened Options
  import opened Catalog
  import opened Session

  /** A decoded, screen-fitted image, known only by the file it came from. */
  datatype Surface = Decoded(source: Path)

  /** `load_surface`, taken as succeeding: decoding depends only on the file. */
  function LoadSurface(p: Path): Surface
  {
    Decoded(p)
  }

  /** The arguments of `run_viewer` that stay fixed while it runs. */
  datatype Config = Config(imagesRoot: Path, images: seq<Path>, outputDir: Path)

  /** The variables `run_viewer` updates. */
  datatype ViewState = ViewState(
    index: int,
    current: Option<Surface>,
    nextSurface: Option<Surface>,
    nextIndex: Option<int>,
    needsRedraw: bool)

  /** The state before the first frame. */
  function Initial(start: int): ViewState
  {
    ViewState(start, None, None, None, true)
  }

  /** The index designates one of the images. */
  predicate InRange(c: Config, s: ViewState)
  {
    0 <= s.index < |c.images|
  }

  /**
   Every surface the state holds belongs to the image it is held for: the one
   on screen to `images[index]`, the preloaded one to `images[next_index]`;
   the two cache fields are set together; and nothing is on screen only
   while a redraw is pending.
   */
  predicate Coherent(c: Config, s: ViewState)
  {
    && InRange(c, s)
    && (s.current.Some? ==> s.current.value == LoadSurface(c.images[s.index]))
    && (s.current.None? ==> s.needsRedraw)
    && (s.nextSurface.Some? <==> s.nextIndex.Some?)
    && (s.nextIndex.Some? ==>
          && 0 <= s.nextIndex.value < |c.images|
          && s.nextSurface == Some(LoadSurface(c.images[s.nextIndex.value])))
  }

  /** The record `save_state` writes after a move to `index`. */
  function SavedRecord(c: Config, index: int): (r: SessionRecord)
    ensures r.imagesRoot == c.imagesRoot && r.outputDir == c.outputDir
    ensures r.currentIndex == index && r.totalImages == |c.images|
    ensures WellFormed(r) <==> 0 <= index < |c.images|
  {
    SessionRecord(c.imagesRoot, c.outputDir, index, |c.images|)
  }

  /** A state after an event, with the record saved by it, if any. */
  datatype Moved = Moved(state: ViewState, saved: Option<SessionRecord>)

  /**
   The Right key. Before the last image it advances by one, shows the
   preloaded surface when the slot holds one for the new index and loads the
   image otherwise, empties the slot, asks for a redraw and saves the record.
   On the last image it changes nothing and saves nothing.
   */
  function Right(c: Config, s: ViewState): (r: Moved)
    requires InRange(c, s)
    ensures InRange(c, r.state)
    ensures s.index < |c.images| - 1 ==>
      && r.state.index == s.index + 1
      && r.state.nextSurface.None? && r.state.nextIndex.None?
      && r.state.needsRedraw
      && r.saved == Some(SavedRecord(c, r.state.index))
      && WellFormed(r.saved.value)
    ensures s.index == |c.images| - 1 ==> r == Moved(s, None)
    ensures s.index < |c.images| - 1 && s.nextSurface.Some? && s.nextIndex == Some(s.index + 1) ==>
      r.state.current == s.nextSurface
    ensures s.index < |c.images| - 1 && !(s.nextSurface.Some? && s.nextIndex == Some(s.index + 1)) ==>
      r.state.current == Some(LoadSurface(c.images[s.index + 1]))
    ensures Coherent(c, s) ==> Coherent(c, r.state)
  {
    if s.index < |c.images| - 1 then
      var i := s.index + 1;
      var shown :=
        if s.nextSurface.Some? && s.nextIndex == Some(i) then s.nextSurface.value
        else LoadSurface(c.images[i]);
      Moved(ViewState(i, Some(shown), None, None, true), Some(SavedRecord(c, i)))
    else
      Moved(s, None)
  }

  /**
   The Left key. After the first image it steps back by one, always loads the
   image, empties the slot, asks for a redraw and saves the record. On the
   first image it changes nothing and saves nothing.
   */
  function Left(c: Config, s: ViewState): (r: Moved)
    requires InRange(c, s)
    ensures InRange(c, r.state)
    ensures s.index > 0 ==>
      && r.state.index == s.index - 1
      && r.state.current == Some(LoadSurface(c.images[r.state.index]))
      && r.state.nextSurface.None? && r.state.nextIndex.None?
      && r.state.needsRedraw
      && r.saved == Some(SavedRecord(c, r.state.index))
      && WellFormed(r.saved.value)
    ensures s.index == 0 ==> r == Moved(s, None)
    ensures Coherent(c, s) ==> Coherent(c, r.state)
  {
    if s.index > 0 then
      var i := s.index - 1;
      Moved(ViewState(i, Some(LoadSurface(c.images[i])), None, None, true), Some(SavedRecord(c, i)))
    else
      Moved(s, None)
  }

  /** The image the Return key copies to the output directory: the one being viewed. */
  function Pick(c: Config, s: ViewState): (src: Path)
    requires InRange(c, s)
    ensures src == c.images[s.index] && src in c.images
  {
    c.images[s.index]
  }

  /**
   Where the copy of `src` lands: directly in the output directory, under the
   file name of `src`. With `PathSplits`, these two facts determine `dst`.
   */
  function CopyDestination(src: Path, outputDir: Path): (dst: Path)
    ensures Name(dst) == Name(src)
    ensures DirectoryPart(dst) == outputDir + "/"
    ensures dst[..|dst| - |Name(dst)|] == outputDir + "/"
  {
    NameShape(src);
    NameAfterDirectory(outputDir + "/", Name(src));
    assert outputDir + "/" + Name(src) == (outputDir + "/") + Name(src);
    outputDir + "/" + Name(src)
  }

  /**
   The completion of `preload_next(target)`. A target past the last image
   leaves the state as it was; a successful load fills the slot with the
   target's surface and the target; a failed one empties the slot. The index,
   the surface on screen and the redraw flag never change.
   */
  function Complete(c: Config, s: ViewState, target: nat, ok: bool): (r: ViewState)
    ensures r.index == s.index && r.current == s.current && r.needsRedraw == s.needsRedraw
    ensures target >= |c.images| ==> r == s
    ensures target < |c.images| && ok ==>
      r.nextSurface == Some(LoadSurface(c.images[target])) && r.nextIndex == Some(target)
    ensures target < |c.images| && !ok ==> r.nextSurface.None? && r.nextIndex.None?
    ensures Coherent(c, s) ==> Coherent(c, r)
  {
    if target >= |c.images| then s
    else if ok then s.(nextSurface := Some(LoadSurface(c.images[target])), nextIndex := Some(target))
    else s.(nextSurface := None, nextIndex := None)
  }

  /** A frame's redraw: the new state, the surface blitted, the preload started. */
  datatype Drawn = Drawn(state: ViewState, shown: Option<Surface>, preload: Option<nat>)

  /**
   One pass of the main loop's drawing step. With no redraw pending it does
   nothing. Otherwise it loads the current image if nothing is on screen yet,
   shows it, starts a preload of the following image when there is one, and
   clears the flag; the index and the slot are left alone.
   */
  function Redraw(c: Config, s: ViewState): (r: Drawn)
    requires InRange(c, s)
    ensures !s.needsRedraw ==> r == Drawn(s, None, None)
    ensures s.needsRedraw ==>
      && r.shown.Some? && r.state.current == r.shown && !r.state.needsRedraw
      && (s.current.Some? ==> r.shown == s.current)
      && (s.current.None? ==> r.shown == Some(LoadSurface(c.images[s.index])))
      && (r.preload.Some? <==> s.index + 1 < |c.images|)
      && (r.preload.Some? ==> r.preload.value == s.index + 1)
    ensures r.state.index == s.index && r.state.nextSurface == s.nextSurface && r.state.nextIndex == s.nextIndex
    ensures Coherent(c, s) && s.needsRedraw ==> r.shown == Some(LoadSurface(c.images[s.index]))
    ensures Coherent(c, s) ==> Coherent(c, r.state)
  {
    if !s.needsRedraw then Drawn(s, None, None)
    else
      var shown := if s.current.None? then LoadSurface(c.images[s.index]) else s.current.value;
      var target := s.index + 1;
      Drawn(s.(current := Some(shown), needsRedraw := false),
            Some(shown),
            if target < |c.images| then Some(target) else None)
  }

  /** What can happen between two looks at the state. */
  datatype Event = KeyRight | KeyLeft | KeyReturn | Frame | PreloadDone(target: nat, ok: bool)

  /**
   One event. Only moves change the index, and a move that changes it saves
   the record of the new index; Return changes nothing.
   */
  function Transition(c: Config, s: ViewState, e: Event): (r: Moved)
    requires InRange(c, s)
    ensures InRange(c, r.state)
    ensures Coherent(c, s) ==> Coherent(c, r.state)
    ensures r.saved.Some? ==> r.saved == Some(SavedRecord(c, r.state.index))
    ensures r.saved.None? ==> r.state.index == s.index
    ensures e == KeyReturn ==> r == Moved(s, None)
  {
    match e
    case KeyRight => Right(c, s)
    case KeyLeft => Left(c, s)
    case KeyReturn => Moved(s, None)
    case Frame => Moved(Redraw(c, s).state, None)
    case PreloadDone(target, ok) => Moved(Complete(c, s, target, ok), None)
  }

  /** The state after a sequence of events. */
  function Run(c: Config, s: ViewState, events: seq<Event>): (r: ViewState)
    requires InRange(c, s)
    ensures InRange(c, r)
    ensures Coherent(c, s) ==> Coherent(c, r)
    decreases |events|
  {
    if events == [] then s
    else Transition(c, Run(c, s, events[..|events| - 1]), events[|events| - 1]).state
  }

  /** The record in the session file after a sequence of events, starting from `prior`. */
  function Persisted(c: Config, s: ViewState, events: seq<Event>, prior: SessionRecord): SessionRecord
    requires InRange(c, s)
    decreases |events|
  {
    if events == [] then prior
    else
      var m := Transition(c, Run(c, s, events[..|events| - 1]), events[|events| - 1]);
      if m.saved.Some? then m.saved.value else Persisted(c, s, events[..|events| - 1], prior)
  }

  /**
   Whatever the events, the session file names the image being viewed, once
   it did so at the start (as the record saved by a new operation does).
   */
  lemma {:induction false} SessionFileTracksIndex(c: Config, s: ViewState, events: seq<Event>, prior: SessionRecord)
    requires InRange(c, s) && prior == SavedRecord(c, s.index)
    ensures Persisted(c, s, events, prior) == SavedRecord(c, Run(c, s, events).index)
    ensures WellFormed(Persisted(c, s, events, prior))
    decreases |events|
  {
    if events != [] {
      SessionFileTracksIndex(c, s, events[..|events| - 1], prior);
    }
  }

  /** A viewer started on one of the images holds only surfaces of the right images. */
  lemma InitialIsCoherent(c: Config, start: int)
    requires 0 <= start < |c.images|
    ensures Coherent(c, Initial(start))
  {
  }

  /**
   However key presses, frames and preload completions for any targets
   (stale ones included) interleave, every frame shows `images[index]`.
   */
  lemma ViewerShowsCurrentImage(c: Config, start: int, events: seq<Event>)
    requires 0 <= start < |c.images|
    ensures var s := Run(c, Initial(start), events);
      Coherent(c, s) &&
      (s.needsRedraw ==> Redraw(c, s).shown == Some(LoadSurface(c.images[s.index])))
  {
    InitialIsCoherent(c, start);
  }

  /** `n` copies of one event. */
  function Repeat(e: Event, n: nat): (r: seq<Event>)
    ensures |r| == n && forall i :: 0 <= i < n ==> r[i] == e
  {
    if n == 0 then [] else Repeat(e, n - 1) + [e]
  }

  /** Pressing Right `n` times advances by `n`, but never past the last image. */
  lemma {:induction false} RepeatedRightStopsAtLast(c: Config, s: ViewState, n: nat)
    requires InRange(c, s)
    ensures Run(c, s, Repeat(KeyRight, n)).index ==
      if s.index + n < |c.images| - 1 then s.index + n else |c.images| - 1
  {
    if n > 0 {
      assert Repeat(KeyRight, n)[..n - 1] == Repeat(KeyRight, n - 1);
      var before := Run(c, s, Repeat(KeyRight, n - 1));
      assert Run(c, s, Repeat(KeyRight, n)) == Right(c, before).state;
      RepeatedRightStopsAtLast(c, s, n - 1);
    }
  }

  /** Pressing Left `n` times steps back by `n`, but never before the first image. */
  lemma {:induction false} RepeatedLeftStopsAtFirst(c: Config, s: ViewState, n: nat)
    requires InRange(c, s)
    ensures Run(c, s, Repeat(KeyLeft, n)).index == if s.index - n > 0 then s.index - n else 0
  {
    if n > 0 {
      assert Repeat(KeyLeft, n)[..n - 1] == Repeat(KeyLeft, n - 1);
      var before := Run(c, s, Repeat(KeyLeft, n - 1));
      assert Run(c, s, Repeat(KeyLeft, n)) == Left(c, before).state;
      RepeatedLeftStopsAtFirst(c, s, n - 1);
    }
  }

  /** Right then Left from before the last image returns to the same index. */
  lemma RightThenLeft(c: Config, s: ViewState)
    requires InRange(c, s) && s.index < |c.images| - 1
    ensures Left(c, Right(c, s).state).state.index == s.index
  {
  }

  /** Preload completions alone never move the viewer nor change what it shows. */
  lemma {:induction false} CompletionsKeepView(c: Config, s: ViewState, events: seq<Event>)
    requires InRange(c, s)
    requires forall i :: 0 <= i < |events| ==> events[i].PreloadDone?
    ensures var r := Run(c, s, events);
      r.index == s.index && r.current == s.current && r.needsRedraw == s.needsRedraw
    decreases |events|
  {
    if events != [] {
      CompletionsKeepView(c, s, events[..|events| - 1]);
    }
  }
}
