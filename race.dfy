/**
 `preload_next` fills the prefetch slot with two separate assignments, first
 the surface and then the index. Two preload threads can be in flight at
 once: each frame after a move starts one, and the one started on the
 previous image may still be running. Where the interpreter may switch threads
 between the two assignments (a free-threaded build; CPython with the global
 interpreter lock does not switch between two plain stores), their writes can
 interleave and leave a slot whose surface belongs to one image and whose index names
 another, and the Right key trusts the index. This module models the writes as
 they are and exhibits that run; `Navigation.Complete`, which writes the
 pair at once, is the corrected behaviour.
 */
module PreloadRace {
  import opened Options
  import opened Catalog
  import opened Navigation

  /** One assignment of `preload_next` to a slot field. */
  datatype Write =
    | StoreSurface(surface: Option<Surface>)
    | StoreIndex(target: Option<int>)

  /** A single assignment, with nothing else changed. */
  function Apply(s: ViewState, w: Write): (r: ViewState)
    ensures r.index == s.index && r.current == s.current && r.needsRedraw == s.needsRedraw
    ensures w.StoreSurface? ==> r.nextSurface == w.surface && r.nextIndex == s.nextIndex
    ensures w.StoreIndex? ==> r.nextIndex == w.target && r.nextSurface == s.nextSurface
  {
    match w
    case StoreSurface(v) => s.(nextSurface := v)
    case StoreIndex(v) => s.(nextIndex := v)
  }

  /** The assignments, in program order, of one `preload_next(target)` that reaches them. */
  function PreloadWrites(c: Config, target: nat, ok: bool): seq<Write>
    requires target < |c.images|
  {
    if ok then [StoreSurface(Some(LoadSurface(c.images[target]))), StoreIndex(Some(target))]
    else [StoreSurface(None), StoreIndex(None)]
  }

  /** A sequence of assignments applied in order. */
  function ApplyAll(s: ViewState, ws: seq<Write>): (r: ViewState)
    ensures r.index == s.index && r.current == s.current && r.needsRedraw == s.needsRedraw
    decreases |ws|
  {
    if ws == [] then s else Apply(ApplyAll(s, ws[..|ws| - 1]), ws[|ws| - 1])
  }

  /** One thread's writes run back to back have exactly the atomic effect. */
  lemma UninterruptedWritesComplete(c: Config, s: ViewState, target: nat, ok: bool)
    requires target < |c.images|
    ensures ApplyAll(s, PreloadWrites(c, target, ok)) == Complete(c, s, target, ok)
  {
    var ws := PreloadWrites(c, target, ok);
    assert ws[..1][..0] == [];
    assert ws[..|ws| - 1] == ws[..1];
    var half := Apply(s, ws[0]);
    assert ApplyAll(s, ws[..1]) == half;
    assert ApplyAll(s, ws) == Apply(half, ws[1]);
  }

  /** Three images, viewing the second, with the slot empty. */
  function Gallery(): Config
  {
    Config("photos", ["photos/a.jpg", "photos/b.jpg", "photos/c.jpg"], "picked")
  }

  function Viewing(): ViewState
  {
    ViewState(1, Some(Decoded("photos/b.jpg")), None, None, false)
  }

  /**
   The preload of image 2, started by the current frame, stores its surface;
   the stale preload of image 1, started on the previous image, stores its
   surface and its index; the first then stores its index. The slot now pairs
   image 1's surface with index 2, and Right shows image 1 on index 2.
   */
  lemma InterleavedPreloadsShowWrongImage()
    ensures Coherent(Gallery(), Viewing())
    ensures var c := Gallery();
      var late := [StoreSurface(Some(LoadSurface(c.images[2]))),
                   StoreSurface(Some(LoadSurface(c.images[1]))),
                   StoreIndex(Some(1)),
                   StoreIndex(Some(2))];
      var s := ApplyAll(Viewing(), late);
      var r := Right(c, s).state;
      && !Coherent(c, s)
      && r.index == 2
      && r.current == Some(Decoded("photos/b.jpg"))
      && r.current != Some(LoadSurface(c.images[r.index]))
  {
    var c := Gallery();
    var late := [StoreSurface(Some(LoadSurface(c.images[2]))),
                 StoreSurface(Some(LoadSurface(c.images[1]))),
                 StoreIndex(Some(1)),
                 StoreIndex(Some(2))];
    var v := Viewing();
    assert late[..1][..0] == [] && late[..2][..1] == late[..1];
    assert late[..3][..2] == late[..2] && late[..|late| - 1] == late[..3];
    assert ApplyAll(v, late[..1][..0]) == v;
    var s1 := ApplyAll(v, late[..1]);
    assert s1 == Apply(v, late[..1][0]);
    var s2 := ApplyAll(v, late[..2]);
    assert s2 == Apply(s1, late[1]);
    var s3 := ApplyAll(v, late[..3]);
    assert s3 == Apply(s2, late[2]);
    var s := ApplyAll(v, late);
    assert s == Apply(s3, late[3]);
    assert s.nextSurface == Some(Decoded("photos/b.jpg")) && s.nextIndex == Some(2);
  }

  /** With each completion atomic, no interleaving of completions breaks coherence. */
  lemma {:induction false} AtomicCompletionsStayCoherent(c: Config, s: ViewState, done: seq<(nat, bool)>)
    requires Coherent(c, s)
    ensures Coherent(c, CompleteAll(c, s, done))
    decreases |done|
  {
    if done != [] {
      AtomicCompletionsStayCoherent(c, s, done[..|done| - 1]);
    }
  }

  /** Atomic completions applied in order. */
  function CompleteAll(c: Config, s: ViewState, done: seq<(nat, bool)>): ViewState
    decreases |done|
  {
    if done == [] then s
    else
      var last := done[|done| - 1];
      Complete(c, CompleteAll(c, s, done[..|done| - 1]), last.0, last.1)
  }
}
