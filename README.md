# ImagePicker viewer core in Dafny

A model of the core of the image shortlisting tool in `image_picker.py`. The
tool scans a directory for images, shows them one at a time and copies the
ones the user picks into an output directory. The model covers four parts:

- **Catalog**: `scan_images` keeps the paths of a sorted listing whose
  lower-cased suffix is `.jpg`, `.jpeg` or `.png`, in order. `PurePath.name`
  and `PurePath.suffix` are written out under the Python 3.12 rule: the
  suffix runs from the last dot of the final component, and that dot must be
  neither the component's first nor its last character.
- **Session**: the record `{images_root, output_dir, current_index,
  total_images}`. It also covers how a new operation and a resumed one begin.
- **Navigation**: the `run_viewer` state machine as functions on a
  `ViewState`. The state is the index, the surface on screen, the one-slot
  prefetch cache (`next_surface`, `next_index`) and the redraw flag. The
  events are Right, Left and Return, a frame of the main loop, and the
  completion of a background preload.
  - A completion is one atomic event. It may come between any two others and
    for any target, so stale completions from earlier frames are included.
  - Surfaces are tags `Decoded(path)`.
  - The central property is `ViewerShowsCurrentImage`: on every frame the
    surface shown belongs to `images[index]`, whatever the interleaving.
- **ViewerLoop**: the same loop as a class `Viewer`. Its fields are the loop
  variables, its methods are the branches of the loop, and `Process` is the
  loop over a sequence of events. Each method is proved to perform exactly
  the transition `Navigation` defines.
- **PreloadRace**: the two separate assignments in `preload_next`, and a run
  in which they show the wrong image (see Findings).

The code has one *next* slot, guarded by `next_index == index`; there is no
previous slot and no generation counter. The model follows the code.

## Model

| member | source | states |
|---|---|---|
| Catalog.Name | image_picker.py:27 | `PurePath.name`, the text after the last separator; characterised by `NameShape`, `NameAfterDirectory` and `PathSplits` |
| Catalog.Suffix | image_picker.py:27 | `PurePath.suffix` under the Python 3.12 rule; characterised by `SuffixShape` and `SuffixOfFile` |
| Catalog.IsImage | image_picker.py:27 | the test `path.suffix.lower() in SUPPORTED_EXTENSIONS`; characterised by `IsImageByExtension` |
| Catalog.FilterImages | image_picker.py:24-29 | the catalog of a sorted listing; characterised by `SelectMembership`, `SelectKeepsOrder`, `SelectKeepsLengthIffAll` and `ScanImages` |
| Catalog.NameAfterDirectory | image_picker.py:47 | joining a directory ending in a separator with a separator-free name gives a path with that name and that directory part |
| Catalog.PathSplits | image_picker.py:47 | every path is its directory part, which is empty or ends in a separator, followed by its name |
| Catalog.SupportedExtensionIsSetMembership | image_picker.py:20 | the three-way extension test is exactly membership in `SUPPORTED_EXTENSIONS` |
| Catalog.SuffixShape | image_picker.py:27 | a non-empty suffix is a dot plus at least one character, with no further dot or separator; it is a proper tail of the final component |
| Catalog.NameShape | image_picker.py:27 | the final component holds no separator and is a tail of the path |
| Catalog.NameOfFile | image_picker.py:27 | the final component of `dir/stem.ext` is `stem.ext` |
| Catalog.SuffixOfFile | image_picker.py:27 | a file named `stem.ext` (no dot in `ext`) has suffix `.ext`, or none when the stem is empty (a hidden file) |
| Catalog.IsImageByExtension | image_picker.py:27 | with a non-empty stem, a file is kept exactly when its lower-cased `.ext` is a supported extension |
| Catalog.UpperCaseExtensionIsImage | image_picker.py:27 | `IMG_0001.JPG` is kept: the test ignores letter case |
| Catalog.HiddenFileIsNotImage | image_picker.py:27 | a file named `.png` is not kept: it has no suffix |
| Catalog.Select | image_picker.py:24-29 | the kept paths are never more than the listed ones |
| Catalog.ScanImages | image_picker.py:24-29 | the appending loop returns exactly the filter of the sorted listing |
| Catalog.SelectAppend | image_picker.py:26-28 | filtering a concatenation is concatenating the filtered parts: each path is judged alone |
| Catalog.SelectMembership | image_picker.py:26-28 | a path is in the result if and only if it is listed and passes the test |
| Catalog.SelectKeepsOrder | image_picker.py:26-28 | any pairwise order of the listing, such as the sort, holds in the result |
| Catalog.SelectKeepsLengthIffAll | image_picker.py:26-28 | nothing is dropped if and only if every listed path passes |
| Catalog.SelectIdempotent | image_picker.py:26-28 | filtering the result again changes nothing |
| Session.NewOperation | image_picker.py:183-199 | refuses if and only if the directory is missing, or it holds no image; otherwise views the filtered listing from index 0; the record saved before viewing has index 0, the image count, and is well formed |
| Session.Resume | image_picker.py:204-210 | rescans, starts at the recorded index with the recorded paths; the start lies among the images when the record is well formed and the count is unchanged |
| Session.ResumeCanStartOutOfRange | image_picker.py:207-210 | a well-formed record for a directory now empty starts past the last image |
| Navigation.Right | image_picker.py:132-152 | before the last image: index up by one, the preloaded surface is shown exactly when the slot holds one for the new index, otherwise the new image is loaded; the slot is emptied, a redraw is asked for, and the saved record names the new index and the image count. On the last image: no change and no save. Keeps the index in range and the state coherent |
| Navigation.Left | image_picker.py:154-169 | after the first image: index down by one, the image is always loaded, the slot is emptied, and the record is saved. On the first image: no change and no save. Keeps range and coherence |
| Navigation.LoadSurface | image_picker.py:57-66 | a decoded surface depends only on the file decoded; `Coherent` and `ViewerShowsCurrentImage` are stated in its terms |
| Navigation.SavedRecord | image_picker.py:147-152 | the record after a move carries the root, the output directory, the new index and the image count, and is well formed exactly when the index is in range |
| Navigation.Persisted | image_picker.py:147-169 | the record in the session file after a sequence of events; characterised by `SessionFileTracksIndex` |
| Navigation.Pick | image_picker.py:171-172 | Return picks `images[index]`, the image being viewed, which is one of the catalog's images |
| Navigation.CopyDestination | image_picker.py:44-47 | the copy lands directly in the output directory: its directory part is `outputDir/` and its name is the picked file's name (with `PathSplits`, these determine it) |
| Navigation.Complete | image_picker.py:84-96 | a target past the end leaves the state unchanged; a success fills the slot with the target's surface and the target; a failure empties it; the index, the surface on screen and the redraw flag never change; coherence is kept |
| Navigation.Redraw | image_picker.py:99-120 | with no redraw pending, nothing happens; otherwise the current surface is shown (loaded first if absent), and a preload of `index + 1` starts exactly when there is such an image; the flag is cleared; on a coherent state the surface shown is that of `images[index]` |
| Navigation.Transition | image_picker.py:122-174 | every event keeps the index in range and the state coherent; only a saving move changes the index, and it saves the record of the new index; Return changes nothing |
| Navigation.Run | image_picker.py:98-176 | any event sequence from an in-range start stays in range, and from a coherent start stays coherent |
| Navigation.SessionFileTracksIndex | image_picker.py:147-169 | after any events, the last saved record names the image being viewed and is well formed |
| Navigation.InitialIsCoherent | image_picker.py:76-81 | a viewer started on one of the images begins coherent |
| Navigation.ViewerShowsCurrentImage | image_picker.py:103-140 | from any in-range start, under any interleaving of keys, frames and completions (stale ones included), every frame shows `images[index]` |
| Navigation.RepeatedRightStopsAtLast | image_picker.py:133-134 | `n` Right presses move to `min(index + n, len - 1)` |
| Navigation.RepeatedLeftStopsAtFirst | image_picker.py:155-156 | `n` Left presses move to `max(index - n, 0)` |
| Navigation.RightThenLeft | image_picker.py:132-158 | Right then Left from before the last image return to the same index |
| Navigation.CompletionsKeepView | image_picker.py:84-96 | completions alone never change the index, the surface on screen or the redraw flag |
| ViewerLoop.Viewer.constructor | image_picker.py:76-82 | the viewer starts at the given index with nothing shown, an empty slot and a redraw pending, which is coherent |
| ViewerLoop.Viewer.Redraw | image_picker.py:99-120 | updates the fields and returns the surface and the preload target exactly as `Navigation.Redraw` |
| ViewerLoop.Viewer.Right | image_picker.py:132-152 | updates the fields and returns the saved record exactly as `Navigation.Right` |
| ViewerLoop.Viewer.Left | image_picker.py:154-169 | updates the fields and returns the saved record exactly as `Navigation.Left` |
| ViewerLoop.Viewer.Pick | image_picker.py:171-174 | returns `Navigation.Pick` of the state and its `CopyDestination` in the configured output directory; changes no field |
| ViewerLoop.Viewer.PreloadNext | image_picker.py:84-96 | updates the slot exactly as `Navigation.Complete` |
| ViewerLoop.Viewer.Handle | image_picker.py:122-174 | dispatches one event exactly as `Navigation.Transition` |
| ViewerLoop.Viewer.Process | image_picker.py:98-176 | after the events, the fields are `Navigation.Run` of the old state, and the returned record is `Navigation.Persisted` |
| PreloadRace.PreloadWrites | image_picker.py:92-96 | the two assignments of one `preload_next` in program order, on success and on failure; with `UninterruptedWritesComplete` they amount to `Navigation.Complete` |
| PreloadRace.Apply | image_picker.py:92-96 | one assignment changes one slot field and nothing else |
| PreloadRace.ApplyAll | image_picker.py:92-96 | slot assignments never change the index, the surface on screen or the redraw flag |
| PreloadRace.UninterruptedWritesComplete | image_picker.py:90-96 | one thread's two assignments run back to back have exactly the atomic effect of `Navigation.Complete` |
| PreloadRace.InterleavedPreloadsShowWrongImage | image_picker.py:92-93 | two interleaved preloads leave image 1's surface paired with index 2, and Right then shows image 1 at index 2 |
| PreloadRace.AtomicCompletionsStayCoherent | image_picker.py:84-96 | atomic completions in any order and for any targets keep the state coherent |

## Left out

- Rendering, the pygame event pump, `clock.tick`, and screen fill, blit and flip are user interface; `Redraw` returns the surface it would blit.
- PIL decoding, RGB conversion and thumbnail scaling are foreign image work. `load_surface` is the tag `Decoded(path)`, so the window size is not modelled.
- A synchronous `load_surface` failure at lines 104, 140 and 158 raises out of `run_viewer`. The model treats those loads as succeeding; only the preload's failure (line 94) is modelled, as the `ok` flag.
- Threads are not modelled. A preload thread's effect is the atomic `PreloadDone` event, which accepts any target, a superset of the targets that frames start. The copy thread is the `(src, dst)` pair `Pick` returns.
- Navigation.CopyDestination: joins with `/` and does not model pathlib's normalisation of the output directory, `mkdir`, or `shutil.copy2`.
- JSON reading and writing in `load_state` and `save_state` is I/O. Only the record's field values are modelled, as the `saved` output of each move.
- The directory walk with `rglob` and the order of `sorted` are taken as input: the filter receives the listing already sorted. `Exists()`, the prompts, `print`, `sys.exit`, Escape and `q`, Quit and the menu in `main` are interactive plumbing.
- Window resize is not handled by the code and is not modelled.
- Catalog.IsImage: lower-cases ASCII letters only, where `str.lower` is full Unicode.
- Navigation.Run: requires the index in range. Resuming does not check the recorded index against the rescan (`Session.ResumeCanStartOutOfRange`). The source's behaviour with an index out of range is not modelled: an `IndexError` on the first frame, or Python's negative indexing.
- The Right key's test at lines 137-138 reads `next_surface` and `next_index` without a lock. A preload landing between the test and the read at line 138 is not modelled; only the race between two preload threads is (Findings).

## Findings

| source | as written | input that shows it | evidently intended | confidence | as-written member | corrected member |
|---|---|---|---|---|---|---|
| image_picker.py:92-93 | `preload_next` stores `next_surface` and `next_index` in two separate assignments, and two preload threads can run at once; the interleaving needs an interpreter that may switch threads between two stores (a free-threaded build), which CPython 3.12 with the global interpreter lock does not do | images a, b, c, viewing b (index 1), slot empty; the preload of index 2 stores c's surface, the stale preload of index 1 stores b's surface and index 1, then the first stores index 2; Right moves to index 2 and promotes b's surface | a slot whose index always names the image its surface was decoded from, so Right never shows a surface for another image | medium, not executed | PreloadRace.InterleavedPreloadsShowWrongImage | Navigation.Complete |
