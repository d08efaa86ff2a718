/**
 The session record written by `save_state` and the two ways a viewing
 session begins: a new operation, which scans a directory and starts at the
 first image, and a resumed one, which rescans the recorded directory and
 starts at the recorded index.
 */
module Session {
  import opened Catalog

  /** The dictionary `{images_root, output_dir, current_index, total_images}`. */
  datatype SessionRecord = SessionRecord(imagesRoot: Path, outputDir: Path, currentIndex: int, totalImages: int)

  /** A record whose index designates one of the images it counts. */
  predicate WellFormed(r: SessionRecord)
  {
    0 <= r.currentIndex < r.totalImages
  }

  /** Why a new operation stops before the viewer opens. */
  datatype Refusal = ImagesDirMissing | NoImages

  /** The outcome of `prompt_new_operation` once both paths have been read. */
  datatype Start =
    | Refused(reason: Refusal)
    | Started(record: SessionRecord, images: seq<Path>, startIndex: int)

  /**
   A new operation: refused when the images directory does not exist, or when
   its listing holds no image; otherwise the record saved before viewing
   carries index 0 and the image count, and viewing starts at image 0.
   The existence test and the sorted listing are inputs.
   */
  function NewOperation(imagesDir: Path, outputDir: Path, dirExists: bool, listing: seq<Path>): (r: Start)
    ensures r == Refused(ImagesDirMissing) <==> !dirExists
    ensures r == Refused(NoImages) <==> dirExists && FilterImages(listing) == []
    ensures r.Started? ==>
      && r.images == FilterImages(listing)
      && r.startIndex == 0 && 0 <= r.startIndex < |r.images|
      && r.record == SessionRecord(imagesDir, outputDir, 0, |r.images|)
      && WellFormed(r.record)
  {
    if !dirExists then Refused(ImagesDirMissing)
    else
      var images := FilterImages(listing);
      if images == [] then Refused(NoImages)
      else Started(SessionRecord(imagesDir, outputDir, 0, |images|), images, 0)
  }

  /** What `prompt_resume_operation` hands to the viewer. */
  datatype Resumed = Resumed(imagesRoot: Path, images: seq<Path>, outputDir: Path, startIndex: int)

  /**
   Resuming rescans the recorded directory and starts at the recorded index,
   without comparing it with the new scan: the start index lies among the
   images only when the record is well formed and the directory still holds
   as many images as the record counts.
   */
  function Resume(record: SessionRecord, listing: seq<Path>): (r: Resumed)
    ensures r.images == FilterImages(listing) && r.startIndex == record.currentIndex
    ensures r.imagesRoot == record.imagesRoot && r.outputDir == record.outputDir
    ensures WellFormed(record) && |FilterImages(listing)| == record.totalImages ==>
      0 <= r.startIndex < |r.images|
  {
    Resumed(record.imagesRoot, FilterImages(listing), record.outputDir, record.currentIndex)
  }

  /** A record whose directory has since been emptied points past the last image. */
  lemma ResumeCanStartOutOfRange(record: SessionRecord)
    requires WellFormed(record)
    ensures Resume(record, []).startIndex >= |Resume(record, []).images|
  {
    assert FilterImages([]) == [];
  }
}
