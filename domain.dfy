/**
 * The records the identity-resolution core passes around: a stored person
 * with its embedding set, the pixel box of a detected face, and the
 * per-detection result the pipeline reports.
 */
module Domain {

  import opened Uuids

  /** A face embedding; the model's `f32` components are taken as reals. */
  type Embedding = seq<real>

  /** A stored identity: its id and every embedding recorded for it, oldest first. */
  datatype Person = Person(id: Uuid, embeddings: seq<Embedding>)

  newtype i32 = x: int | -0x8000_0000 <= x < 0x8000_0000

  /** A face rectangle in source-image pixel coordinates. */
  datatype BoundingBox = BoundingBox(x: i32, y: i32, width: i32, height: i32)

  /**
   * One reported detection: the image it came from, the id it was resolved to
   * (a stored key, or a temporary id that is never stored), the detector's
   * confidence and the face rectangle.
   */
  datatype DetectedFace = DetectedFace(imagePath: string, personId: string, confidence: real, bbox: BoundingBox)
}
