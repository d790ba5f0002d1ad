/** The values the bookkeeping steps of the demo program pass around. Everything
    the vision library attaches to them beyond what the steps read is left out. */
module Types {

  /** An image-plane coordinate (cv::Point2f); its float coordinates are reals here. */
  datatype Point2f = Point2f(x: real, y: real)

  /** A detected keypoint; the steps only ever read its location. */
  datatype KeyPoint = KeyPoint(pt: Point2f)

  /** A descriptor match (cv::DMatch): the index of the keypoint in the object image
      (queryIdx), the index of the keypoint in the scene image (trainIdx) and the
      descriptor distance between them. */
  datatype DMatch = DMatch(queryIdx: int, trainIdx: int, distance: real)

  /** One entry of the estimator's inlier mask, an 8-bit unsigned value. */
  type UChar = x: int | 0 <= x < 256

  /** The outcome of a step that reads a vector out of range (undefined in the program). */
  datatype Option<T> = None | Some(value: T)
}
