/** The small part of OpenCV's core that the exercises lean on: 8-bit
    single-channel matrices (CV_8UC1) and the outcome of a call whose
    CV_Assert checks may throw a cv::Exception. */
module CvCore {

  datatype Option<+T> = None | Some(value: T)

  /** `Err` stands for the cv::Exception that a failing CV_Assert throws. */
  datatype Result<+T, +E> = Ok(value: T) | Err(error: E)

  /** One unsigned 8-bit sample (CV_8U). */
  type Byte = x: int | 0 <= x < 256

  /** The data of a CV_8UC1 matrix: `pixels[i][j]` is the sample at row i, column j. */
  datatype Raster = Raster(rows: nat, cols: nat, pixels: seq<seq<Byte>>)

  predicate Rectangular(m: Raster)
  {
    |m.pixels| == m.rows && forall i :: 0 <= i < |m.pixels| ==> |m.pixels[i]| == m.cols
  }

  /** A cv::Mat of type CV_8UC1: every row holds `cols` samples. */
  type Image = m: Raster | Rectangular(m) witness Raster(0, 0, [])

  /** `a` and `b` have the same size (cv::Mat::size()). */
  predicate SameSize(a: Image, b: Image)
  {
    a.rows == b.rows && a.cols == b.cols
  }
}
