/** Sizes fixed by the JPEG standard (jpeglib.h), and limits of the library (jmorecfg.h). */
module JpegLimits {
  const DCTSIZE2: nat := 64
  const MAX_COMPS_IN_SCAN: nat := 4
  const MAX_COMPONENTS: nat := 10
  const JPEG_MAX_DIMENSION: nat := 65500
}
