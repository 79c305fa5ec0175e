module Segments {
  /** A speaker turn. */
  datatype Segment = Segment(start: real, end: real, speaker: string) {
    function Duration(): real {
      end - start
    }
  }
}
