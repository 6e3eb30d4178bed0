/** The library's internal format: a subtitle file is a list of cues, each
    shown from start to end (seconds) with one or more lines of text. */
module Cues {
  /** One cue of the internal format. */
  datatype Cue = Cue(start: real, end: real, lines: seq<string>)
}
