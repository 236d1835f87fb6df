/** The reader names the viewer's folders, files and tables use. */
module Readers {
  /** The reader folders and mask files the scripts look for, in this order. */
  const READER_1: string := "Reader_1"
  const READER_2: string := "Reader_2"
  const READERS: seq<string> := [READER_1, READER_2]

  /** The name `process_subject` gives to the absent second reader. */
  const NO_READER: string := "No_Reader"
}
