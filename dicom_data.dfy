/** The parsed DICOM dataset, seen only through the lookups the viewer
    makes: string tags and 16-bit integer tags, each keyed by tag name. A tag absent from a map is a lookup that yields
    `nil`. */
module DicomData {
  import opened Wrappers

  /** A Swift `Int16`. */
  newtype int16 = x: int | -0x8000 <= x < 0x8000

  /** A Swift `UInt8`, one byte of a `Data` buffer. */
  newtype byte = x: int | 0 <= x < 0x100

  datatype DataSet = DataSet(
    strings: map<string, string>,
    integers: map<string, int16>)

  /** `dataset.string(forTag:)`. */
  function StringForTag(ds: DataSet, tag: string): Option<string> {
    if tag in ds.strings then Some(ds.strings[tag]) else None
  }

  /** `dataset.integer16(forTag:)`. */
  function Integer16ForTag(ds: DataSet, tag: string): Option<int16> {
    if tag in ds.integers then Some(ds.integers[tag]) else None
  }
}
