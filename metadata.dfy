/** `extractMetadata`: the three-line caption shown under the images. */
module Metadata {
  import opened Wrappers
  import opened SwiftText
  import opened DicomData

  const Unknown: string := "Unknown"
  const PatientNameLabel: string := "Patient Name: "
  const ModalityLabel: string := "Modality: "
  const StudyDateLabel: string := "Study Date: "

  /** `dataset.string(forTag: tag) ?? "Unknown"`. */
  function ValueOrUnknown(ds: DataSet, tag: string): (v: string)
    ensures tag in ds.strings ==> v == ds.strings[tag]
    ensures tag !in ds.strings ==> v == "Unknown"
  {
    match StringForTag(ds, tag)
    case Some(v) => v
    case None => Unknown
  }

  /** The caption: patient name, modality and study date on three lines
      separated by a line feed, with no trailing line feed. */
  function ExtractMetadata(ds: DataSet): (text: string)
    ensures StartsWith(text, PatientNameLabel + ValueOrUnknown(ds, "PatientName") + "\n")
    ensures HasSuffix(text, "\n" + StudyDateLabel + ValueOrUnknown(ds, "StudyDate"))
  {
    var first := PatientNameLabel + ValueOrUnknown(ds, "PatientName") + "\n";
    var middle := ModalityLabel + ValueOrUnknown(ds, "Modality");
    var last := "\n" + StudyDateLabel + ValueOrUnknown(ds, "StudyDate");
    assert (first + middle + last)[..|first|] == first;
    assert (first + middle + last)[..|first + middle|] == first + middle;
    first + middle + last
  }

  predicate StartsWith(s: string, prefix: string) {
    |prefix| <= |s| && s[..|prefix|] == prefix
  }

  /** Reads a caption back: three lines, each starting with its heading,
      giving the three values that follow the labels. */
  function ParseMetadata(text: string): Option<(string, string, string)> {
    var lines := Split(text, '\n');
    if |lines| == 3 && StartsWith(lines[0], PatientNameLabel) &&
       StartsWith(lines[1], ModalityLabel) && StartsWith(lines[2], StudyDateLabel)
    then Some((lines[0][|PatientNameLabel|..], lines[1][|ModalityLabel|..], lines[2][|StudyDateLabel|..]))
    else None
  }

  /** The caption is its three lines joined with line feeds. */
  lemma CaptionLines(ds: DataSet, line0: string, line1: string, line2: string)
    requires line0 == PatientNameLabel + ValueOrUnknown(ds, "PatientName")
    requires line1 == ModalityLabel + ValueOrUnknown(ds, "Modality")
    requires line2 == StudyDateLabel + ValueOrUnknown(ds, "StudyDate")
    ensures ExtractMetadata(ds) == Join([line0, line1, line2], '\n')
  {
    assert [line0, line1, line2][1..] == [line1, line2];
    assert [line1, line2][1..] == [line2];
    assert Join([line1, line2], '\n') == line1 + ['\n'] + line2;
    assert Join([line0, line1, line2], '\n') == line0 + ['\n'] + (line1 + ['\n'] + line2);
  }

  /** A labelled line starts with its heading, and the rest is the value. */
  lemma LabelledLine(heading: string, value: string)
    ensures StartsWith(heading + value, heading)
    ensures (heading + value)[|heading|..] == value
  {
  }

  /** Round trip: as long as no value holds a line feed, the caption reads
      back as the three tag values, each `"Unknown"` where its tag is
      absent. */
  lemma MetadataRoundTrip(ds: DataSet)
    requires '\n' !in ValueOrUnknown(ds, "PatientName")
    requires '\n' !in ValueOrUnknown(ds, "Modality")
    requires '\n' !in ValueOrUnknown(ds, "StudyDate")
    ensures ParseMetadata(ExtractMetadata(ds)) ==
      Some((ValueOrUnknown(ds, "PatientName"), ValueOrUnknown(ds, "Modality"), ValueOrUnknown(ds, "StudyDate")))
  {
    var line0 := PatientNameLabel + ValueOrUnknown(ds, "PatientName");
    var line1 := ModalityLabel + ValueOrUnknown(ds, "Modality");
    var line2 := StudyDateLabel + ValueOrUnknown(ds, "StudyDate");
    assert '\n' !in line0 && '\n' !in line1 && '\n' !in line2;
    CaptionLines(ds, line0, line1, line2);
    SplitJoin([line0, line1, line2], '\n');
    LabelledLine(PatientNameLabel, ValueOrUnknown(ds, "PatientName"));
    LabelledLine(ModalityLabel, ValueOrUnknown(ds, "Modality"));
    LabelledLine(StudyDateLabel, ValueOrUnknown(ds, "StudyDate"));
  }

  /** A dataset without a study date still gets a full caption, ending
      in `Study Date: Unknown`. */
  lemma MissingStudyDate(ds: DataSet)
    requires "StudyDate" !in ds.strings
    ensures HasSuffix(ExtractMetadata(ds), "Study Date: Unknown")
  {
    var front := PatientNameLabel + ValueOrUnknown(ds, "PatientName") + "\n" +
      ModalityLabel + ValueOrUnknown(ds, "Modality") + "\n";
    assert ExtractMetadata(ds) == front + "Study Date: Unknown";
    assert (front + "Study Date: Unknown")[|front|..] == "Study Date: Unknown";
  }
}
