/** The progress report: an append-only table with the header `path,group,file`
    and one row per recorded selection (`write_to_csv`), and the handler that
    validates a submission before recording it (`selector`'s `inner`). The
    report is held as the list of its records; the CSV encoding is not modelled. */
module Progress {
  import opened Text
  import Catalog

  /** One recorded selection: the case path, the group, and the chosen file
      without its group prefix. */
  datatype Row = Row(path: string, group: string, file: string)

  /** The fields `writer.writerow` receives for a row. */
  function Fields(r: Row): seq<string>
  {
    [r.path, r.group, r.file]
  }

  /** The header record written when the report file is created. */
  const Header: seq<string> := ["path", "group", "file"]

  /** Why a submission is refused: the text before the first slash is not the
      claimed group (`ValueError`), or the image name is the group name itself
      with no slash, so there is no file part (`IndexError`). */
  datatype SubmitError = GroupMismatch | MissingFile

  /** Reads back data records as rows, the way the table is read with its header. */
  function ParseRows(records: seq<seq<string>>): (rows: seq<Row>)
    requires forall i :: 0 <= i < |records| ==> |records[i]| == 3
    ensures |rows| == |records|
    ensures forall i :: 0 <= i < |rows| ==> Fields(rows[i]) == records[i]
  {
    if |records| == 0 then []
    else [Row(records[0][0], records[0][1], records[0][2])] + ParseRows(records[1..])
  }

  /** The rows of a report that may be absent: an absent report has none. */
  function RowsOf(history: Option<seq<Row>>): seq<Row>
  {
    match history
    case None => []
    case Some(rows) => rows
  }

  /** The validation of `selector`'s `inner`: split the image name at its first
      slash, refuse it unless the part before is the claimed group, and return
      the part after as the file to record. */
  function CheckSubmission(groupName: string, imageName: string): (r: Result<string, SubmitError>)
    ensures r.Ok? <==> Slash !in groupName && StartsWith(imageName, groupName + [Slash])
    ensures r.Ok? ==> groupName + [Slash] + r.value == imageName
    ensures r == Err(MissingFile) <==> Slash !in imageName && imageName == groupName
  {
    var parts := SplitOnce(imageName);
    if parts[0] != groupName then
      assert !(Slash !in groupName && StartsWith(imageName, groupName + [Slash])) by {
        if Slash !in groupName && StartsWith(imageName, groupName + [Slash]) {
          var file := imageName[|groupName| + 1..];
          assert imageName == groupName + [Slash] + file;
          SplitJoin(groupName, file);
        }
      }
      Err(GroupMismatch)
    else if |parts| < 2 then
      Err(MissingFile)
    else
      assert imageName[..|groupName| + 1] == groupName + [Slash];
      Ok(parts[1])
  }

  /** Any name `group/file` with a slash-free group passes validation, and the
      file part recorded is exactly `file`. */
  lemma AcceptsJoinedName(groupName: string, file: string)
    requires Slash !in groupName
    ensures CheckSubmission(groupName, groupName + [Slash] + file) == Ok(file)
  {
  }

  /** An image the catalog lists for a group, submitted under that group, is
      accepted, and what gets recorded is its `.jpg` file name. */
  lemma {:induction false} CatalogImageAccepted(entries: seq<Catalog.Entry>, g: string, image: string)
    requires Catalog.WellFormedListing(entries)
    requires g in Catalog.Groups(entries) && image in Catalog.Groups(entries)[g]
    ensures CheckSubmission(g, image).Ok?
    ensures Catalog.IsImageName(CheckSubmission(g, image).value)
  {
    Catalog.GroupNameHasNoSlash(entries, g);
  }

  /** The report file. `onDisk` is whether the file is on disk; `records` are
      its records in file order, the header first once the file exists. */
  class Report {
    var onDisk: bool
    var records: seq<seq<string>>

    ghost predicate Valid()
      reads this
    {
      && (!onDisk ==> records == [])
      && (onDisk ==> |records| >= 1 && records[0] == Header)
      && (forall i :: 1 <= i < |records| ==> |records[i]| == 3)
    }

    /** What the next-group handler reads: nothing when the file is absent,
        otherwise the data rows below the header, in order. */
    function History(): (h: Option<seq<Row>>)
      reads this
      requires Valid()
      ensures h.None? <==> !onDisk
      ensures h.Some? ==> |h.value| + 1 == |records|
      ensures h.Some? ==> forall i :: 0 <= i < |h.value| ==> Fields(h.value[i]) == records[i + 1]
    {
      if onDisk then Some(ParseRows(records[1..])) else None
    }

    /** The report as found at start-up: absent, or holding a header and the
        given rows. */
    constructor Open(existing: Option<seq<Row>>)
      ensures Valid()
      ensures History() == existing
    {
      var rows := RowsOf(existing);
      onDisk := existing.Some?;
      records := if existing.Some? then [Header] + seq(|rows|, i requires 0 <= i < |rows| => Fields(rows[i])) else [];
      new;
      assert existing.Some? ==> History().value == rows;
    }

    /** `write_to_csv`: open the file for appending, write the header first if
        the file did not exist, then write the row. Earlier records are kept. */
    method WriteToCsv(path: string, group: string, file: string)
      requires Valid()
      modifies this
      ensures Valid() && onDisk
      ensures records == old(records) + (if old(onDisk) then [] else [Header]) + [[path, group, file]]
      ensures History() == Some(RowsOf(old(History())) + [Row(path, group, file)])
    {
      ghost var before := RowsOf(History());
      var fileExists := onDisk;
      if !fileExists {
        records := records + [Header];
      }
      records := records + [[path, group, file]];
      onDisk := true;
      assert History().value == before + [Row(path, group, file)];
    }
  }

  /** `selector`'s `inner`: validate the submission, then append one row.
      A refused submission leaves the report untouched. */
  method Select(report: Report, groupName: string, imageName: string, path: string)
    returns (r: Result<Row, SubmitError>)
    requires report.Valid()
    modifies report
    ensures report.Valid()
    ensures r.Ok? <==> CheckSubmission(groupName, imageName).Ok?
    ensures r.Err? ==> r.error == CheckSubmission(groupName, imageName).error
    ensures r.Err? ==> report.onDisk == old(report.onDisk) && report.records == old(report.records)
    ensures r.Ok? ==> r.value == Row(path, groupName, CheckSubmission(groupName, imageName).value)
    ensures r.Ok? ==> groupName + [Slash] + r.value.file == imageName
    ensures r.Ok? ==> report.onDisk && old(report.records) < report.records
    ensures r.Ok? ==> report.History() == Some(RowsOf(old(report.History())) + [r.value])
  {
    match CheckSubmission(groupName, imageName)
    case Err(e) =>
      r := Err(e);
    case Ok(selected) =>
      report.WriteToCsv(path, groupName, selected);
      r := Ok(Row(path, groupName, selected));
  }
}
