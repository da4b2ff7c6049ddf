# impick: a Dafny model of the group-picking core

impick serves a rating session: the rater is shown one group of images at a
time (a directory of candidate `.jpg` files), picks one image, and the choice
is appended to a CSV report. A group already judged for the current case is
never shown again, and once every group has been judged the rater is sent to
a completion page. In `sequential` mode the whole report counts as one case; in
`individual` mode each URL path is its own case.

The model covers the logic behind the HTTP handlers of `impick/server.py`:

- `text.dfy` (module `Text`): `Option`/`Result`, `str.split("/", 1)` as
  `SplitOnce`, and the prefix/suffix tests.
- `catalog.dfy` (module `Catalog`): `parse_image_dir` plus the `dict(...)`
  that consumes it in `serve`, over an abstract directory listing (entry
  name, is-directory flag, names of the children).
- `progress.dfy` (module `Progress`): the report as a class `Report` with an
  on-disk flag and the list of its records (`write_to_csv` is its method
  `WriteToCsv`), and `selector`'s `inner` as the method `Select`, which
  validates a submission with the function `CheckSubmission` (the split at
  the first slash and both checks) and appends only on success.
- `selection.dfy` (module `Selection`): `index`'s `inner` as the function
  `Next`, with the mode filter, completion, position, and the random choice.
  `random.choice(list(s))` is modelled as `ListOf(s)` (some listing of the
  set) indexed by an injected draw. A lemma shows that every candidate group
  is reached by some draw.
- `port.dfy` (module `Port`): `_unique_port` over an abstract digest and uid.
- `session.dfy` (module `Session`): one full sequential session over three
  groups. It starts with no report, submits one image of each group through
  `Select`, and ends with `Next` signalling completion.

Behaviour of the code that the model keeps as written:

- With an empty image root and no report file, `random.choice([])` raises
  `IndexError` (`EmptyChoice`). With a report present, the same empty catalog
  yields the completion page. Treating a missing report as an empty one would
  give completion in both cases; the model follows the code.
- The invalid-mode `ValueError` is raised per request, and only when the
  report exists. Without a report the mode is never checked: a group is
  presented, or `IndexError` is raised for an empty catalog.
- A submitted image name without a slash that equals the group name passes
  the prefix check. It then fails at `split(...)[1]` with `IndexError`
  (`MissingFile`). Any other prefix mismatch is the `ValueError`
  (`GroupMismatch`).
- The position is the number of filtered rows plus one. It counts duplicate
  rows and rows of unknown groups. It stays within the group count only for a
  one-per-group history (`PositionWithinTotal`).

## Model

| member | source | states |
|---|---|---|
| `Text.SplitOnce` | impick/server.py:91 | the split has one part exactly when the name holds no slash (and is then the whole name); otherwise the slash-free text before the first slash, a slash, and the rest rejoin to the name |
| `Text.SplitJoin` | impick/server.py:91-94 | splitting `head/tail` with a slash-free head gives back exactly `[head, tail]` |
| `Catalog.ImagePaths` | impick/server.py:24 | every listed image is `group/<child>` with `<child>` a child name ending in `.jpg`, and every such child is listed |
| `Catalog.Groups` | impick/server.py:20-26 | every image of every catalog group has the form `group/<name>.jpg` |
| `Catalog.ParseImageDir` | impick/server.py:20-26 | the loop over the listing builds exactly the catalog `Groups` describes |
| `Catalog.GroupNames` | impick/server.py:21-23 | the group names are exactly the directory names of the root, empty directories included, files excluded |
| `Catalog.GroupOfDirectory` | impick/server.py:24-26 | with distinct directory names, each directory's group holds exactly its own `.jpg` children |
| `Catalog.GroupNameHasNoSlash` | impick/server.py:26 | a group name from a well-formed listing holds no slash |
| `Progress.CheckSubmission` | impick/server.py:91-94 | accepted exactly when the group is slash-free and the image starts with `group/`, in which case `group/file` rejoins to the image; `MissingFile` exactly when the image is the slash-free group name itself |
| `Progress.AcceptsJoinedName` | impick/server.py:91-94 | `group/file` submitted under a slash-free `group` is accepted and records `file` |
| `Progress.CatalogImageAccepted` | impick/server.py:24-26 | any catalog image submitted under its own group passes validation and records a `.jpg` name |
| `Progress.ParseRows` | impick/server.py:47 | the data records read back as rows one for one, in order |
| `Progress.Report.History` | impick/server.py:46-47 | an absent report reads as none; a present one reads as the rows below the header, one per record, in order |
| `Progress.Report.Open` | impick/server.py:30 | a report opened over existing rows (or none) reads back those rows (or none) |
| `Progress.Report.WriteToCsv` | impick/server.py:29-35 | the header is appended only when the file did not exist, then the row; earlier records are kept; read back, the report is the old rows plus the new one |
| `Progress.Select` | impick/server.py:85-96 | a refused submission (either error) leaves the report unchanged; an accepted one appends exactly `(path, group, file)` with `group/file` equal to the image name, and the old records stay a prefix |
| `Selection.Filter` | impick/server.py:48-51 | sequential mode keeps the whole report; individual mode keeps exactly the rows whose path equals the requested one |
| `Selection.FilterCounts` | impick/server.py:48-51 | every copy of a kept row is kept, and no copy of any other row |
| `Selection.FilterAppend` | impick/server.py:48-49 | filtering a report with one more row filters the old rows and then keeps or drops the new one |
| `Selection.ListOf` | impick/server.py:54 | `list(set)` holds each element of the set once and nothing else |
| `Selection.Choice` | impick/server.py:58 | `random.choice` returns an element of the list, and fails only on an empty list |
| `Selection.Next` | impick/server.py:43-72 | a presented group is a catalog group with its own images and the catalog size as total; with a report it is not among the filtered rows' groups and its position is the filtered row count plus one; with no report the position is 1; completion exactly when every catalog group is recorded; `ValueError` exactly for an unknown mode with a report; `IndexError` exactly for no report and an empty catalog |
| `Selection.AnyRemainingGroupCanBePresented` | impick/server.py:54-61 | every not-yet-recorded group (every catalog group when no report exists) is presented for some draw |
| `Selection.AbsentReportIsFreshStart` | impick/server.py:59-61 | for a non-empty catalog, no report behaves like an empty report: same group, position 1 |
| `Selection.RecordedAppend` | impick/server.py:54 | one more row adds its group, and only its group, to the recorded set |
| `Selection.SubmitRecordsGroup` | impick/server.py:54 | recording a group for the requested case adds exactly that group to the case's recorded groups |
| `Selection.SubmitAdvances` | impick/server.py:54-58 | after the presented group is recorded for the same case, the next request presents another group at the next position, or signals completion |
| `Selection.OnePerGroupCount` | impick/server.py:54 | a history of distinct catalog groups records as many groups as it has rows |
| `Selection.AppendKeepsOnePerGroup` | impick/server.py:95 | appending a row for an unrecorded catalog group keeps the history one-per-group |
| `Selection.SubmitKeepsOnePerGroup` | impick/server.py:58 | recording the presented group keeps the history one-per-group |
| `Selection.PositionWithinTotal` | impick/server.py:57 | with a one-per-group history the position never exceeds the group count, and it reaches it exactly when one group is left |
| `Selection.FullCycleCompletes` | impick/server.py:54-56 | a one-per-group history as long as the catalog leads to completion for every draw |
| `Port.UniquePort` | impick/server.py:137-141 | the port lies in 49152..65535 and depends only on the seed modulo the range size |
| `Port.PortCoversRange` | impick/server.py:139-141 | every port of the range is produced by some seed, and seeds a multiple of 16384 apart share it |
| `Session.ThreeGroupSession` | impick/server.py:85-96 | starting without a report and submitting one image of each of three groups leaves three rows, and the next request signals completion |

## Left out

- HTTP routing, redirects, Jinja2 templates, static file serving and uvicorn (`impick/server.py:12-17`, 65-77, 96, 101-111, 124-134). They are transport and presentation. The outcome of `Next` carries the values the template receives, apart from the request and the echoed path.
- Command-line parsing (`impick/server.py:144-186`). The mode choices it enforces are why the `Unrecognized` mode only matters to `Next`'s error branch.
- The start-up checks that the image root and the report's parent directory exist (`impick/server.py:81-83`, 121-122). These are file-system checks; the model starts from a listing and a report.
- CSV quoting and escaping, and the parsing done by `pandas.read_csv`. The report is held as records of three strings. pandas type inference is not modelled either. A column of numeric-looking group names such as `001` reads back as `1`, so such groups would not count as recorded. Group names such as `NA` or `null` read back as NaN, which `astype(str)` turns into `"nan"`. In individual mode, paths that all look numeric (such as `123`) read back as integers and never equal the requested path string (`impick/server.py:49`), so the filter keeps nothing: groups repeat and the position stays 1. The model compares the strings as written. A report file that exists but is empty or has a different header is also not modelled, because `Report.Valid` requires the header.
- `hashlib.sha1` and `os.getuid`: `UniquePort` takes the digest and the uid as naturals.
- The distribution of `random.choice`. Uniformity cannot be stated here. The model shows only that the result is a candidate and that every candidate is reachable.
- The file system's listing order: `ImagePaths` keeps the order of the given listing.
- Concurrent requests. Each handler is modelled as one atomic step.
- Selection.Filter: its contract states membership, and `FilterCounts` states multiplicity. That the filter also keeps the report's order is true of its definition but not stated, because only the row count and the set of groups are used.
