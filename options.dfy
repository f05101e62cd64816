/** The entities of the project options file: the display groups of the
    project window and the files listed in them. */
module Options {
  import opened Types

  /** One file of a display group. `fileType` is None for the run-time
      environment files the merge adds, which carry no declared type. */
  datatype FileEntry = FileEntry(
    groupNumber: int,
    number: int,
    fileType: Option<FileType>,
    expanded: bool,
    tvExpOptDlg: bool,
    dave2: bool,
    path: string,
    filename: string,
    rteFlag: bool,
    shared: bool)

  /** One display group and its files, in window order. */
  datatype Group = Group(
    name: string,
    expanded: bool,
    tvExpOptDlg: bool,
    cbSel: bool,
    rteFlag: bool,
    files: seq<FileEntry>)
}
