/** The body of the `mrchead` command once the header has been decoded: a table
    titled with the file name holding three rows in a fixed order, and the label
    tree. The decoded header, the file's size on disk and the text of the voxel
    spacing are inputs. */
module Report {
  import opened Format
  import HumanSize
  import ImageShape
  import Labels

  /** The header fields the report shows. */
  datatype Header = Header(nx: int, ny: int, nz: int, labels: seq<Labels.Row>)

  /** One table row: attribute text and value text. */
  datatype Row = Row(attribute: string, value: string)

  datatype Report = Report(title: string, rows: seq<Row>, tree: Labels.LabelTree)

  const SizeAttribute: string := "size on disk"
  const ShapeAttribute: string := "image shape: nx | ny | nz"
  /** The spacing attribute as the source text spells it: "Å" stored as the two
      characters U+00C3 U+2026 (its UTF-8 bytes read as Windows-1252). */
  const SpacingAttribute: string := "spacing (\U{00C3}\U{2026}): dx | dy | dz"

  function Title(fileName: string): string {
    "Header for " + fileName
  }

  /** The three table rows, in the order the command adds them. */
  function TableRows(sizeOnDisk: nat, h: Header, spacingText: string): (rows: seq<Row>)
    ensures |rows| == 3
    ensures rows[0].attribute == SizeAttribute && rows[1].attribute == ShapeAttribute
      && rows[2].attribute == SpacingAttribute
    ensures rows[2].value == spacingText
  {
    [ Row(SizeAttribute, HumanSize.SizeText(sizeOnDisk, HumanSize.DefaultSuffix)),
      Row(ShapeAttribute, ImageShape.ShapeText(h.nx, h.ny, h.nz)),
      Row(SpacingAttribute, spacingText) ]
  }

  /** The report the command prints for a decoded header. */
  function ReportOf(fileName: string, sizeOnDisk: nat, h: Header, spacingText: string): Report {
    Report(Title(fileName), TableRows(sizeOnDisk, h, spacingText),
           Labels.LabelTree(Labels.RootMarker, Labels.NonEmptyRows(h.labels)))
  }

  /** The command body: format the size, the shape and the spacing, add the three
      rows, then build the label tree. */
  method Mrchead(fileName: string, sizeOnDisk: nat, h: Header, spacingText: string)
    returns (report: Report)
    ensures report == ReportOf(fileName, sizeOnDisk, h, spacingText)
  {
    var sizeText := HumanSize.HumanFilesize(sizeOnDisk, HumanSize.DefaultSuffix);
    var shapeText := ImageShape.ShapeText(h.nx, h.ny, h.nz);
    var rows := [Row(SizeAttribute, sizeText), Row(ShapeAttribute, shapeText),
                 Row(SpacingAttribute, spacingText)];
    var tree := Labels.BuildLabelTree(h.labels);
    report := Report(Title(fileName), rows, tree);
  }

  /** The table shows the header as read: the shape row reads back as exactly
      nx, ny and nz, the size row ends with the byte unit, and the label tree holds
      exactly the non-empty label rows. */
  lemma ReportShowsHeader(fileName: string, sizeOnDisk: nat, h: Header, spacingText: string)
    ensures var r := ReportOf(fileName, sizeOnDisk, h, spacingText);
      && ImageShape.ParseShape(r.rows[1].value) == ImageShape.Some((h.nx, h.ny, h.nz))
      && (var v := r.rows[0].value; v[|v| - 1..] == HumanSize.DefaultSuffix)
      && (forall x :: x in r.tree.children <==> x in h.labels && |x| > 0)
  {
    ImageShape.ShapeRoundTrip(h.nx, h.ny, h.nz);
    HumanSize.TextEnding(sizeOnDisk, HumanSize.DefaultSuffix);
    Labels.NonEmptyRowsMembers(h.labels);
  }

  /** Worked value: a 1 MiB file with a 10 x 10 x 10 image. */
  lemma ReportExample(fileName: string, spacingText: string, labels: seq<Labels.Row>)
    ensures var r := ReportOf(fileName, 1048576, Header(10, 10, 10, labels), spacingText);
      && r.rows[0] == Row("size on disk", "1.0 MiB")
      && r.rows[1] == Row("image shape: nx | ny | nz", "   10    10    10")
  {
    HumanSize.TextOneMebi();
    ImageShape.ShapeExamples();
  }
}
