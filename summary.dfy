/** The report side of a scan: the per-repository `summary` record, the
    numbers in each report row, the column header, the output-format enum
    and the format dispatch of `summaries.print`. The table and JSON
    renderers themselves are not modelled. */
module Summary {
  import opened Wrappers

  /** `summary`: counts and byte sizes of all images and of the expired ones
      in one repository. */
  datatype Summary = Summary(
    repo: string,
    expiredImages: int,
    totalImages: int,
    expiredImageSize: int,
    totalImageSize: int)

  /** `NewRepoSummary`, `Add` and `Expire` live outside the model; they are
      abstracted as one row per repository, `Add` counting a record into the
      totals and `Expire` into the expired figures. */
  function NewRepoSummary(repo: string): Summary
  {
    Summary(repo, 0, 0, 0, 0)
  }

  function Add(s: Summary, size: int): Summary
  {
    s.(totalImages := s.totalImages + 1, totalImageSize := s.totalImageSize + size)
  }

  function Expire(s: Summary, size: int): Summary
  {
    s.(expiredImages := s.expiredImages + 1, expiredImageSize := s.expiredImageSize + size)
  }

  const TwoTo64: int := 0x1_0000_0000_0000_0000

  /** Go's `uint64(x)` conversion of an `int64`: wraps modulo 2^64. */
  function Uint64(x: int): nat
  {
    x % TwoTo64
  }

  /** One cell of a report row: the repository name, or a `"%d (%s)"` cell
      holding a count and the byte size handed to `humanize.Bytes`. */
  datatype Cell = Name(name: string) | Figure(count: int, bytes: nat)

  /** `summary.row`: repository, total, expired (printed negated) and kept.
      The row has one cell per header column, and the kept figures are the
      totals less the expired ones. */
  function Row(s: Summary): (r: seq<Cell>)
    ensures |r| == |Header()|
    ensures r[0] == Name(s.repo)
    ensures r[1].Figure? && r[2].Figure? && r[3].Figure?
    ensures r[3].count == r[1].count + r[2].count
    ensures r[1].count == s.totalImages && r[2].count == -s.expiredImages
  {
    [ Name(s.repo),
      Figure(s.totalImages, Uint64(s.totalImageSize)),
      Figure(-s.expiredImages, Uint64(s.expiredImageSize)),
      Figure(s.totalImages - s.expiredImages, Uint64(s.totalImageSize - s.expiredImageSize)) ]
  }

  /** `summaries.header` */
  function Header(): seq<string>
  {
    ["repository", "total", "expired", "keep"]
  }

  /** For a summary whose expired part lies within its total, and whose sizes
      fit an `int64`, the kept cell shows exactly what is left, with no
      wrap-around in the `uint64` conversions. */
  lemma RowKeepsRemainder(s: Summary)
    requires 0 <= s.expiredImages <= s.totalImages
    requires 0 <= s.expiredImageSize <= s.totalImageSize < TwoTo64 / 2
    ensures Row(s)[3].count >= 0
    ensures Row(s)[1].bytes == s.totalImageSize && Row(s)[2].bytes == s.expiredImageSize
    ensures Row(s)[3].bytes + Row(s)[2].bytes == Row(s)[1].bytes
  {
  }

  /** `outputFormat`: `formatTable` and `formatJSON` are `iota + 1`, so 1
      and 2; 0 is what a failed parse returns. */
  type OutputFormat = int

  const FormatTable: OutputFormat := 1
  const FormatJSON: OutputFormat := 2

  /** `outputFormat.String` */
  function FormatName(f: OutputFormat): string
  {
    if f == FormatTable then "table"
    else if f == FormatJSON then "json"
    else "unknown"
  }

  /** `newOutputFormatFrom`: the format named by `s`, or format 0 and an
      error. It accepts exactly the names `FormatName` prints. */
  function NewOutputFormatFrom(s: string): (r: (OutputFormat, Option<string>))
    ensures r.1.None? <==> s == "table" || s == "json"
    ensures r.1.None? ==> FormatName(r.0) == s && r.0 != 0
    ensures r.1.Some? ==> r.0 == 0 && r.1.value == "invalid format name: " + s
  {
    match s
    case "table" => (FormatTable, None)
    case "json" => (FormatJSON, None)
    case _ => (0, Some("invalid format name: " + s))
  }

  /** Printing a format and parsing it back gives the format again. */
  lemma FormatRoundTrip(f: OutputFormat)
    requires f == FormatTable || f == FormatJSON
    ensures NewOutputFormatFrom(FormatName(f)) == (f, None)
  {
  }

  /** Every other value prints as "unknown", which does not parse. */
  lemma UnknownFormatDoesNotParse(f: OutputFormat)
    requires f != FormatTable && f != FormatJSON
    ensures FormatName(f) == "unknown"
    ensures NewOutputFormatFrom(FormatName(f)).1.Some?
  {
  }

  /** The two formats are distinct and neither is the zero value. */
  lemma FormatsDistinct()
    ensures FormatTable != FormatJSON && FormatTable != 0 && FormatJSON != 0
  {
  }

  /** Which renderer `summaries.print` hands the report to. */
  datatype Renderer = TableRenderer | JsonRenderer

  /** `summaries.print`'s dispatch: a renderer for the two known formats and
      an error naming the format (through `String`) for any other. It
      succeeds exactly for the formats `newOutputFormatFrom` can return. */
  function Print(format: OutputFormat): (r: Result<Renderer>)
    ensures r.Ok? <==> NewOutputFormatFrom(FormatName(format)).1.None?
    ensures r.Ok? ==> (r.value == TableRenderer <==> format == FormatTable)
    ensures r.Err? ==> r.error == "unknown output format: unknown"
  {
    if format == FormatTable then Ok(TableRenderer)
    else if format == FormatJSON then Ok(JsonRenderer)
    else Err("unknown output format: " + FormatName(format))
  }
}
