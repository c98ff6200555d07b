/**
 * The records the crawler handles: a search item as the remote API returns
 * it, the record the crawler keeps for it in memory, and the row that
 * record becomes in the output file.
 */
module Records {
  import opened Wrappers
  import opened Text

  /** One entry of a search page's `items` array (the fields the crawler reads). */
  datatype RepoItem = RepoItem(
    name: string,
    fullName: string,
    description: Option<string>,
    htmlUrl: string,
    stargazersCount: int,
    forksCount: int,
    language: Option<string>)

  /** The in-memory record kept for one repository; it still holds `language`. */
  datatype RepoInfo = RepoInfo(
    name: string,
    fullName: string,
    description: Option<string>,
    url: string,
    stars: int,
    forks: int,
    language: Option<string>)

  /** The record built from a search item: its web address becomes `url`. */
  function ToInfo(item: RepoItem): RepoInfo {
    RepoInfo(item.name, item.fullName, item.description, item.htmlUrl,
             item.stargazersCount, item.forksCount, item.language)
  }

  /** The records built from a run of items, one per item, in order. */
  function Infos(items: seq<RepoItem>): seq<RepoInfo> {
    seq(|items|, i requires 0 <= i < |items| => ToInfo(items[i]))
  }

  /** The header of the output file, which is also the writer's column order. */
  const Header: seq<string> := ["name", "full_name", "url", "stars", "forks", "description"]

  /** Python's str() of an optional description: `None` gives the text "None". */
  function DescriptionText(d: Option<string>): string {
    match d
    case None => "None"
    case Some(t) => t
  }

  /**
   * The dictionary handed to the writer for one record: every value a
   * string, the description cleaned, and no `language` key.
   */
  function RowFields(info: RepoInfo): (row: map<string, string>)
    ensures row.Keys == set k | k in Header
    ensures "language" !in row
    ensures row["description"] == Clean(DescriptionText(info.description))
  {
    map[
      "name" := info.name,
      "full_name" := info.fullName,
      "url" := info.url,
      "stars" := IntToText(info.stars),
      "forks" := IntToText(info.forks),
      "description" := Clean(DescriptionText(info.description))]
  }

  /**
   * How a dictionary writer lays out one dictionary: a key outside the
   * field names is an error, a missing key gives the empty string, and the
   * values come in field-name order.
   */
  function WriteRow(row: map<string, string>, fieldnames: seq<string>): Option<seq<string>> {
    if exists k :: k in row && k !in fieldnames then None
    else Some(seq(|fieldnames|, i requires 0 <= i < |fieldnames| =>
                  if fieldnames[i] in row then row[fieldnames[i]] else ""))
  }

  /** The line written for a record: its six header columns, `language` left out. */
  function ToRow(info: RepoInfo): seq<string> {
    [info.name, info.fullName, info.url, IntToText(info.stars),
     IntToText(info.forks), Clean(DescriptionText(info.description))]
  }

  /**
   * The writer accepts each record's dictionary (it has no key outside the
   * header) and lays its values out as ToRow does: name, full name, url,
   * stars, forks and cleaned description, in header order.
   */
  lemma RowWrittenInHeaderOrder(info: RepoInfo)
    ensures WriteRow(RowFields(info), Header) == Some(ToRow(info))
  {
    var row := RowFields(info);
    assert forall k :: k in row ==> k in Header;
    var w := WriteRow(row, Header);
    assert w.Some?;
    assert w.value == ToRow(info);
  }

  /** The whole output file: the header line, then one line per record. */
  function Table(infos: seq<RepoInfo>): seq<seq<string>> {
    [Header] + seq(|infos|, i requires 0 <= i < |infos| => ToRow(infos[i]))
  }

  /**
   * Every data line of the file has the header's six columns, a description
   * free of line breaks, and star and fork columns that read back as the
   * record's counts.
   */
  lemma TableLines(infos: seq<RepoInfo>, i: int)
    requires 0 <= i < |infos|
    ensures |Table(infos)| == |infos| + 1 && Table(infos)[0] == Header
    ensures |Table(infos)[i + 1]| == |Header|
    ensures '\r' !in Table(infos)[i + 1][5] && '\n' !in Table(infos)[i + 1][5]
    ensures ParseInt(Table(infos)[i + 1][3]) == infos[i].stars
    ensures ParseInt(Table(infos)[i + 1][4]) == infos[i].forks
  {
    ParseIntOfIntToText(infos[i].stars);
    ParseIntOfIntToText(infos[i].forks);
  }
}
