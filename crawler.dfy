/**
 * One run of the crawler's background task: validate the form's inputs,
 * save or forget the token, collect the records page by page and write
 * them out. Side effects are returned as a trace, in the order they happen.
 */
module Crawler {
  import opened Wrappers
  import opened Records
  import opened Pagination

  /** The form's inputs, read once when the task starts. */
  datatype Request = Request(
    token: string,
    keyword: string,
    count: int,
    savePath: string,
    saveToken: bool)

  /** The inputs the task accepts: every text field filled in and a positive count. */
  predicate IsValid(req: Request) {
    req.token != "" && req.keyword != "" && req.count > 0 && req.savePath != ""
  }

  /** An observable side effect of a run. */
  datatype Effect =
    | SaveConfig(token: string)                        // write the token to the config file
    | RemoveConfig                                     // delete the config file
    | FetchPage(keyword: string, token: string, page: nat)  // one request to the search endpoint
    | WriteFile(lines: seq<seq<string>>)               // create the output file with these lines

  /** Remembering the token writes it out; forgetting it deletes a config file that exists. */
  function ConfigEffects(req: Request, configExists: bool): seq<Effect> {
    if req.saveToken then [SaveConfig(req.token)]
    else if configExists then [RemoveConfig]
    else []
  }

  /** The requests for the given pages, in that order. */
  function FetchEffects(req: Request, pages: seq<nat>): seq<Effect> {
    seq(|pages|, i requires 0 <= i < |pages| => FetchPage(req.keyword, req.token, pages[i]))
  }

  /** The loop over the collected records: the header line, then one line per record. */
  method WriteLines(repos: seq<RepoInfo>) returns (lines: seq<seq<string>>)
    ensures lines == Table(repos)
  {
    lines := [Header];
    for i := 0 to |repos|
      invariant lines == [Header] + seq(i, j requires 0 <= j < i => ToRow(repos[j]))
    {
      lines := lines + [ToRow(repos[i])];
    }
  }

  /**
   * The task. Invalid inputs are rejected before anything else happens. A
   * valid run updates the config file, requests pages 1..k, and either fails
   * with the remote error, writing no file, or writes the header and one line
   * per collected record and reports how many records it saved.
   */
  method Run(req: Request, configExists: bool, fetch: nat -> Response)
    returns (outcome: Result<nat, CrawlError>, effects: seq<Effect>)
    ensures !IsValid(req) ==> outcome == Err(InvalidInput) && effects == []
    ensures IsValid(req) ==>
      var before := ConfigEffects(req, configExists) +
                    FetchEffects(req, PageNumbers(PagesRequested(req.count, fetch)));
      match Collected(req.count, fetch)
      case Err(e) => outcome == Err(e) && effects == before
      case Ok(rs) => outcome == Ok(|rs|) && |rs| <= req.count &&
                     effects == before + [WriteFile(Table(rs))]
    ensures outcome.Err? ==> forall e :: e in effects ==> !e.WriteFile?
  {
    if !IsValid(req) {
      return Err(InvalidInput), [];
    }
    effects := ConfigEffects(req, configExists);
    var collected, requested := Collect(req.count, fetch);
    effects := effects + FetchEffects(req, requested);
    match collected
    case Err(e) =>
      outcome := Err(e);
    case Ok(repos) =>
      var lines := WriteLines(repos);
      effects := effects + [WriteFile(lines)];
      outcome := Ok(|repos|);
  }
}
