/**
 What each route of the web application answers, as a value. Which files
 exist and whether they can be read are inputs: the views directory, the
 report directory and the Markdown fragment directory are each a `Dir`, the
 result of listing the report directory is `None` when listing fails, and
 `toHtml` stands for the Markdown-to-HTML converter.
 */
module Routes {
  import opened Wrappers
  import opened JsBuiltins
  import opened ReportCatalog

  datatype Outcome =
    | BadRequest                                        // 400 "Missing page name"
    | NotFound                                          // 404
    | Redirect(location: string)                        // 302 to `location`
    | RenderPage(view: string)                          // 200, the named template
    | RenderReports(view: string, reports: seq<Report>) // 200, a report view
    | ServerError                                       // 500
    | Crash    // an exception escapes the directory-listing callback: no response is sent

  /** The template name that is sent to the report list instead of rendered. */
  const LegacyReportPage := "port"
  /** The view that shows a list of reports at `/port` and `/port/:id`. */
  const ReportView := "port"
  /** The view that shows the list of reports at `/port-list`. */
  const ReportListView := "port-list"
  const ReportListPath := "/port-list"
  const TemplateExtension := ".ejs"

  /** `GET /page?name=<name>`. A missing or empty name is refused before the
      template is looked up; a name without a template is not found; `port`
      redirects to the report list; any other name renders its template. */
  function Page(name: Option<string>, views: Dir): (o: Outcome)
    ensures o == BadRequest <==> name.None? || name.value == ""
    ensures o == NotFound <==> name.Some? && name.value != "" && views(name.value + TemplateExtension).Missing?
    ensures o.Redirect? <==> name == Some(LegacyReportPage) && !views(LegacyReportPage + TemplateExtension).Missing?
    ensures o.Redirect? ==> o.location == ReportListPath
    ensures o.RenderPage? <==>
      name.Some? && name.value !in {"", LegacyReportPage} && !views(name.value + TemplateExtension).Missing?
    ensures o.RenderPage? ==> name == Some(o.view)
    ensures o.BadRequest? || o.NotFound? || o.Redirect? || o.RenderPage?
  {
    if name.None? || name.value == "" then BadRequest
    else if views(name.value + TemplateExtension).Missing? then NotFound
    else if name.value == LegacyReportPage then Redirect(ReportListPath)
    else RenderPage(name.value)
  }

  /** `GET /port-list` (view `port-list`) and the legacy `GET /port` (view
      `port`): list the report directory, keep the `.md` entries and render
      one record per entry, in listing order. */
  function ListReports(view: string, listing: Option<seq<string>>, reportDir: Dir, toHtml: string -> string)
    : (o: Outcome)
    ensures o == ServerError <==> listing.None?
    ensures listing.Some? ==>
      (o == Crash <==> exists k :: 0 <= k < |Keep(listing.value)| && !reportDir(Keep(listing.value)[k]).Readable?)
    ensures o.RenderReports? ==> listing.Some? && o.view == view
    ensures o.RenderReports? ==> |o.reports| == |Keep(listing.value)|
    ensures o.RenderReports? ==> forall k :: 0 <= k < |o.reports| ==>
      var f := Keep(listing.value)[k];
      o.reports[k] == ReportOf(StripMd(f), reportDir(f).text, toHtml)
    ensures o.ServerError? || o.Crash? || o.RenderReports?
  {
    match listing
    case None => ServerError
    case Some(files) =>
      match Reports(Keep(files), reportDir, toHtml)
      case None => Crash
      case Some(reports) => RenderReports(view, reports)
  }

  /** `GET /port`: the legacy route lists the reports itself with the `port`
      view; it does not redirect. */
  function PortLegacy(listing: Option<seq<string>>, reportDir: Dir, toHtml: string -> string): (o: Outcome)
    ensures o == ServerError <==> listing.None?
    ensures !o.Redirect?
    ensures o.RenderReports? ==> o.view == ReportView && Some(o.reports) == Reports(Keep(listing.value), reportDir, toHtml)
    ensures listing.Some? ==> (o == Crash <==> Reports(Keep(listing.value), reportDir, toHtml).None?)
    ensures listing.Some? && Reports(Keep(listing.value), reportDir, toHtml).Some? ==> o.RenderReports?
  {
    ListReports(ReportView, listing, reportDir, toHtml)
  }

  /** `GET /port-list`: the same list, rendered with the `port-list` view. */
  function PortList(listing: Option<seq<string>>, reportDir: Dir, toHtml: string -> string): (o: Outcome)
    ensures o == ServerError <==> listing.None?
    ensures !o.Redirect?
    ensures o.RenderReports? ==> o.view == ReportListView && Some(o.reports) == Reports(Keep(listing.value), reportDir, toHtml)
    ensures listing.Some? ==> (o == Crash <==> Reports(Keep(listing.value), reportDir, toHtml).None?)
    ensures listing.Some? && Reports(Keep(listing.value), reportDir, toHtml).Some? ==> o.RenderReports?
  {
    ListReports(ReportListView, listing, reportDir, toHtml)
  }

  /** The two listing routes answer alike on the same directory and differ
      only in the view: one renders exactly when the other does, with the
      same records. */
  lemma ListingRoutesAgree(listing: Option<seq<string>>, reportDir: Dir, toHtml: string -> string)
    ensures PortLegacy(listing, reportDir, toHtml).RenderReports? <==> PortList(listing, reportDir, toHtml).RenderReports?
    ensures PortLegacy(listing, reportDir, toHtml).RenderReports? ==>
      PortLegacy(listing, reportDir, toHtml).reports == PortList(listing, reportDir, toHtml).reports
    ensures PortLegacy(listing, reportDir, toHtml).Crash? <==> PortList(listing, reportDir, toHtml).Crash?
  {
  }

  /** A listing without report files is an empty list, not an error. */
  lemma NoReportFilesListsNothing(view: string, files: seq<string>, reportDir: Dir, toHtml: string -> string)
    requires forall k :: 0 <= k < |files| ==> !IsReportFile(files[k])
    ensures ListReports(view, Some(files), reportDir, toHtml) == RenderReports(view, [])
    ensures PortLegacy(Some(files), reportDir, toHtml) == RenderReports(ReportView, [])
    ensures PortList(Some(files), reportDir, toHtml) == RenderReports(ReportListView, [])
  {
    var kept := Keep(files);
    if |kept| > 0 {
      FilterCounts(files, IsReportFile, kept[0]);
    }
  }

  /** `GET /port/:id`: the file `<id>.md` of the report directory, shown as a
      one-record list whose fields are parsed from `id` itself. */
  function ReportById(id: string, reportDir: Dir, toHtml: string -> string): (o: Outcome)
    ensures o == NotFound <==> reportDir(id + Extension).Missing?
    ensures o == ServerError <==> reportDir(id + Extension).Unreadable?
    ensures o.RenderReports? <==> reportDir(id + Extension).Readable?
    ensures o.RenderReports? ==> o.view == ReportView && |o.reports| == 1
    ensures o.RenderReports? ==>
      var h := ParseStem(id);
      o.reports[0] == Report(h.language, h.time, h.title, toHtml(reportDir(id + Extension).text))
  {
    match reportDir(id + Extension)
    case Missing => NotFound
    case Unreadable => ServerError
    case Readable(text) => RenderReports(ReportView, [ReportOf(id, text, toHtml)])
  }

  /** The record shown for an id is the one the list shows for the file
      `<id>.md`, as long as `id` has no `.md` in it. */
  lemma ReportByIdMatchesListing(id: string, reportDir: Dir, toHtml: string -> string)
    requires forall j: nat :: !OccursAt(id, Extension, j)
    requires reportDir(id + Extension).Readable?
    ensures Reports([id + Extension], reportDir, toHtml) == Some(ReportById(id, reportDir, toHtml).reports)
  {
    StripMdOfStem(id);
    var f := id + Extension;
    var r := Reports([f], reportDir, toHtml);
    assert r.Some? && |r.value| == 1;
    assert r.value[0] == ReportOf(id, reportDir(f).text, toHtml);
    assert r.value == [r.value[0]];
  }

  /** The `renderMarkdown(name)` helper offered to every template: the HTML of
      the fragment `<name>.md`, or the empty string when there is no such
      file. None when reading an existing fragment throws. */
  function RenderMarkdown(name: string, fragments: Dir, toHtml: string -> string): (r: Option<string>)
    ensures fragments(name + Extension).Missing? ==> r == Some("")
    ensures r.None? <==> fragments(name + Extension).Unreadable?
    ensures fragments(name + Extension).Readable? ==> r == Some(toHtml(fragments(name + Extension).text))
  {
    match fragments(name + Extension)
    case Missing => Some("")
    case Unreadable => None
    case Readable(text) => Some(toHtml(text))
  }
}
