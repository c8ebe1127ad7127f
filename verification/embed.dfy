/**
 * The Discord embed `BuildEmbed` describes a report with: its fixed title and
 * colour, the six fields in their order, the map label, the profile link and the
 * demo status line. Names arrive already stripped of colour codes; the clock
 * reading and the assembly version are inputs.
 */
module Embed {
  import opened Wrappers
  import opened Text

  datatype Field = Field(name: string, value: string, inline: bool)

  datatype Message = Message(
    title: string,
    description: string,
    timestamp: string,
    color: int,
    footer: string,
    fields: seq<Field>)

  /** What the embed is built from: the report, the server and the web front's address. */
  datatype Report = Report(
    serverName: string,            // `server.ServerName.StripColors()`
    game: string,                  // `server.GameCode.ToString()`
    suspect: Option<string>,       // `target.CurrentAlias?.Name.StripColors()`
    reporter: Option<string>,      // `penalty.Punisher?.CurrentAlias?.Name.StripColors()`
    guid: string,                  // `target.NetworkId.ToString()`
    clientId: int,                 // `target.ClientId`
    webfrontUrl: Option<string>)   // `ManualWebfrontUrl`

  const Title: string := "\U{1F3AC} Demo Uploaded for New Report"
  const Color: int := 3066993
  const Attached: string := "\U{2705} Demo file successfully attached"
  const NotFound: string := "\U{274C} No demo file found"
  const ProfilePath: string := "/Client/Profile/"

  /** The map shown: `"Unknown"` in place of a blank name. */
  function MapLabel(mapAtReport: string): (r: string)
    ensures IsBlank(mapAtReport) ==> r == "Unknown"
    ensures !IsBlank(mapAtReport) ==> r == mapAtReport
  {
    if IsBlank(mapAtReport) then "Unknown" else mapAtReport
  }

  /** The label is never blank, and labelling a label changes nothing. */
  lemma MapLabelStable(mapAtReport: string)
    ensures !IsBlank(MapLabel(mapAtReport))
    ensures MapLabel(MapLabel(mapAtReport)) == MapLabel(mapAtReport)
  {
    if IsBlank(mapAtReport) {
      assert !IsWhiteSpace("Unknown"[0]);
    }
  }

  /**
   * The upload path passes `Map?.Name ?? ""` and the no-demo path `Map?.Name ?? "Unknown"`;
   * for the same server map both show the same label.
   */
  lemma MapDefaultsAgree(serverMap: Option<string>)
    ensures MapLabel(serverMap.Coalesce("")) == MapLabel(serverMap.Coalesce("Unknown"))
  {
  }

  /**
   * The profile link: the web front address without trailing `/`, then
   * `/Client/Profile/<id>`; `"Unavailable"` when no usable address is configured.
   */
  function ProfileUrl(webfrontUrl: Option<string>, clientId: int): string {
    var baseUrl := TrimEnd(webfrontUrl.Coalesce(""), '/');
    if !IsBlank(baseUrl) then baseUrl + ProfilePath + IntToString(clientId) else "Unavailable"
  }

  /**
   * A link is built exactly when the address is not blank once its trailing `/`
   * are dropped; it then starts with that address, which does not end in `/`,
   * and ends with the client's number.
   */
  lemma ProfileUrlShape(webfrontUrl: Option<string>, clientId: int)
    ensures var baseUrl := TrimEnd(webfrontUrl.Coalesce(""), '/');
      var url := ProfileUrl(webfrontUrl, clientId);
      && (IsBlank(baseUrl) <==> url == "Unavailable")
      && (!IsBlank(baseUrl) ==>
            && |baseUrl| > 0 && baseUrl[|baseUrl| - 1] != '/'
            && url[..|baseUrl|] == baseUrl
            && url[|baseUrl|..|baseUrl| + |ProfilePath|] == ProfilePath
            && url[|baseUrl| + |ProfilePath|..] == IntToString(clientId))
  {
  }

  /**
   * For a client number in C#'s `int` range and a usable address, the link reads
   * back: it is the trimmed address, then the profile path, then text that
   * `int.Parse` turns into the client's number again.
   */
  lemma ProfileUrlReadsBack(webfrontUrl: Option<string>, clientId: int)
    requires Int32Min <= clientId <= Int32Max
    requires !IsBlank(TrimEnd(webfrontUrl.Coalesce(""), '/'))
    ensures var baseUrl := TrimEnd(webfrontUrl.Coalesce(""), '/');
      var url := ProfileUrl(webfrontUrl, clientId);
      && url[..|baseUrl|] == baseUrl
      && url[|baseUrl|..|baseUrl| + |ProfilePath|] == ProfilePath
      && ParseInt32(url[|baseUrl| + |ProfilePath|..]) == Some(clientId)
  {
    ProfileUrlShape(webfrontUrl, clientId);
    ParseIntToString(clientId);
  }

  /** The status line: which one depends only on whether a demo is attached. */
  function StatusText(hasDemo: bool): (r: string)
    ensures r == Attached <==> hasDemo
    ensures r == NotFound <==> !hasDemo
  {
    if hasDemo then Attached else NotFound
  }

  /** `BuildEmbed(server, penalty, target, hasDemo, mapAtReport)`. */
  function BuildEmbed(r: Report, hasDemo: bool, mapAtReport: string, now: string, version: Option<string>)
    : (m: Message)
    ensures m.title == Title && m.color == Color
    ensures |m.fields| == 6
    ensures m.fields[2] == Field("\U{1F5FA} Map", MapLabel(mapAtReport), true)
    ensures m.fields[5].value == StatusText(hasDemo)
  {
    var suspect := r.suspect.Coalesce("UNKNOWN");
    var reporter := r.reporter.Coalesce("UNKNOWN");
    Message(
      Title,
      "**Target Player:** `" + suspect + "`\n" + "**Reported By:** `" + reporter + "`",
      now,
      Color,
      "DemosToDiscord v" + version.Coalesce("DEV"),
      [ Field("\U{1F5A5} Server", "**" + r.serverName + "**", false),
        Field("\U{1F3AE} Game", r.game, true),
        Field("\U{1F5FA} Map", MapLabel(mapAtReport), true),
        Field("\U{1F464} Player GUID", "`" + r.guid + "`", false),
        Field("\U{1F517} Player Profile", "[View Web Profile](" + ProfileUrl(r.webfrontUrl, r.clientId) + ")", false),
        Field("\U{1F4CE} Demo Status", StatusText(hasDemo), false) ])
  }

  /**
   * The embed of an upload and the embed of a missing demo for the same report
   * differ only in the value of the status field, whatever the title says:
   * replacing that one value turns the second into the first.
   */
  lemma EmbedsDifferOnlyInStatus(r: Report, mapAtReport: string, now: string, version: Option<string>)
    ensures var up := BuildEmbed(r, true, mapAtReport, now, version);
      var none := BuildEmbed(r, false, mapAtReport, now, version);
      && up.title == none.title
      && up.fields[..5] == none.fields[..5]
      && up.fields[5].value != none.fields[5].value
      && up == none.(fields := none.fields[5 := none.fields[5].(value := up.fields[5].value)])
  {
  }
}
