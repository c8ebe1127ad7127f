/**
 * What `HandlePenaltyAsync` does with a penalty event: nothing, one "no demo"
 * message, or one upload of the selected demo (and sidecar); and the two waits
 * around it, the polling of `WaitForDemoAsync` and the bounded
 * `WaitForMapChangeAsync`. The clock, the file system and the cancellation
 * token appear as observations passed in.
 */
module Workflow {
  import opened Wrappers
  import opened Text
  import opened Matcher

  /** `EFPenalty.PenaltyType`: only `Report` concerns this plugin. */
  datatype PenaltyType = Report | OtherPenalty(name: string)

  /** The server a client is on, as far as the workflow reads it. */
  datatype Server = Server(gameCode: string, mapName: Option<string>, gametype: Option<string>)

  datatype Client = Client(currentServer: Option<Server>)

  /** `ClientPenaltyEvent`: the penalised client (when known) and the penalty's type. */
  datatype Event = Event(client: Option<Client>, penalty: PenaltyType)

  /** The configuration values the workflow reads. */
  datatype Config = Config(t5DemoPath: string, t6DemoPath: string, maxLookbackMinutes: int)

  /**
   * One pass of the `WaitForDemoAsync` loop: whether the deadline is still ahead
   * and the token not yet cancelled when the loop condition is tested, whether
   * `Directory.GetFiles` throws on the folder, what the folder holds, which paths
   * exist, and whether the token is cancelled during the retry delay.
   */
  datatype Round = Round(
    beforeExpiry: bool,
    cancelRequested: bool,
    listingFails: bool,
    files: seq<FileEntry>,
    existing: set<string>,
    cancelledInDelay: bool)

  /**
   * What `WaitForDemoAsync` ends with: a pair, `null`, an
   * `OperationCanceledException` from the delay, or an I/O exception from the
   * folder listing.
   */
  datatype PollOutcome = Located(demoPath: string, jsonPath: Option<string>) | NotLocated | Cancelled | Faulted

  /** What the handler does in the end. */
  datatype Action =
    | Ignore                                                      // returns without a message
    | SendNoDemo(mapAtReport: string)                             // `SendNoDemoAsync`
    | Upload(demoPath: string, jsonPath: Option<string>, mapAtReport: string)  // `UploadAsync`
    | Aborted                                                     // an exception escapes the wait

  /**
   * The number of Discord messages an action attempts to post. An upload whose
   * copy or post fails is logged by `UploadAsync` and posts nothing.
   */
  function Messages(a: Action): nat {
    match a
    case SendNoDemo(_) => 1
    case Upload(_, _, _) => 1
    case _ => 0
  }

  // ---------------------------------------------------------------------------
  // WaitForDemoAsync
  // ---------------------------------------------------------------------------

  /** The loop condition `DateTime.UtcNow < expire && !token.IsCancellationRequested`. */
  predicate Active(r: Round) {
    r.beforeExpiry && !r.cancelRequested
  }

  /** The pass enters the loop body and `FindDemo` lists the folder without throwing. */
  predicate Searched(r: Round) {
    Active(r) && !r.listingFails
  }

  /** What `FindDemo` would select on each pass. */
  function Selections(q: Query, isT6: bool, rounds: seq<Round>): (found: seq<Selection>)
    ensures |found| == |rounds|
    ensures forall i :: 0 <= i < |rounds| ==> found[i] == SelectRef(q, rounds[i].files, isT6, rounds[i].existing)
  {
    seq(|rounds|, i requires 0 <= i < |rounds| => SelectRef(q, rounds[i].files, isT6, rounds[i].existing))
  }

  /**
   * How one pass with selection `f` ends the loop, or `None` when the loop goes
   * round again: the loop condition fails, the listing throws, a demo is found,
   * or the token fires during the delay.
   */
  function Stop(r: Round, f: Selection): Option<PollOutcome> {
    if !Active(r) then Some(NotLocated)
    else if r.listingFails then Some(Faulted)
    else
      match f
      case Found(demo, json) => Some(Located(demo, json))
      case NoDemo => if r.cancelledInDelay then Some(Cancelled) else None
  }

  /**
   * The polling loop, given each pass's selection: the first pass that stops it
   * decides the outcome. Running out of observed passes stands for the deadline
   * passing.
   */
  function Poll(rounds: seq<Round>, found: seq<Selection>): PollOutcome
    requires |found| == |rounds|
  {
    if |rounds| == 0 then NotLocated
    else
      match Stop(rounds[0], found[0])
      case Some(o) => o
      case None => Poll(rounds[1..], found[1..])
  }

  /** `WaitForDemoAsync`: the polling loop over what `FindDemo` sees on each pass. */
  function WaitForDemo(q: Query, isT6: bool, rounds: seq<Round>): PollOutcome {
    Poll(rounds, Selections(q, isT6, rounds))
  }

  /** Pass `k` is reached: no earlier pass stopped the loop. */
  predicate Reached(rounds: seq<Round>, found: seq<Selection>, k: int)
    requires |found| == |rounds| && 0 <= k <= |rounds|
  {
    forall j :: 0 <= j < k ==> Stop(rounds[j], found[j]).None?
  }

  /** Reaching pass `k + 1` is reaching pass `k` of the remaining passes after a fruitless first one. */
  lemma ReachedTail(rounds: seq<Round>, found: seq<Selection>, k: nat)
    requires |found| == |rounds| && 0 < |rounds| && k < |rounds|
    requires Stop(rounds[0], found[0]).None?
    ensures Reached(rounds, found, k + 1) <==> Reached(rounds[1..], found[1..], k)
  {
  }

  /**
   * A reached pass that stops the loop decides its outcome; when every observed
   * pass is reached and none stops it, the deadline has passed.
   */
  lemma {:induction false} PollAt(rounds: seq<Round>, found: seq<Selection>, k: nat)
    requires |found| == |rounds| && k <= |rounds|
    requires Reached(rounds, found, k)
    requires k == |rounds| || Stop(rounds[k], found[k]).Some?
    ensures Poll(rounds, found) == if k == |rounds| then NotLocated else Stop(rounds[k], found[k]).value
  {
    if k > 0 {
      assert Stop(rounds[0], found[0]).None?;
      ReachedTail(rounds, found, k - 1);
      assert rounds[1..][k - 1..] == rounds[k..] && found[1..][k - 1..] == found[k..];
      PollAt(rounds[1..], found[1..], k - 1);
    }
  }

  /**
   * The loop returns a demo exactly when some reached pass searches the folder
   * and finds one, and then it returns that pass's selection.
   */
  lemma {:induction false} PollFirstFound(rounds: seq<Round>, found: seq<Selection>)
    requires |found| == |rounds|
    ensures Poll(rounds, found).Located? <==>
      exists k :: 0 <= k < |rounds| && Reached(rounds, found, k) && Searched(rounds[k]) && found[k].Found?
    ensures forall k :: 0 <= k < |rounds| && Reached(rounds, found, k) && Searched(rounds[k]) && found[k].Found? ==>
      Poll(rounds, found) == Located(found[k].demoPath, found[k].jsonPath)
  {
    forall k | 0 <= k < |rounds| && Reached(rounds, found, k) && Searched(rounds[k]) && found[k].Found?
      ensures Poll(rounds, found) == Located(found[k].demoPath, found[k].jsonPath)
    {
      PollAt(rounds, found, k);
    }
    if |rounds| > 0 && Stop(rounds[0], found[0]).None? {
      PollFirstFound(rounds[1..], found[1..]);
      if Poll(rounds, found).Located? {
        var k :| 0 <= k < |rounds| - 1 && Reached(rounds[1..], found[1..], k) && Searched(rounds[1..][k])
          && found[1..][k].Found?;
        ReachedTail(rounds, found, k);
        assert Reached(rounds, found, k + 1);
      }
    } else if |rounds| > 0 && Poll(rounds, found).Located? {
      assert Reached(rounds, found, 0);
    }
  }

  /**
   * The loop throws `OperationCanceledException` only when the token fires during
   * the delay of a reached pass that searched the folder and found nothing; the
   * converse is `PollAt`.
   */
  lemma {:induction false} PollCancelled(rounds: seq<Round>, found: seq<Selection>)
    requires |found| == |rounds|
    requires Poll(rounds, found).Cancelled?
    ensures exists k :: (0 <= k < |rounds| && Reached(rounds, found, k)
                         && Searched(rounds[k]) && found[k] == NoDemo && rounds[k].cancelledInDelay)
  {
    if Stop(rounds[0], found[0]).None? {
      PollCancelled(rounds[1..], found[1..]);
      var k :| 0 <= k < |rounds| - 1 && Reached(rounds[1..], found[1..], k)
        && Searched(rounds[1..][k]) && found[1..][k] == NoDemo && rounds[1..][k].cancelledInDelay;
      ReachedTail(rounds, found, k);
      assert Reached(rounds, found, k + 1);
    } else {
      assert Reached(rounds, found, 0);
    }
  }

  /** The loop faults only when a reached pass enters the body and its listing throws. */
  lemma {:induction false} PollFaulted(rounds: seq<Round>, found: seq<Selection>)
    requires |found| == |rounds|
    requires Poll(rounds, found).Faulted?
    ensures exists k :: (0 <= k < |rounds| && Reached(rounds, found, k)
                         && Active(rounds[k]) && rounds[k].listingFails)
  {
    if Stop(rounds[0], found[0]).None? {
      PollFaulted(rounds[1..], found[1..]);
      var k :| 0 <= k < |rounds| - 1 && Reached(rounds[1..], found[1..], k)
        && Active(rounds[1..][k]) && rounds[1..][k].listingFails;
      ReachedTail(rounds, found, k);
      assert Reached(rounds, found, k + 1);
    } else {
      assert Reached(rounds, found, 0);
    }
  }

  /** A demo the loop returns is one of the passes' selections, sidecar included. */
  lemma {:induction false} PollReturnsSelection(rounds: seq<Round>, found: seq<Selection>)
    requires |found| == |rounds|
    requires Poll(rounds, found).Located?
    ensures exists k :: 0 <= k < |found| && found[k] == Found(Poll(rounds, found).demoPath, Poll(rounds, found).jsonPath)
  {
    if Stop(rounds[0], found[0]).None? {
      PollReturnsSelection(rounds[1..], found[1..]);
      var k :| 0 <= k < |found| - 1 && found[1..][k] == Found(Poll(rounds, found).demoPath, Poll(rounds, found).jsonPath);
      assert found[k + 1] == found[1..][k];
    }
  }

  /** A T5 wait never comes back with a sidecar. */
  lemma NoSidecarOnT5(q: Query, rounds: seq<Round>)
    ensures WaitForDemo(q, false, rounds).Located? ==> WaitForDemo(q, false, rounds).jsonPath.None?
  {
    var found := Selections(q, false, rounds);
    if Poll(rounds, found).Located? {
      PollReturnsSelection(rounds, found);
      var k :| 0 <= k < |found| && found[k] == Found(Poll(rounds, found).demoPath, Poll(rounds, found).jsonPath);
      assert found[k] == SelectRef(q, rounds[k].files, false, rounds[k].existing);
    }
  }

  // ---------------------------------------------------------------------------
  // HandlePenaltyAsync
  // ---------------------------------------------------------------------------

  /** `server.GameCode.ToString().ToUpperInvariant()` compared with a game name. */
  predicate IsGame(s: Server, name: string) {
    ToUpper(s.gameCode) == name
  }

  /** The events the handler acts on: a known client on a known T5 or T6 server, reported. */
  predicate Handled(evt: Event) {
    && evt.client.Some?
    && evt.penalty == Report
    && evt.client.value.currentServer.Some?
    && (IsGame(evt.client.value.currentServer.value, "T6") || IsGame(evt.client.value.currentServer.value, "T5"))
  }

  /** The demo folder the handler watches for a server. */
  function DemoFolder(cfg: Config, s: Server): string {
    if IsGame(s, "T6") then cfg.t6DemoPath else cfg.t5DemoPath
  }

  /**
   * `HandlePenaltyAsync`. `folders` are the directories that exist, `reportTime`
   * the clock reading taken after the folder check, `rounds` the passes of the
   * demo wait, and `laterMap` the server's map when the no-demo message is sent
   * after the wait. The waits after a demo is located only delay the upload.
   * Only events it handles lead anywhere, and it waits, uploads or aborts only
   * once the demo folder is known to exist.
   */
  function HandlePenalty(evt: Event, cfg: Config, folders: set<string>, reportTime: int,
                         rounds: seq<Round>, laterMap: Option<string>): (a: Action)
    ensures a.SendNoDemo? ==> Handled(evt)
    ensures a.Upload? || a == Aborted ==>
      Handled(evt) && DemoFolder(cfg, evt.client.value.currentServer.value) in folders
  {
    if evt.client.None? then Ignore
    else if evt.penalty != Report then Ignore
    else if evt.client.value.currentServer.None? then Ignore
    else
      var server := evt.client.value.currentServer.value;
      var isT6 := IsGame(server, "T6");
      var isT5 := IsGame(server, "T5");
      if !isT6 && !isT5 then Ignore
      else if DemoFolder(cfg, server) !in folders then SendNoDemo(server.mapName.Coalesce("Unknown"))
      else
        var expectedMap := server.mapName.Coalesce("");
        var expectedMode := server.gametype.Coalesce("");
        var q := Query(expectedMap, expectedMode, reportTime, cfg.maxLookbackMinutes);
        match WaitForDemo(q, isT6, rounds)
        case NotLocated => SendNoDemo(laterMap.Coalesce("Unknown"))
        case Cancelled => Aborted
        case Faulted => Aborted
        case Located(demo, json) => Upload(demo, json, expectedMap)
  }

  /**
   * The handler ignores exactly the events it does not handle, and attempts no
   * message only then or when an exception escapes the wait.
   */
  lemma IgnoredIffUnhandled(evt: Event, cfg: Config, folders: set<string>, reportTime: int,
                            rounds: seq<Round>, laterMap: Option<string>)
    ensures HandlePenalty(evt, cfg, folders, reportTime, rounds, laterMap) == Ignore <==> !Handled(evt)
    ensures Messages(HandlePenalty(evt, cfg, folders, reportTime, rounds, laterMap)) == 0 <==>
      !Handled(evt) || HandlePenalty(evt, cfg, folders, reportTime, rounds, laterMap) == Aborted
  {
  }

  /**
   * A handled report whose demo folder is missing gets one no-demo message naming
   * the current map, whatever the folder would have held: no polling happens.
   */
  lemma MissingFolderNoDemo(evt: Event, cfg: Config, folders: set<string>, reportTime: int,
                            rounds1: seq<Round>, rounds2: seq<Round>, laterMap: Option<string>)
    requires Handled(evt)
    requires DemoFolder(cfg, evt.client.value.currentServer.value) !in folders
    ensures HandlePenalty(evt, cfg, folders, reportTime, rounds1, laterMap)
         == SendNoDemo(evt.client.value.currentServer.value.mapName.Coalesce("Unknown"))
    ensures HandlePenalty(evt, cfg, folders, reportTime, rounds1, laterMap)
         == HandlePenalty(evt, cfg, folders, reportTime, rounds2, laterMap)
  {
  }

  /**
   * A handled report with its folder present uploads exactly when the wait locates
   * a demo, and then uploads that demo with the map read at report time; a wait
   * that throws aborts the handler; a T5 server never uploads a sidecar.
   */
  lemma UploadIffLocated(evt: Event, cfg: Config, folders: set<string>, reportTime: int,
                         rounds: seq<Round>, laterMap: Option<string>)
    requires Handled(evt)
    requires DemoFolder(cfg, evt.client.value.currentServer.value) in folders
    ensures var server := evt.client.value.currentServer.value;
      var q := Query(server.mapName.Coalesce(""), server.gametype.Coalesce(""), reportTime, cfg.maxLookbackMinutes);
      var w := WaitForDemo(q, IsGame(server, "T6"), rounds);
      var a := HandlePenalty(evt, cfg, folders, reportTime, rounds, laterMap);
      && (a.Upload? <==> w.Located?)
      && (w.Located? ==> a == Upload(w.demoPath, w.jsonPath, server.mapName.Coalesce("")))
      && (w.NotLocated? ==> a == SendNoDemo(laterMap.Coalesce("Unknown")))
      && (w.Cancelled? || w.Faulted? ==> a == Aborted)
      && (!IsGame(server, "T6") && a.Upload? ==> a.jsonPath.None?)
  {
    var server := evt.client.value.currentServer.value;
    var q := Query(server.mapName.Coalesce(""), server.gametype.Coalesce(""), reportTime, cfg.maxLookbackMinutes);
    NoSidecarOnT5(q, rounds);
  }

  // ---------------------------------------------------------------------------
  // WaitForMapChangeAsync
  // ---------------------------------------------------------------------------

  /** `server.Map?.Name ?? "UNKNOWN"`. */
  function MapOrUnknown(m: Option<string>): string {
    m.Coalesce("UNKNOWN")
  }

  const MapChangePolls: nat := 180

  /**
   * `WaitForMapChangeAsync`: `observe(i)` is the server's map after the `i`-th
   * two-second delay. It stops at the first poll whose map differs from the
   * initial one, or after 180 polls.
   */
  method WaitForMapChange(initial: Option<string>, observe: nat -> Option<string>)
    returns (polls: nat, changed: bool)
    ensures 1 <= polls <= MapChangePolls
    ensures changed <==> MapOrUnknown(observe(polls - 1)) != MapOrUnknown(initial)
    ensures forall j :: 0 <= j < polls - 1 ==> MapOrUnknown(observe(j)) == MapOrUnknown(initial)
    ensures !changed ==> polls == MapChangePolls
  {
    var initialMap := MapOrUnknown(initial);
    var i := 0;
    while i < MapChangePolls
      invariant 0 <= i <= MapChangePolls
      invariant forall j :: 0 <= j < i ==> MapOrUnknown(observe(j)) == initialMap
    {
      var currentMap := MapOrUnknown(observe(i));
      if currentMap != initialMap {
        return i + 1, true;
      }
      i := i + 1;
    }
    return MapChangePolls, false;
  }
}
