/**
 The WhatsApp bridge: the bounded set that recognises repeated messages, and the counter that
 bounds reconnecting.
 */
module Bridge {
  import opened Util
  import opened Wrappers

  const MAX_PROCESSED: nat := 1000

  // ----- repeated messages -----

  /** A set in insertion order: an accepted id goes to the end, and the oldest leaves when there are too many. */
  function Accept(processed: seq<string>, id: string): (seq<string>, bool) {
    if id in processed then (processed, true)
    else
      var all := processed + [id];
      (if |all| > MAX_PROCESSED then all[1..] else all, false)
  }

  function Processed(ids: seq<string>): seq<string> {
    if ids == [] then []
    else Accept(Processed(ids[..|ids| - 1]), ids[|ids| - 1]).0
  }

  predicate IsRepeat(ids: seq<string>, n: nat)
    requires n < |ids|
  {
    Accept(Processed(ids[..n]), ids[n]).1
  }

  /** Every id that was ever accepted, in order. */
  function Accepted(ids: seq<string>): seq<string> {
    if ids == [] then []
    else
      var n := |ids| - 1;
      Accepted(ids[..n]) + (if IsRepeat(ids, n) then [] else [ids[n]])
  }

  /** The set is the window of the last accepted ids. */
  lemma {:induction false} ProcessedIsWindow(ids: seq<string>)
    ensures Processed(ids) == LastN(Accepted(ids), 1000)
  {
    if ids != [] {
      var n := |ids| - 1;
      ProcessedIsWindow(ids[..n]);
      var before := Accepted(ids[..n]);
      if IsRepeat(ids, n) {
        assert before + [] == before;
      } else {
        WindowSlides(before, ids[n], 1000);
      }
    }
  }

  /** A message counts as a repeat exactly when its id is among the last thousand accepted ones. */
  lemma RepeatIffInWindow(ids: seq<string>, n: nat)
    requires n < |ids|
    ensures IsRepeat(ids, n) <==> ids[n] in LastN(Accepted(ids[..n]), 1000)
    ensures |Processed(ids)| <= 1000
  {
    ProcessedIsWindow(ids[..n]);
    ProcessedIsWindow(ids);
  }

  /** Any 1001 consecutive accepted ids are pairwise distinct. */
  lemma {:induction false} AcceptedApart(ids: seq<string>, i: nat, j: nat)
    requires i < j < |Accepted(ids)| && j - i <= 1000
    ensures Accepted(ids)[i] != Accepted(ids)[j]
    decreases |ids|
  {
    var n := |ids| - 1;
    var before := Accepted(ids[..n]);
    if j < |before| {
      AcceptedApart(ids[..n], i, j);
    } else {
      ProcessedIsWindow(ids[..n]);
      var window := LastN(before, 1000);
      var k := i - (|before| - |window|);
      assert window[k] == before[i];
    }
  }

  // ----- reconnecting -----

  datatype Connection = Close(loggedOut: bool) | Open | Connecting

  /** An update may carry a QR code, a connection change, or both. */
  datatype Update = Update(qr: bool, connection: Option<Connection>)

  datatype Link = Link(reconnectAttempts: nat, isConnected: bool, connectionState: string)

  const InitialLink := Link(0, false, "disconnected")

  /**
   The state after an update, and whether a reconnect was scheduled. The limit may be any integer
   the environment sets.
   */
  function OnUpdate(l: Link, limit: int, u: Update): (Link, bool) {
    var l := if u.qr then l.(connectionState := "qr") else l;
    match u.connection
    case None => (l, false)
    case Some(Close(loggedOut)) =>
      var l := l.(isConnected := false, connectionState := "disconnected");
      if !loggedOut && l.reconnectAttempts < limit then
        (l.(reconnectAttempts := l.reconnectAttempts + 1), true)
      else (l, false)
    case Some(Open) => (Link(0, true, "connected"), false)
    case Some(Connecting) => (l.(connectionState := "connecting"), false)
  }

  function LinkAfter(limit: int, updates: seq<Update>): Link {
    if updates == [] then InitialLink
    else OnUpdate(LinkAfter(limit, updates[..|updates| - 1]), limit, updates[|updates| - 1]).0
  }

  predicate Scheduled(limit: int, updates: seq<Update>, n: nat)
    requires n < |updates|
  {
    OnUpdate(LinkAfter(limit, updates[..n]), limit, updates[n]).1
  }

  predicate IsOpen(u: Update) {
    u.connection == Some(Open)
  }

  predicate Drops(u: Update) {
    u.connection == Some(Close(false))
  }

  /** Connections dropped, other than by logging out, since the last open. */
  function DropsSinceOpen(updates: seq<Update>): nat {
    if updates == [] then 0
    else
      var n := |updates| - 1;
      if IsOpen(updates[n]) then 0
      else DropsSinceOpen(updates[..n]) + (if Drops(updates[n]) then 1 else 0)
  }

  function Bound(limit: int): nat {
    if limit < 0 then 0 else limit
  }

  /** The counter is the number of drops since the last open, capped at the limit. */
  lemma {:induction false} AttemptsCountDrops(limit: int, updates: seq<Update>)
    ensures var drops := DropsSinceOpen(updates);
            LinkAfter(limit, updates).reconnectAttempts == if drops <= Bound(limit) then drops else Bound(limit)
  {
    if updates != [] {
      AttemptsCountDrops(limit, updates[..|updates| - 1]);
    }
  }

  /**
   A reconnect is scheduled exactly for the first drops after an open, as many as the limit allows,
   and for no logout.
   */
  lemma ScheduledExactly(limit: int, updates: seq<Update>, n: nat)
    requires n < |updates|
    ensures Scheduled(limit, updates, n) <==> Drops(updates[n]) && DropsSinceOpen(updates[..n]) < limit
  {
    AttemptsCountDrops(limit, updates[..n]);
  }

  function ScheduledBetween(limit: int, updates: seq<Update>, i: nat, j: nat): nat
    requires i <= j <= |updates|
  {
    if i == j then 0
    else ScheduledBetween(limit, updates, i, j - 1) + (if Scheduled(limit, updates, j - 1) then 1 else 0)
  }

  /** Between two opens no more reconnects are scheduled than the limit. */
  lemma {:induction false} ReconnectsBounded(limit: int, updates: seq<Update>, i: nat, j: nat)
    requires i <= j <= |updates|
    requires forall k :: i <= k < j ==> !IsOpen(updates[k])
    ensures ScheduledBetween(limit, updates, i, j) <= LinkAfter(limit, updates[..j]).reconnectAttempts <= Bound(limit)
  {
    AttemptsCountDrops(limit, updates[..j]);
    if i < j {
      ReconnectsBounded(limit, updates, i, j - 1);
      assert updates[..j][..j - 1] == updates[..j - 1];
    }
  }

  /**
   The bridge is connected exactly when the last open is later than the last close; the state says
   "connected" only then.
   */
  lemma {:induction false} ConnectedSinceOpen(limit: int, updates: seq<Update>)
    ensures var l := LinkAfter(limit, updates);
            && (l.isConnected <==>
                  exists i :: 0 <= i < |updates| && IsOpen(updates[i])
                    && forall k :: i < k < |updates| ==> updates[k].connection.None? || !updates[k].connection.value.Close?)
            && (l.connectionState == "connected" ==> l.isConnected)
  {
    if updates != [] {
      var n := |updates| - 1;
      var front := updates[..n];
      ConnectedSinceOpen(limit, front);
      var before, after := LinkAfter(limit, front), LinkAfter(limit, updates);
      if IsOpen(updates[n]) {
        assert after.isConnected;
      } else if updates[n].connection.Some? && updates[n].connection.value.Close? {
        assert !after.isConnected;
      } else {
        assert after.isConnected == before.isConnected;
        assert forall k :: 0 <= k < n ==> front[k] == updates[k];
      }
    }
  }

  /** An update that says something about the connection. */
  predicate Tells(u: Update) {
    u.qr || u.connection.Some?
  }

  /**
   The state shown is what the last update that says anything said, of a QR code and a change the
   change; before any it is "disconnected".
   */
  lemma {:induction false} StateShown(limit: int, updates: seq<Update>, k: nat)
    requires k <= |updates| && forall j :: k <= j < |updates| ==> !Tells(updates[j])
    requires k > 0 ==> Tells(updates[k - 1])
    ensures LinkAfter(limit, updates).connectionState ==
              if k == 0 then "disconnected"
              else
                match updates[k - 1].connection
                case None => "qr"
                case Some(Close(_)) => "disconnected"
                case Some(Open) => "connected"
                case Some(Connecting) => "connecting"
    decreases |updates|
  {
    if k < |updates| {
      assert !Tells(updates[|updates| - 1]);
      StateShown(limit, updates[..|updates| - 1], k);
    }
  }

  // ----- the module's variables -----

  class WhatsAppBridge {
    var processedMessages: seq<string>
    var reconnectAttempts: nat
    var isConnected: bool
    var connectionState: string
    const maxReconnectAttempts: int

    ghost function View(): Link
      reads this
    {
      Link(reconnectAttempts, isConnected, connectionState)
    }

    constructor (maxReconnectAttempts: int)
      ensures processedMessages == Processed([]) && View() == LinkAfter(maxReconnectAttempts, [])
      ensures this.maxReconnectAttempts == maxReconnectAttempts
    {
      processedMessages := [];
      reconnectAttempts := 0;
      isConnected := false;
      connectionState := "disconnected";
      this.maxReconnectAttempts := maxReconnectAttempts;
    }

    method IsDuplicate(id: string) returns (duplicate: bool)
      modifies this`processedMessages
      ensures (processedMessages, duplicate) == Accept(old(processedMessages), id)
    {
      if id in processedMessages {
        return true;
      }
      processedMessages := processedMessages + [id];
      if |processedMessages| > MAX_PROCESSED {
        processedMessages := processedMessages[1..];
      }
      duplicate := false;
    }

    /** `scheduled` tells whether the handler set the timer that opens a new socket. */
    method ConnectionUpdate(u: Update) returns (scheduled: bool)
      modifies this`reconnectAttempts, this`isConnected, this`connectionState
      ensures (View(), scheduled) == OnUpdate(old(View()), maxReconnectAttempts, u)
    {
      scheduled := false;
      if u.qr {
        connectionState := "qr";
      }
      match u.connection {
        case None =>
        case Some(Close(loggedOut)) =>
          isConnected := false;
          connectionState := "disconnected";
          if !loggedOut && reconnectAttempts < maxReconnectAttempts {
            reconnectAttempts := reconnectAttempts + 1;
            scheduled := true;
          }
        case Some(Open) =>
          isConnected := true;
          connectionState := "connected";
          reconnectAttempts := 0;
        case Some(Connecting) =>
          connectionState := "connecting";
      }
    }
  }
}
