/**
 The submission server's throttle. Each method is one critical section under the
 throttle's mutex; the clock reading of a critical section is its parameter `now`.
 */
module Throttle {
  import opened Wrappers
  import opened SlidingWindow
  import SC = SessionCounters
  import Text
  import Sequences

  function AuthKey(toLower: string -> string, remoteHost: string, username: string): string {
    var normalized := toLower(Text.TrimSpace(username));
    if normalized != "" then "username:" + normalized else "remote:" + SC.KeyPart(remoteHost)
  }

  /** The search-and-delete loop of a cancellation. */
  method DeleteFirst(listed: seq<Time>, at: Time) returns (messages: seq<Time>)
    ensures messages == WithoutFirst(listed, at)
  {
    var i := 0;
    while i < |listed|
      invariant i <= |listed|
      invariant WithoutFirst(listed, at) == listed[..i] + WithoutFirst(listed[i..], at)
    {
      assert listed[i..][1..] == listed[i + 1..];
      if listed[i] == at {
        return listed[..i] + listed[i + 1..];
      }
      Sequences.Assoc(listed[..i], [listed[i]], WithoutFirst(listed[i + 1..], at));
      assert listed[..i] + [listed[i]] == listed[..i + 1];
      i := i + 1;
    }
    assert listed[..i] == listed && listed + [] == listed;
    return listed;
  }

  class SmtpThrottle {
    var activeSessions: int
    var activeSessionsByHost: map<string, int>
    var authFailuresByKey: Table
    var acceptedMessagesByKey: Table
    /** The hosts of the sessions acquired and not yet released. */
    ghost var open: multiset<string>
    const limits: SC.Limits
    const authWindow: Window
    const messageWindow: Window
    const toLower: string -> string

    constructor (limits: SC.Limits, authWindow: Window, messageWindow: Window, toLower: string -> string)
      ensures Sessions() == SC.Counters(0, map[]) && open == multiset{}
      ensures 0 < limits.total && 0 < limits.perHost ==> Tracked()
      ensures authFailuresByKey == map[] && acceptedMessagesByKey == map[]
      ensures this.limits == limits && this.toLower == toLower
      ensures this.authWindow == authWindow && this.messageWindow == messageWindow
    {
      activeSessions, activeSessionsByHost, open := 0, map[], multiset{};
      authFailuresByKey, acceptedMessagesByKey := map[], map[];
      this.limits, this.toLower := limits, toLower;
      this.authWindow, this.messageWindow := authWindow, messageWindow;
    }

    function Sessions(): SC.Counters
      reads this
    {
      SC.Counters(activeSessions, activeSessionsByHost)
    }

    /** The counters stand for the open sessions, and those are within the limits. */
    ghost predicate Tracked()
      reads this
    {
      SC.Exact(limits, SC.State(Sessions(), open))
    }

    /**
     Admits a session exactly while both limits leave room for one more, counting the
     sessions that are really open. On success returns the host key the session must
     later be released under.
     */
    method AcquireSession(remoteHost: string) returns (r: Result<string, SC.Refusal>)
      modifies this`activeSessions, this`activeSessionsByHost, this`open
      ensures open == if r.Ok? then old(open) + multiset{SC.KeyPart(remoteHost)} else old(open)
      ensures r.Ok? ==> r.value == SC.KeyPart(remoteHost)
      ensures match SC.Acquire(limits, old(Sessions()), SC.KeyPart(remoteHost))
              case Ok(c) => r.Ok? && Sessions() == c
              case Err(e) => r == Err(e) && Sessions() == old(Sessions())
      ensures old(Tracked()) ==>
                && Tracked()
                && (r.Ok? <==> |old(open)| < limits.total && old(open)[SC.KeyPart(remoteHost)] < limits.perHost)
                && (r == Err(SC.ConcurrentSessionsExceeded) <==> |old(open)| == limits.total)
    {
      var host := SC.KeyPart(remoteHost);
      SC.AcquireExact(limits, SC.State(Sessions(), open), host);
      if activeSessions >= limits.total {
        return Err(SC.ConcurrentSessionsExceeded);
      }
      if SC.CountOf(activeSessionsByHost, host) >= limits.perHost {
        return Err(SC.RemoteSessionsExceeded);
      }
      activeSessions := activeSessions + 1;
      activeSessionsByHost := activeSessionsByHost[host := SC.CountOf(activeSessionsByHost, host) + 1];
      open := open + multiset{host};
      return Ok(host);
    }

    /** Gives back one session of the host; releasing an open one keeps the counters exact. */
    method ReleaseSession(host: string)
      modifies this`activeSessions, this`activeSessionsByHost, this`open
      ensures open == old(open) - multiset{host}
      ensures old(Tracked()) && host in old(open) ==> Tracked()
      ensures Sessions() == SC.Release(old(Sessions()), host)
    {
      SC.ReleaseExact(limits, SC.State(Sessions(), open), host);
      open := open - multiset{host};
      if activeSessions > 0 {
        activeSessions := activeSessions - 1;
      }
      if SC.CountOf(activeSessionsByHost, host) <= 1 {
        activeSessionsByHost := activeSessionsByHost - {host};
        return;
      }
      activeSessionsByHost := activeSessionsByHost[host := activeSessionsByHost[host] - 1];
    }

    /** Counts the attempt as a failure until `AcceptAuth` clears the key. */
    method ReserveAuthAttempt(remoteHost: string, username: string, now: Time) returns (key: string, allowed: bool)
      modifies this`authFailuresByKey
      ensures key == AuthKey(toLower, remoteHost, username)
      ensures allowed == Admits(authWindow, old(authFailuresByKey), key, now)
      ensures authFailuresByKey == AfterReserve(authWindow, old(authFailuresByKey), key, now)
    {
      key := AuthKey(toLower, remoteHost, username);
      var failures := PruneWindow(Lookup(authFailuresByKey, key), now - authWindow.length);
      if |failures| >= authWindow.limit {
        authFailuresByKey := authFailuresByKey[key := failures];
        return key, false;
      }
      authFailuresByKey := authFailuresByKey[key := failures + [now]];
      return key, true;
    }

    method AcceptAuth(key: string)
      modifies this`authFailuresByKey
      ensures authFailuresByKey == AfterClear(old(authFailuresByKey), key)
    {
      authFailuresByKey := authFailuresByKey - {key};
    }

    method ReserveAcceptedMessage(identityID: string, now: Time) returns (key: string, allowed: bool)
      modifies this`acceptedMessagesByKey
      ensures key == SC.KeyPart(identityID)
      ensures allowed == Admits(messageWindow, old(acceptedMessagesByKey), key, now)
      ensures acceptedMessagesByKey == AfterReserve(messageWindow, old(acceptedMessagesByKey), key, now)
    {
      key := SC.KeyPart(identityID);
      var messages := PruneWindow(Lookup(acceptedMessagesByKey, key), now - messageWindow.length);
      if |messages| >= messageWindow.limit {
        acceptedMessagesByKey := acceptedMessagesByKey[key := messages];
        return key, false;
      }
      acceptedMessagesByKey := acceptedMessagesByKey[key := messages + [now]];
      return key, true;
    }

    /** Deletes the first entry with the reservation's time, if one is still listed. */
    method CancelMessageReservation(key: string, reservedAt: Time)
      modifies this`acceptedMessagesByKey
      ensures acceptedMessagesByKey == AfterCancel(old(acceptedMessagesByKey), key, reservedAt)
    {
      var messages := DeleteFirst(Lookup(acceptedMessagesByKey, key), reservedAt);
      if |messages| == 0 {
        acceptedMessagesByKey := acceptedMessagesByKey - {key};
        return;
      }
      acceptedMessagesByKey := acceptedMessagesByKey[key := messages];
    }
  }
}
