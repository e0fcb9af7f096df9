/** The supervisor that keeps one local proxy process running: an ordered
    pool of servers, a run loop that fails over to the next server when a
    proxy session ends in error, a refresher that replaces the pool, and a
    health monitor that kills a proxy whose checks fail. Locks, goroutines
    and sleeps become sequential steps; the provider, the proxy process and
    the network become inputs. */
module Controller {
  import opened GoStrings
  import opened Wrappers
  import opened Provider

  // ----- Inputs -----

  /** What one call to the provider's `GetServerList` returns; a nil list
      is the empty list. Every error return of `GetServerList` comes with a
      nil list, so `FetchFailed` stands for the empty list as well. */
  datatype Fetch = Fetched(servers: seq<Server>) | FetchFailed

  /** How `cmd.Wait` saw the proxy process end. */
  datatype Exit = ExitedWith(status: int) | KilledByMonitor

  /** How far `setupLocalProxy` got: the configuration file could not be
      written, the process could not be started, or it ran and ended. */
  datatype Launch = ConfigFailed | StartFailed | Started(exit: Exit)

  /** `setupLocalProxy` returns nil only for a process that ran and exited
      with status 0; a kill by the monitor is an error like any other. */
  predicate SetupFails(l: Launch)
  {
    !(l.Started? && l.exit == ExitedWith(0))
  }

  // ----- The controller's state -----

  /** Where the run loop is: at the top of its loop, inside a proxy session
      with a server, blocked for good on the channel nobody sends to after a
      session ended without error, or stopped by a panic. */
  datatype Phase = Idle | InSession(server: Server) | Blocked(server: Server) | Crashed

  /** The pool and the run loop's phase. */
  datatype Control = Control(ss: seq<Server>, phase: Phase)

  /** The top of the run loop: with an empty pool it waits and changes
      nothing; otherwise a session starts with the pool's head. */
  function Begin(c: Control): Control
    requires c.phase == Idle
  {
    if c.ss == [] then c else Control(c.ss, InSession(c.ss[0]))
  }

  /** The end of a session: on success the loop blocks; on an error the head
      of the pool, whatever it is by now, is dropped, and dropping the head
      of an empty pool panics. */
  function End(c: Control, l: Launch): Control
    requires c.phase.InSession?
  {
    if !SetupFails(l) then Control(c.ss, Blocked(c.phase.server))
    else if c.ss == [] then Control(c.ss, Crashed)
    else Control(c.ss[1..], Idle)
  }

  /** A refresh: a successful fetch replaces the pool wholesale, a failed one
      leaves it alone; the run loop is not disturbed. */
  function Refresh(c: Control, f: Fetch): Control
  {
    if f.Fetched? then Control(f.servers, c.phase) else c
  }

  /** One turn of the run loop with no refresh in between. */
  function Turn(c: Control, l: Launch): Control
    requires c.phase == Idle
  {
    var b := Begin(c);
    if b.phase.InSession? then End(b, l) else b
  }

  /** The run loop with no refresh in between, one launch per session, until
      it blocks, finds the pool empty, or runs out of launches. */
  function RunTurns(c: Control, ls: seq<Launch>): Control
    decreases |ls|
  {
    if c.phase != Idle || c.ss == [] || ls == [] then c
    else RunTurns(Turn(c, ls[0]), ls[1..])
  }

  /** The contents after a run of refreshes: the list of the last successful
      fetch, or the old contents when every fetch failed. */
  function LastList(ss: seq<Server>, fs: seq<Fetch>): seq<Server>
    decreases |fs|
  {
    if fs == [] then ss
    else if fs[|fs| - 1].Fetched? then fs[|fs| - 1].servers
    else LastList(ss, fs[..|fs| - 1])
  }

  // ----- The controller -----

  class SSLocalProxyController {
    /** The pool, in order of preference. */
    var ss: seq<Server>
    /** Where the run loop is. */
    var phase: Phase
    /** The path of the proxy executable. */
    const fileLocation: Bytes

    function Now(): Control
      reads this
    {
      Control(ss, phase)
    }

    /** `NewSSLocalProxyController`: an empty pool, the run loop not started. */
    constructor(fileLocation: Bytes)
      ensures ss == [] && phase == Idle && this.fileLocation == fileLocation
    {
      ss := [];
      phase := Idle;
      this.fileLocation := fileLocation;
    }

    /** `Initialize`: the pool becomes the list the provider returned,
      whatever its error; with an error that list is nil, so the pool is
      empty. */
    method Initialize(fetch: Fetch)
      modifies this
      ensures ss == (if fetch.Fetched? then fetch.servers else [])
      ensures phase == old(phase)
    {
      match fetch {
        case Fetched(sl) => ss := sl;
        case FetchFailed => ss := [];
      }
    }

    /** `selectServer`: nothing exactly when the pool is empty, else its head;
        the pool is only read. */
    method SelectServer() returns (server: Option<Server>)
      ensures server.None? <==> ss == []
      ensures server.Some? ==> server.value == ss[0]
    {
      if |ss| == 0 {
        return None;
      }
      return Some(ss[0]);
    }

    /** The top of one run-loop turn: select a server and, if there is one,
        start a session with it. */
    method BeginSession() returns (started: bool)
      requires phase == Idle
      modifies this
      ensures Now() == Begin(old(Now()))
      ensures started <==> old(ss) != []
    {
      var server := SelectServer();
      match server {
        case None =>
          started := false;
        case Some(s) =>
          phase := InSession(s);
          started := true;
      }
    }

    /** The end of a session: `setupLocalProxy` has returned. */
    method EndSession(l: Launch)
      requires phase.InSession?
      modifies this
      ensures Now() == End(old(Now()), l)
    {
      if !SetupFails(l) {
        phase := Blocked(phase.server);
      } else if |ss| == 0 {
        phase := Crashed;
      } else {
        ss := ss[1..];
        phase := Idle;
      }
    }

    /** `Run`, with no refresh in between: one launch per session, until the
        loop blocks, finds the pool empty (where it would wait for a
        refresh), or runs out of launches. */
    method Run(ls: seq<Launch>)
      requires phase == Idle
      modifies this
      ensures Now() == RunTurns(old(Now()), ls)
    {
      var i := 0;
      while i < |ls| && phase == Idle && ss != []
        invariant 0 <= i <= |ls|
        invariant RunTurns(Now(), ls[i..]) == RunTurns(old(Now()), ls)
      {
        assert ls[i..][1..] == ls[i + 1..];
        var started := BeginSession();
        if started {
          EndSession(ls[i]);
        }
        i := i + 1;
      }
    }

    /** One round of `periodicallyUpdate`. */
    method RefreshPool(f: Fetch)
      modifies this
      ensures Now() == Refresh(old(Now()), f)
    {
      match f {
        case Fetched(sl) => ss := sl;
        case FetchFailed =>
      }
    }

    /** `periodicallyUpdate` over a run of fetches. */
    method PeriodicallyUpdate(fs: seq<Fetch>)
      modifies this
      ensures ss == LastList(old(ss), fs)
      ensures phase == old(phase)
    {
      var i := 0;
      while i < |fs|
        invariant 0 <= i <= |fs|
        invariant ss == LastList(old(ss), fs[..i])
        invariant phase == old(phase)
      {
        assert fs[..i + 1][..i] == fs[..i];
        RefreshPool(fs[i]);
        i := i + 1;
      }
      assert fs[..i] == fs;
    }
  }

  // ----- What the run loop promises -----

  /** An empty pool starts no session and changes nothing. */
  lemma EmptyPoolWaits(c: Control)
    requires c.phase == Idle && c.ss == []
    ensures Begin(c) == c
  {
  }

  /** A failed session drops exactly the head of the pool and keeps the
      order of the rest; a session that ends without error keeps the pool
      and blocks the loop. */
  lemma SessionEnd(c: Control, l: Launch)
    requires c.phase == Idle && c.ss != []
    ensures SetupFails(l) ==> Turn(c, l) == Control(c.ss[1..], Idle)
    ensures !SetupFails(l) ==> Turn(c, l) == Control(c.ss, Blocked(c.ss[0]))
  {
  }

  /** A proxy killed by the monitor fails over to the next server. */
  lemma KillFailsOver(c: Control)
    requires c.phase == Idle && c.ss != []
    ensures Turn(c, Started(KilledByMonitor)) == Control(c.ss[1..], Idle)
  {
  }

  /** The number of launches that fail before the first that does not. */
  function LeadingFailures(ls: seq<Launch>): (k: nat)
    ensures k <= |ls|
    ensures forall i :: 0 <= i < k ==> SetupFails(ls[i])
    ensures k < |ls| ==> !SetupFails(ls[k])
    decreases |ls|
  {
    if ls == [] || !SetupFails(ls[0]) then 0 else 1 + LeadingFailures(ls[1..])
  }

  /** The run loop without refreshes, in closed form: it walks down the
      pool one failed launch at a time, and either blocks with the first
      server whose launch succeeds or stops at the end of the pool or of
      the launches. It never panics. */
  lemma {:induction false} RunOutcome(c: Control, ls: seq<Launch>)
    requires c.phase == Idle
    ensures var k := if LeadingFailures(ls) < |c.ss| then LeadingFailures(ls) else |c.ss|;
      RunTurns(c, ls) ==
        if k < |c.ss| && k < |ls| then Control(c.ss[k..], Blocked(c.ss[k]))
        else Control(c.ss[k..], Idle)
    decreases |ls|
  {
    if c.ss != [] && ls != [] {
      if SetupFails(ls[0]) {
        var c' := Turn(c, ls[0]);
        assert c' == Control(c.ss[1..], Idle);
        RunOutcome(c', ls[1..]);
        assert LeadingFailures(ls) == 1 + LeadingFailures(ls[1..]);
        assert forall k :: 0 <= k <= |c.ss[1..]| ==> c.ss[1..][k..] == c.ss[k + 1..];
      } else {
        assert Turn(c, ls[0]) == Control(c.ss, Blocked(c.ss[0]));
        assert c.ss[0..] == c.ss;
      }
    } else {
      assert c.ss[0..] == c.ss;
    }
  }

  /** A run loop waiting on an empty pool starts a session with the head of
      the list a refresh brings, at its next turn. */
  lemma RefillAfterWait(c: Control, sl: seq<Server>)
    requires c.phase == Idle && c.ss == [] && sl != []
    ensures Begin(c) == c
    ensures Begin(Refresh(Begin(c), Fetched(sl))) == Control(sl, InSession(sl[0]))
  {
  }

  /** A refresh that replaces the pool while a session runs decides what a
      failed session drops: the head of the new list, not the server that
      failed, and a pool refreshed to empty makes the drop panic. */
  lemma RefreshDuringSession(c: Control, l: Launch, sl: seq<Server>)
    requires c.phase == Idle && c.ss != [] && SetupFails(l)
    ensures sl != [] ==> End(Refresh(Begin(c), Fetched(sl)), l) == Control(sl[1..], Idle)
    ensures sl == [] ==> End(Refresh(Begin(c), Fetched(sl)), l).phase == Crashed
  {
  }

  /** When every fetch fails, the pool keeps its contents. */
  lemma {:induction false} FailedFetchesKeep(ss: seq<Server>, fs: seq<Fetch>)
    requires forall i :: 0 <= i < |fs| ==> fs[i] == FetchFailed
    ensures LastList(ss, fs) == ss
    decreases |fs|
  {
    if fs != [] {
      FailedFetchesKeep(ss, fs[..|fs| - 1]);
    }
  }

  /** The last successful fetch decides the pool, whatever came before it. */
  lemma {:induction false} LastFetchWins(ss: seq<Server>, fs: seq<Fetch>, k: nat)
    requires k < |fs| && fs[k].Fetched?
    requires forall i :: k < i < |fs| ==> fs[i] == FetchFailed
    ensures LastList(ss, fs) == fs[k].servers
    decreases |fs|
  {
    if k < |fs| - 1 {
      LastFetchWins(ss, fs[..|fs| - 1], k);
    }
  }

  // ----- The health monitor: checkGoogleAccessible -----

  /** The result of one health check through the local proxy: the stage at
      which it failed, or success. */
  datatype Probe = DialFailed | RequestFailed | DoFailed | ReadFailed | ProbeOk

  /** One round of the monitor: the session has ended and the stop channel
      is closed, or a check is made. */
  datatype Round = StopSignalled | Probed(probe: Probe)

  /** How the monitor ends: stopped by the closed channel, having killed the
      proxy after a failed check, or still checking when the rounds run out. */
  datatype Verdict = Stopped | Killed(stage: Probe) | StillChecking

  /** The monitor as a state machine over its rounds. */
  function Monitor(rounds: seq<Round>): Verdict
    decreases |rounds|
  {
    if rounds == [] then StillChecking
    else match rounds[0]
      case StopSignalled => Stopped
      case Probed(ProbeOk) => Monitor(rounds[1..])
      case Probed(p) => Killed(p)
  }

  /** The number of rounds before the first that is not a passing check. */
  function PassedRounds(rounds: seq<Round>): (k: nat)
    ensures k <= |rounds|
    ensures forall i :: 0 <= i < k ==> rounds[i] == Probed(ProbeOk)
    ensures k < |rounds| ==> rounds[k] != Probed(ProbeOk)
    decreases |rounds|
  {
    if rounds == [] || rounds[0] != Probed(ProbeOk) then 0 else 1 + PassedRounds(rounds[1..])
  }

  /** The monitor's verdict is decided by the first round that is not a
      passing check: a stop ends it without a kill, a failed check at any
      stage kills, and with no such round it is still checking. */
  lemma {:induction false} MonitorDecision(rounds: seq<Round>)
    ensures var k := PassedRounds(rounds);
      Monitor(rounds) ==
        if k == |rounds| then StillChecking
        else if rounds[k] == StopSignalled then Stopped
        else Killed(rounds[k].probe)
    decreases |rounds|
  {
    if rounds != [] && rounds[0] == Probed(ProbeOk) {
      MonitorDecision(rounds[1..]);
    }
  }

  /** `checkGoogleAccessible`: one check a round until the stop channel is
      closed or a check fails, which kills the proxy once. */
  method CheckGoogleAccessible(rounds: seq<Round>) returns (verdict: Verdict, kills: nat)
    ensures verdict == Monitor(rounds)
    ensures kills == if verdict.Killed? then 1 else 0
    ensures verdict.Killed? ==> verdict.stage != ProbeOk
  {
    kills := 0;
    var i := 0;
    while i < |rounds|
      invariant 0 <= i <= |rounds|
      invariant Monitor(rounds[i..]) == Monitor(rounds)
    {
      assert rounds[i..][1..] == rounds[i + 1..];
      match rounds[i] {
        case StopSignalled =>
          return Stopped, kills;
        case Probed(p) =>
          if p != ProbeOk {
            kills := kills + 1;
            return Killed(p), kills;
          }
      }
      i := i + 1;
    }
    return StillChecking, kills;
  }
}
