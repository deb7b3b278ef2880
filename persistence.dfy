/** The experimental persistent mode: src/CheckpointBreakpoint.py, src/PersistenceBreakpoint.py
    and src/TargetManager.py. The program is run once; a checkpoint is taken at the start
    address, and every time the end address is reached the debugger jumps back to a fresh copy
    of that checkpoint, so the next input only has to be written into the input buffer. */
module Persistence {
  import opened Wrappers
  import opened Address
  import opened Hex

  /** gdb "seems to have a problem" with more checkpoints than this; Reset starts over then. */
  const MaxCheckpoints: int := 40000

  /** The debugger commands the persistent mode issues, in the order gdb receives them. */
  datatype Command =
    | Checkpoint                        // "checkpoint"
    | Restart(id: int)                  // "restart <id>"
    | DeleteCheckpoint(id: int)         // "delete checkpoint <id>"
    | SetConfirmOff                     // "set confirm off"
    | RunFromDevNull                    // "run > /dev/null < /dev/null"
    | RunWith(input: string)            // "run > /dev/null <<< ...": the input on stdin
    | WriteMemory(addr: nat, data: string)  // write_memory of the first inferior
    | Continue                          // "continue"

  /** The debugger as BARF drives it: everything it is told, in order. */
  class Debugger {
    var log: seq<Command>

    constructor ()
      ensures log == []
    {
      log := [];
    }

    method Execute(c: Command)
      modifies this
      ensures log == old(log) + [c]
    {
      log := log + [c];
    }
  }

  /** The breakpoint that takes the starting checkpoint, once. */
  class CheckpointBreakpoint {
    const location: string
    const gdb: Debugger
    var isSet: bool

    constructor (startAddr: string, gdb: Debugger)
      requires startAddr != []
      ensures location == Normalize(startAddr).value && this.gdb == gdb && !isSet
    {
      location := Normalize(startAddr).value;
      this.gdb := gdb;
      isSet := false;
    }

    /** The first stop takes a checkpoint; later stops do nothing. It never halts. */
    method Stop() returns (halt: bool)
      modifies this, gdb
      ensures isSet && !halt
      ensures gdb.log == old(gdb.log) + (if old(isSet) then [] else [Checkpoint])
    {
      if !isSet {
        gdb.Execute(Checkpoint);
        isSet := true;
      }
      return false;
    }
  }

  /** The breakpoint at the end address: it resets the target and halts. */
  class PersistenceBreakpoint {
    const targetManager: TargetManager
    const location: string
    var silent: bool

    constructor (tm: TargetManager, endAddr: string)
      requires endAddr != []
      ensures targetManager == tm && location == Normalize(endAddr).value && silent
    {
      targetManager := tm;
      location := Normalize(endAddr).value;
      silent := true;
    }

    method Stop() returns (halt: bool)
      requires targetManager.Valid() && targetManager.usePersistent
      modifies targetManager, targetManager.startBreakpoint, targetManager.gdb
      ensures targetManager.Valid() && targetManager.endBreakpoint == old(targetManager.endBreakpoint)
      ensures targetManager.State() == ResetState(old(targetManager.State()))
      ensures targetManager.gdb.log == old(targetManager.gdb.log) + ResetLog(old(targetManager.State()))
      ensures halt
    {
      targetManager.Reset();
      return true;
    }
  }

  /** The part of a target manager that Reset and Run change: the checkpoint in use, whether
      the program has been started, and whether the starting checkpoint exists. */
  datatype PState = PState(checkpointIndex: int, isRunning: bool, isSet: bool)

  /** What Reset leaves behind. */
  function ResetState(st: PState): PState
  {
    if !st.isSet then st
    else if st.checkpointIndex > MaxCheckpoints then PState(1, false, false)
    else st.(checkpointIndex := st.checkpointIndex + 1)
  }

  /** What Reset tells the debugger: back to checkpoint 1, drop the copy in use, take a new
      copy and switch to it. A reset without a starting checkpoint, or at the limit, says nothing. */
  function ResetLog(st: PState): seq<Command>
  {
    if !st.isSet || st.checkpointIndex > MaxCheckpoints then []
    else
      [Restart(1)]
      + (if st.checkpointIndex > 1 then [DeleteCheckpoint(st.checkpointIndex)] else [])
      + [Checkpoint, Restart(st.checkpointIndex + 1)]
  }

  /** A breakpoint of the persistent mode that gdb stops at. */
  datatype Hit = AtStart | AtEnd

  function HitState(st: PState, h: Hit): PState
  {
    match h
    case AtStart => st.(isSet := true)
    case AtEnd => ResetState(st)
  }

  function HitLog(st: PState, h: Hit): seq<Command>
  {
    match h
    case AtStart => if st.isSet then [] else [Checkpoint]
    case AtEnd => ResetLog(st)
  }

  /** The state after gdb has delivered `hits` in order. */
  function DeliverState(st: PState, hits: seq<Hit>): PState
  {
    if hits == [] then st else HitState(DeliverState(st, hits[..|hits| - 1]), hits[|hits| - 1])
  }

  /** The commands the breakpoints issue while gdb delivers `hits`. */
  function DeliverLog(st: PState, hits: seq<Hit>): seq<Command>
  {
    if hits == [] then []
    else
      var init := hits[..|hits| - 1];
      DeliverLog(st, init) + HitLog(DeliverState(st, init), hits[|hits| - 1])
  }

  /** The state reached once the kick-start run (if one is needed) is over. */
  function KickState(st: PState, onRun: seq<Hit>): PState
  {
    if st.isRunning then st else DeliverState(st, onRun).(isRunning := true)
  }

  function KickLog(st: PState, onRun: seq<Hit>): seq<Command>
  {
    if st.isRunning then [] else [SetConfirmOff, RunFromDevNull] + DeliverLog(st, onRun)
  }

  /** The wrapper around the target program. */
  class TargetManager {
    const usePersistent: bool
    const gdb: Debugger
    const buffAddr: Option<nat>
    const startBreakpoint: CheckpointBreakpoint?
    var endBreakpoint: PersistenceBreakpoint?
    var checkpointIndex: int
    var isRunning: bool

    /** The breakpoints exist exactly in persistent mode, they talk to this manager's debugger,
        and the checkpoint in use stays between 1 and one past the limit. */
    ghost predicate Valid()
      reads this
    {
      && (usePersistent <==> startBreakpoint != null)
      && (usePersistent <==> endBreakpoint != null)
      && (startBreakpoint != null ==> startBreakpoint.gdb == gdb)
      && (endBreakpoint != null ==> endBreakpoint.targetManager == this)
      && 1 <= checkpointIndex <= MaxCheckpoints + 1
    }

    function State(): PState
      reads this, startBreakpoint
    {
      PState(checkpointIndex, isRunning, startBreakpoint != null && startBreakpoint.isSet)
    }

    /** In persistent mode: parse the buffer address as hexadecimal and register the two
        breakpoints. An empty buffer address is kept as no address. */
    constructor (usePersistent: bool, startAddr: string, endAddr: string, buffAddr: string, gdb: Debugger)
      requires usePersistent ==> startAddr != [] && endAddr != []
      requires usePersistent && buffAddr != [] ==> ParseHex(buffAddr).Some?
      ensures Valid() && this.usePersistent == usePersistent && this.gdb == gdb
      ensures State() == PState(1, false, false)
      ensures this.buffAddr == if usePersistent && buffAddr != [] then ParseHex(buffAddr) else None
      ensures usePersistent ==> startBreakpoint.location == Normalize(startAddr).value
      ensures usePersistent ==> endBreakpoint.location == Normalize(endAddr).value && endBreakpoint.silent
      ensures usePersistent ==> fresh(startBreakpoint) && fresh(endBreakpoint)
    {
      this.usePersistent := usePersistent;
      this.gdb := gdb;
      checkpointIndex := 1;
      isRunning := false;
      if usePersistent {
        this.buffAddr := if buffAddr != [] then ParseHex(buffAddr) else None;
        startBreakpoint := new CheckpointBreakpoint(startAddr, gdb);
      } else {
        this.buffAddr := None;
        startBreakpoint := null;
      }
      new;
      if usePersistent {
        endBreakpoint := new PersistenceBreakpoint(this, endAddr);
      } else {
        endBreakpoint := null;
      }
    }

    /** Called by the end breakpoint: jump back to a fresh copy of the starting checkpoint, or
        start over once the limit is passed, or only complain when no checkpoint exists yet. */
    method Reset()
      requires Valid() && usePersistent
      modifies this, startBreakpoint, gdb
      ensures Valid() && endBreakpoint == old(endBreakpoint)
      ensures State() == ResetState(old(State()))
      ensures gdb.log == old(gdb.log) + ResetLog(old(State()))
    {
      if !startBreakpoint.isSet {
        return;
      }
      if checkpointIndex > MaxCheckpoints {
        checkpointIndex := 1;
        isRunning := false;
        startBreakpoint.isSet := false;
        return;
      }
      gdb.Execute(Restart(1));
      if checkpointIndex > 1 {
        gdb.Execute(DeleteCheckpoint(checkpointIndex));
      }
      gdb.Execute(Checkpoint);
      checkpointIndex := checkpointIndex + 1;
      gdb.Execute(Restart(checkpointIndex));
    }

    /** gdb calling the stop method of the breakpoint reached, for each hit in turn. */
    method Deliver(hits: seq<Hit>)
      requires Valid() && usePersistent
      modifies this, startBreakpoint, gdb
      ensures Valid() && endBreakpoint == old(endBreakpoint)
      ensures State() == DeliverState(old(State()), hits)
      ensures gdb.log == old(gdb.log) + DeliverLog(old(State()), hits)
    {
      for i := 0 to |hits|
        invariant Valid() && endBreakpoint == old(endBreakpoint)
        invariant State() == DeliverState(old(State()), hits[..i])
        invariant gdb.log == old(gdb.log) + DeliverLog(old(State()), hits[..i])
      {
        assert hits[..i + 1][..i] == hits[..i];
        ghost var log := gdb.log;
        DeliverOne(hits[i]);
        assert gdb.log == log + HitLog(DeliverState(old(State()), hits[..i]), hits[i]);
      }
      assert hits[..|hits|] == hits;
    }

    /** gdb calling the stop method of the breakpoint reached. */
    method DeliverOne(h: Hit)
      requires Valid() && usePersistent
      modifies this, startBreakpoint, gdb
      ensures Valid() && endBreakpoint == old(endBreakpoint)
      ensures State() == HitState(old(State()), h)
      ensures gdb.log == old(gdb.log) + HitLog(old(State()), h)
    {
      if h == AtStart {
        var _ := startBreakpoint.Stop();
      } else {
        var _ := endBreakpoint.Stop();
      }
    }

    /** Start the program once from /dev/null if it is not running yet; gdb stops at the
        breakpoints listed in `onRun` on the way. */
    method KickStart(onRun: seq<Hit>)
      requires Valid() && usePersistent
      modifies this, startBreakpoint, gdb
      ensures Valid() && endBreakpoint == old(endBreakpoint)
      ensures State() == KickState(old(State()), onRun)
      ensures gdb.log == old(gdb.log) + KickLog(old(State()), onRun)
    {
      if !isRunning {
        gdb.Execute(SetConfirmOff);
        gdb.Execute(RunFromDevNull);
        Deliver(onRun);
        isRunning := true;
      }
    }

    /** Run the program on `inp`. Without persistent mode the input goes to stdin of a fresh
        run. In persistent mode the first call starts the program (KickStart), and every call
        writes the input and a newline and NUL into the buffer and continues, with gdb
        stopping at the breakpoints listed in `onContinue`. */
    method Run(inp: string, onRun: seq<Hit>, onContinue: seq<Hit>)
      requires Valid()
      requires usePersistent ==> buffAddr.Some?
      modifies this, startBreakpoint, gdb
      ensures Valid()
      ensures !usePersistent ==> State() == old(State()) && gdb.log == old(gdb.log) + [RunWith(inp)]
      ensures usePersistent ==>
        State() == DeliverState(KickState(old(State()), onRun), onContinue)
      ensures usePersistent ==>
        gdb.log == old(gdb.log) + KickLog(old(State()), onRun)
          + [WriteMemory(buffAddr.value, inp + "\n\0"), Continue]
          + DeliverLog(KickState(old(State()), onRun), onContinue)
    {
      if !usePersistent {
        gdb.Execute(RunWith(inp));
      } else {
        KickStart(onRun);
        ghost var kicked := gdb.log;
        gdb.Execute(WriteMemory(buffAddr.value, inp + "\n\0"));
        gdb.Execute(Continue);
        assert gdb.log == kicked + [WriteMemory(buffAddr.value, inp + "\n\0"), Continue];
        Deliver(onContinue);
      }
    }
  }

  /** gdb's checkpoints: the live ids, the id the next "checkpoint" gets (ids keep rising even
      when checkpoints are deleted) and the one in use. */
  datatype Checkpoints = Checkpoints(live: set<int>, next: int, current: int)

  /** One command on the checkpoint table; restarting or deleting a checkpoint that does not
      exist, or deleting the one in use, fails. */
  function Step(g: Checkpoints, c: Command): Option<Checkpoints>
  {
    match c
    case Checkpoint => Some(g.(live := g.live + {g.next}, next := g.next + 1))
    case Restart(k) => if k in g.live then Some(g.(current := k)) else None
    case DeleteCheckpoint(k) => if k in g.live && k != g.current then Some(g.(live := g.live - {k})) else None
    case _ => Some(g)
  }

  function Apply(g: Checkpoints, cmds: seq<Command>): Option<Checkpoints>
    decreases |cmds|
  {
    if cmds == [] then Some(g)
    else match Step(g, cmds[0])
      case None => None
      case Some(h) => Apply(h, cmds[1..])
  }

  /** Applying a command then the rest is applying the whole sequence. */
  lemma ApplyCons(g: Checkpoints, c: Command, rest: seq<Command>)
    requires Step(g, c).Some?
    ensures Apply(g, [c] + rest) == Apply(Step(g, c).value, rest)
  {
    assert ([c] + rest)[0] == c;
    assert ([c] + rest)[1..] == rest;
  }

  lemma {:induction false} ApplyConcat(g: Checkpoints, a: seq<Command>, b: seq<Command>)
    requires Apply(g, a).Some?
    ensures Apply(g, a + b) == Apply(Apply(g, a).value, b)
    decreases |a|
  {
    if a != [] {
      var h := Step(g, a[0]);
      assert h.Some?;
      assert Apply(g, a) == Apply(h.value, a[1..]);
      assert (a + b)[0] == a[0];
      assert (a + b)[1..] == a[1..] + b;
      assert Apply(g, a + b) == Apply(h.value, a[1..] + b);
      ApplyConcat(h.value, a[1..], b);
    } else {
      assert a + b == b;
    }
  }

  /** The debugger's checkpoints agree with the manager: before the starting checkpoint there
      are none; after it exactly checkpoint 1 and the copy in use are live, and the next
      checkpoint gets the id after the one in use. */
  ghost predicate Synced(g: Checkpoints, st: PState)
  {
    if st.isSet then g.live == {1, st.checkpointIndex} && g.next == st.checkpointIndex + 1
    else g.live == {} && g.next == 1 && st.checkpointIndex == 1
  }

  /** A reset that starts over at the limit leaves the debugger's checkpoints behind. */
  predicate RollsOver(st: PState, h: Hit)
  {
    h == AtEnd && st.isSet && st.checkpointIndex > MaxCheckpoints
  }

  /** Every command a breakpoint issues names a live checkpoint that may be used, and the
      debugger stays in step with the manager; after a reset the copy in use is current. */
  lemma HitKeepsSynced(g: Checkpoints, st: PState, h: Hit)
    requires Synced(g, st) && st.checkpointIndex >= 1 && !RollsOver(st, h)
    ensures Apply(g, HitLog(st, h)).Some?
    ensures Synced(Apply(g, HitLog(st, h)).value, HitState(st, h))
    ensures h == AtEnd && st.isSet ==> Apply(g, HitLog(st, h)).value.current == st.checkpointIndex + 1
  {
    if h == AtEnd && st.isSet {
      var i := st.checkpointIndex;
      assert HitLog(st, h) == ResetLog(st) && i <= MaxCheckpoints;
      var g1 := g.(current := 1);
      assert Step(g, Restart(1)) == Some(g1);
      var g2 := if i > 1 then g1.(live := {1}) else g1;
      assert g2.live == {1} && g2.next == i + 1;
      var g3 := g2.(live := {1, i + 1}, next := i + 2);
      assert g2.live + {g2.next} == {1, i + 1};
      assert Step(g2, Checkpoint) == Some(g3);
      assert Step(g3, Restart(i + 1)) == Some(g3.(current := i + 1));
      var tail := [Checkpoint, Restart(i + 1)];
      ApplyCons(g3, Restart(i + 1), []);
      assert Apply(g3.(current := i + 1), []) == Some(g3.(current := i + 1));
      ApplyCons(g2, Checkpoint, [Restart(i + 1)]);
      assert [Checkpoint] + [Restart(i + 1)] == tail;
      assert Apply(g2, tail) == Some(g3.(current := i + 1));
      if i > 1 {
        assert g1.live - {i} == {1};
        assert Step(g1, DeleteCheckpoint(i)) == Some(g2);
        ApplyCons(g1, DeleteCheckpoint(i), tail);
        ApplyCons(g, Restart(1), [DeleteCheckpoint(i)] + tail);
        assert ResetLog(st) == [Restart(1)] + ([DeleteCheckpoint(i)] + tail);
      } else {
        ApplyCons(g, Restart(1), tail);
        assert ResetLog(st) == [Restart(1)] + tail;
      }
    } else if h == AtStart && !st.isSet {
      ApplyCons(g, Checkpoint, []);
      assert [Checkpoint] + [] == [Checkpoint];
    }
  }

  /** No hit in `hits` makes a reset start over. */
  ghost predicate NoRollover(st: PState, hits: seq<Hit>)
  {
    forall k :: 0 <= k < |hits| ==> !RollsOver(DeliverState(st, hits[..k]), hits[k])
  }

  /** Until the limit is reached, the debugger stays in step with the manager through any
      sequence of breakpoint hits, and never refuses a command. */
  lemma {:induction false} DeliverKeepsSynced(g: Checkpoints, st: PState, hits: seq<Hit>)
    requires Synced(g, st) && st.checkpointIndex >= 1 && NoRollover(st, hits)
    ensures Apply(g, DeliverLog(st, hits)).Some?
    ensures Synced(Apply(g, DeliverLog(st, hits)).value, DeliverState(st, hits))
    ensures DeliverState(st, hits).checkpointIndex >= 1
    decreases |hits|
  {
    if hits != [] {
      var init := hits[..|hits| - 1];
      var h := hits[|hits| - 1];
      assert NoRollover(st, init) by {
        forall k | 0 <= k < |init|
          ensures !RollsOver(DeliverState(st, init[..k]), init[k])
        {
          assert init[..k] == hits[..k];
          assert init[k] == hits[k];
        }
      }
      DeliverKeepsSynced(g, st, init);
      var mid := DeliverState(st, init);
      var g1 := Apply(g, DeliverLog(st, init)).value;
      assert hits[..|hits| - 1] == init;
      assert !RollsOver(mid, h);
      HitKeepsSynced(g1, mid, h);
      ApplyConcat(g, DeliverLog(st, init), HitLog(mid, h));
    }
  }

  /** Checkpoint 1, the clean copy of the starting point, is never deleted. */
  lemma {:induction false} NeverDeletesFirst(st: PState, hits: seq<Hit>)
    requires st.checkpointIndex >= 1
    ensures DeleteCheckpoint(1) !in DeliverLog(st, hits)
    ensures DeliverState(st, hits).checkpointIndex >= 1
    decreases |hits|
  {
    if hits != [] {
      var init := hits[..|hits| - 1];
      NeverDeletesFirst(st, init);
      var mid := DeliverState(st, init);
      assert DeleteCheckpoint(1) !in HitLog(mid, hits[|hits| - 1]);
    }
  }

  /** `n` hits of the end breakpoint. */
  function Ends(n: nat): seq<Hit>
  {
    seq(n, _ => AtEnd)
  }

  /** Starting from checkpoint 1, each reset moves to the next copy, and the reset after the
      40000th starts over without a checkpoint and with the program to be started again. */
  lemma {:induction false} ResetCycle(r: bool, n: nat)
    requires n <= MaxCheckpoints + 1
    ensures n <= MaxCheckpoints ==> DeliverState(PState(1, r, true), Ends(n)) == PState(1 + n, r, true)
    ensures n == MaxCheckpoints + 1 ==> DeliverState(PState(1, r, true), Ends(n)) == PState(1, false, false)
  {
    if n > 0 {
      assert Ends(n)[..n - 1] == Ends(n - 1);
      ResetCycle(r, n - 1);
    }
  }

  /** The first persistent run, as the comments at src/TargetManager.py:57-70 describe it: gdb stops at the start (checkpoint
      1 is taken) and at the end (a copy, checkpoint 2, is taken and entered), and then the
      input is written and the program continued. */
  lemma FirstRun(addr: nat, inp: string)
    ensures KickState(PState(1, false, false), [AtStart, AtEnd]) == PState(2, true, true)
    ensures KickLog(PState(1, false, false), [AtStart, AtEnd])
      == [SetConfirmOff, RunFromDevNull, Checkpoint, Restart(1), Checkpoint, Restart(2)]
  {
    var st := PState(1, false, false);
    var hits := [AtStart, AtEnd];
    assert hits[..1] == [AtStart];
    assert hits[..1][..0] == [];
    assert DeliverState(st, hits[..1]) == PState(1, false, true);
    assert DeliverLog(st, hits[..1]) == [Checkpoint];
  }
}
