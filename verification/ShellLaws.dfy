/** What holds in every run of the shell: which handlers run in which state,
    and how mounting and unmounting alternate. */
module ShellLaws {
  import opened Navigation
  import opened NavigationLaws
  import opened Shell
  import opened Tokenizer

  /** What a handler needs of the shell, by its meaning rather than its table row. */
  ghost predicate NeedsMount(h: Handler) { !h.Exit? && !NeedsNoMount(h) }
  ghost predicate NeedsNoMount(h: Handler) { h.Mount? || h.Format? }

  lemma RowsMatchNeeds(i: nat)
    requires i < |COMMANDS|
    ensures var c := COMMANDS[i];
            && (c.conditions & COND_MOUNT != 0 <==> NeedsMount(c.handler))
            && (c.conditions & COND_UMOUNT != 0 <==> NeedsNoMount(c.handler))
  {
    assert COND_MOUNT & COND_MOUNT != 0 && COND_UMOUNT & COND_UMOUNT != 0;
    assert COND_MOUNT & COND_UMOUNT == 0 && COND_UMOUNT & COND_MOUNT == 0;
    assert 0 & COND_UMOUNT == 0 && 0 & COND_MOUNT == 0;
    assert i < 23;
  }

  /** The mount flag is as the handler needs it. */
  ghost predicate Suits(h: Handler, mounted: bool) {
    (NeedsMount(h) ==> mounted) && (NeedsNoMount(h) ==> !mounted)
  }

  /** A line runs its handler exactly in the states that suit it. */
  lemma JudgeSuits(mounted: bool, argv: seq<string>)
    ensures match Judge(mounted, argv)
            case Ran(h) => Suits(h, mounted)
            case Refused(h) => !Suits(h, mounted)
            case _ => true
  {
    if argv != [] && Row(COMMANDS, argv[0]) < |COMMANDS| {
      RowsMatchNeeds(Row(COMMANDS, argv[0]));
    }
  }

  // ---- Every command by its name ----

  /** The row of a name of the table, from its length and one or two letters. */
  function Index(name: string): nat {
    if |name| < 2 then 23
    else if |name| == 2 then (match name[0] case 'c' => 0 case 'r' => 7 case 'l' => 8 case _ => 11)
    else if |name| == 3 then (match name[0] case 'd' => 9 case _ => 15)
    else if |name| == 4 then (match name[0] case 'e' => 1 case 'q' => 2 case _ => 6)
    else if |name| == 5 then
      (match name[0] case 'm' => if name[1] == 'o' then 3 else 12 case 't' => 5 case _ => 13)
    else if |name| == 6 then
      (match name[0] case 'u' => 4 case 'f' => 10 case _ => if name[4] == 's' then 16 else 20)
    else if |name| == 7 then (match name[0] case 'm' => 14 case _ => 17)
    else if |name| == 8 then (match name[4] case 'b' => 18 case 'i' => 19 case _ => 21)
    else 22
  }

  lemma ShortNames(k: nat)
    requires k < 12
    ensures Index(COMMANDS[k].name) == k
  {
  }

  lemma LongNames(k: nat)
    requires 12 <= k < |COMMANDS|
    ensures Index(COMMANDS[k].name) == k
  {
  }

  /** The first row of a handler; `exit` and `ls` have a second one after it. */
  function FirstRow(h: Handler): nat {
    match h
    case Cd => 0
    case Exit => 1
    case Mount => 3
    case Umount => 4
    case Touch => 5
    case Fill => 6
    case Rm => 7
    case Ls => 8
    case Format => 10
    case Df => 11
    case Mkdir => 12
    case Rmdir => 13
    case Mkdirst => 14
    case Cat => 15
    case Dumpsb => 16
    case Dumpgdt => 17
    case Dumpbmap => 18
    case Dumpimap => 19
    case Dumpit => 20
    case Dumpdata => 21
    case Dumpfile => 22
  }

  lemma HandlersAreDistinct(k: nat)
    requires k < |COMMANDS|
    ensures FirstRow(COMMANDS[k].handler) == if k == 2 || k == 9 then k - 1 else k
  {
  }

  function Name(h: Handler): string {
    match h
    case Cd => "cd"
    case Exit => "exit"
    case Mount => "mount"
    case Umount => "umount"
    case Touch => "touch"
    case Fill => "fill"
    case Rm => "rm"
    case Ls => "ls"
    case Format => "format"
    case Df => "df"
    case Mkdir => "mkdir"
    case Rmdir => "rmdir"
    case Mkdirst => "mkdirst"
    case Cat => "cat"
    case Dumpsb => "dumpsb"
    case Dumpgdt => "dumpgdt"
    case Dumpbmap => "dumpbmap"
    case Dumpimap => "dumpimap"
    case Dumpit => "dumpit"
    case Dumpdata => "dumpdata"
    case Dumpfile => "dumpfileinode"
  }

  function OtherName(h: Handler): string {
    match h
    case Exit => "quit"
    case Ls => "dir"
    case _ => Name(h)
  }

  /** What of the table decides which handler a name runs, and when. */
  ghost predicate IsRow(c: Command, k: nat) {
    && Index(c.name) == k
    && FirstRow(c.handler) == (if k == 2 || k == 9 then k - 1 else k)
    && forall mounted: bool :: Allowed(c.conditions, mounted) <==> Suits(c.handler, mounted)
  }

  ghost predicate HasRows(table: seq<Command>, h: Handler) {
    var k := FirstRow(h);
    && k < |table| && table[k].handler == h && table[k].name == Name(h)
    && (h == Exit || h == Ls ==> k + 1 < |table| && table[k + 1].handler == h && table[k + 1].name == OtherName(h))
  }

  ghost predicate IsTable(table: seq<Command>) {
    && (forall k: nat :: k < |table| ==> IsRow(table[k], k))
    && forall h: Handler :: HasRows(table, h)
  }

  lemma EarlyRows(h: Handler)
    requires FirstRow(h) < 11
    ensures HasRows(COMMANDS, h)
  {
  }

  lemma LateRows(h: Handler)
    requires FirstRow(h) >= 11
    ensures HasRows(COMMANDS, h)
  {
  }

  lemma CommandsAreTable()
    ensures IsTable(COMMANDS)
  {
    forall k: nat | k < |COMMANDS| ensures IsRow(COMMANDS[k], k) {
      if k < 12 { ShortNames(k); } else { LongNames(k); }
      HandlersAreDistinct(k);
      RowsMatchNeeds(k);
    }
    forall h: Handler ensures HasRows(COMMANDS, h) {
      if FirstRow(h) < 11 { EarlyRows(h); } else { LateRows(h); }
    }
  }

  lemma RunsByName(table: seq<Command>, mounted: bool, argv: seq<string>, h: Handler)
    requires IsTable(table) && argv != []
    ensures JudgeBy(table, mounted, argv) == Ran(h) <==>
            Suits(h, mounted) && (argv[0] == Name(h) || argv[0] == OtherName(h))
  {
    var k, r := FirstRow(h), Row(table, argv[0]);
    assert HasRows(table, h) && IsRow(table[k], k);
    if k + 1 < |table| {
      assert IsRow(table[k + 1], k + 1);
    }
    if r < |table| {
      assert IsRow(table[r], r);
    }
  }

  /** A line runs a handler exactly if it begins with one of the handler's names and
      the mount flag is as the handler needs it. */
  lemma CommandsByName(mounted: bool, argv: seq<string>, h: Handler)
    requires argv != []
    ensures var runs, name := Judge(mounted, argv) == Ran(h), argv[0];
            match h
            case Cd => runs <==> mounted && name == "cd"
            case Exit => runs <==> name == "exit" || name == "quit"
            case Mount => runs <==> !mounted && name == "mount"
            case Umount => runs <==> mounted && name == "umount"
            case Touch => runs <==> mounted && name == "touch"
            case Fill => runs <==> mounted && name == "fill"
            case Rm => runs <==> mounted && name == "rm"
            case Ls => runs <==> mounted && (name == "ls" || name == "dir")
            case Format => runs <==> !mounted && name == "format"
            case Df => runs <==> mounted && name == "df"
            case Mkdir => runs <==> mounted && name == "mkdir"
            case Rmdir => runs <==> mounted && name == "rmdir"
            case Mkdirst => runs <==> mounted && name == "mkdirst"
            case Cat => runs <==> mounted && name == "cat"
            case Dumpsb => runs <==> mounted && name == "dumpsb"
            case Dumpgdt => runs <==> mounted && name == "dumpgdt"
            case Dumpbmap => runs <==> mounted && name == "dumpbmap"
            case Dumpimap => runs <==> mounted && name == "dumpimap"
            case Dumpit => runs <==> mounted && name == "dumpit"
            case Dumpdata => runs <==> mounted && name == "dumpdata"
            case Dumpfile => runs <==> mounted && name == "dumpfileinode"
  {
    CommandsAreTable();
    RunsByName(COMMANDS, mounted, argv, h);
  }

  lemma UnknownRunsNowhere(table: seq<Command>, mounted: bool, argv: seq<string>)
    requires IsTable(table) && argv != []
    ensures JudgeBy(table, mounted, argv) == Unknown <==>
            forall h: Handler :: JudgeBy(table, true, argv) != Ran(h) && JudgeBy(table, false, argv) != Ran(h)
  {
    var r := Row(table, argv[0]);
    if r < |table| {
      var h := table[r].handler;
      assert IsRow(table[r], r);
      assert Suits(h, true) ==> JudgeBy(table, true, argv) == Ran(h);
      assert Suits(h, false) ==> JudgeBy(table, false, argv) == Ran(h);
    }
  }

  /** Blank is a line without words, unknown one that would run no handler either
      mounted or unmounted, that is, one that begins with none of the names. */
  lemma BlankAndUnknown(mounted: bool, argv: seq<string>)
    ensures Judge(mounted, argv) == Blank <==> argv == []
    ensures Judge(mounted, argv) == Unknown <==>
            argv != [] && forall h: Handler :: Judge(true, argv) != Ran(h) && Judge(false, argv) != Ran(h)
  {
    if argv != [] {
      CommandsAreTable();
      UnknownRunsNowhere(COMMANDS, mounted, argv);
    }
  }

  /** The line turns the mount flag. */
  predicate IsSwitch(r: Record) {
    (r.verdict == Ran(Mount) && r.after) || r.verdict == Ran(Umount)
  }

  lemma RecordSound(s: State, input: Input)
    requires s.nav.Valid() && SafeLine(s, input)
    ensures var r := RecordOf(s, input);
            && (r.verdict.Ran? ==> Suits(r.verdict.handler, r.before))
            && (r.verdict.Refused? ==> !Suits(r.verdict.handler, r.before))
            && (r.before != r.after <==> IsSwitch(r))
            && (r.verdict == Ran(Umount) ==> !r.after)
            && (r.verdict == Ran(Mount) ==> (r.after <==> input.env.mount.Returns? && input.env.mount.result >= 0))
  {
    JudgeSuits(s.mounted, Tokenizer.Words(input.line));
  }

  /** The records of a run fit together, and each is in order. */
  ghost predicate InOrder(trace: seq<Record>, mounted: bool) {
    && (trace != [] ==> trace[0].before == mounted)
    && (forall i :: 0 < i < |trace| ==> trace[i].before == trace[i - 1].after)
    && (forall i :: 0 <= i < |trace| ==>
          && (trace[i].verdict.Ran? ==> Suits(trace[i].verdict.handler, trace[i].before))
          && (trace[i].verdict.Refused? ==> !Suits(trace[i].verdict.handler, trace[i].before))
          && (trace[i].before != trace[i].after <==> IsSwitch(trace[i])))
  }

  /** In every run handlers that need a mounted file system run mounted only,
      `mount` and `format` run unmounted only, the others are refused, and the
      mount flag changes just with a successful mount or an unmount. */
  lemma {:induction false} RunsAreInOrder(s: State, inputs: seq<Input>)
    requires s.nav.Valid() && SafeRun(s, inputs)
    ensures InOrder(RunOf(s, inputs).0, s.mounted)
    decreases |inputs|
  {
    if inputs != [] {
      var rec, s' := RecordOf(s, inputs[0]), StateAfterLine(s, inputs[0]);
      RecordSound(s, inputs[0]);
      if rec.verdict != Ran(Exit) {
        RunsAreInOrder(s', inputs[1..]);
        InOrderCons(rec, RunOf(s', inputs[1..]).0);
      }
    }
  }

  lemma InOrderCons(rec: Record, rest: seq<Record>)
    requires InOrder([rec], rec.before) && InOrder(rest, rec.after)
    ensures InOrder([rec] + rest, rec.before)
  {
    var all := [rec] + rest;
    assert [rec][0] == rec;
    forall i | 0 < i < |all| ensures all[i].before == all[i - 1].after {
      assert all[i] == rest[i - 1];
    }
  }

  /** The records follow the lines: each holds the verdict on its line in the state
      before it, and the run goes on to the last line unless it meets an `exit`,
      which is then its last record. */
  lemma {:induction false} TraceFollowsLines(s: State, inputs: seq<Input>)
    requires s.nav.Valid() && SafeRun(s, inputs)
    ensures var trace := RunOf(s, inputs).0;
            && |trace| <= |inputs|
            && (forall i :: 0 <= i < |trace| ==> trace[i].verdict == Judge(trace[i].before, Words(inputs[i].line)))
            && (forall i :: 0 <= i < |trace| && trace[i].verdict == Ran(Exit) ==> i == |trace| - 1)
            && (|trace| == |inputs| || (trace != [] && trace[|trace| - 1].verdict == Ran(Exit)))
    decreases |inputs|
  {
    if inputs != [] {
      var rec, rest := RecordOf(s, inputs[0]), inputs[1..];
      if rec.verdict != Ran(Exit) {
        TraceFollowsLines(StateAfterLine(s, inputs[0]), rest);
        TraceCons(rec, RunOf(StateAfterLine(s, inputs[0]), rest).0, inputs);
      }
    }
  }

  lemma TraceCons(rec: Record, tail: seq<Record>, inputs: seq<Input>)
    requires inputs != [] && |tail| <= |inputs| - 1
    requires rec.verdict == Judge(rec.before, Words(inputs[0].line)) && rec.verdict != Ran(Exit)
    requires forall i :: 0 <= i < |tail| ==> tail[i].verdict == Judge(tail[i].before, Words(inputs[1..][i].line))
    requires forall i :: 0 <= i < |tail| && tail[i].verdict == Ran(Exit) ==> i == |tail| - 1
    ensures var trace := [rec] + tail;
            && (forall i :: 0 <= i < |trace| ==> trace[i].verdict == Judge(trace[i].before, Words(inputs[i].line)))
            && (forall i :: 0 <= i < |trace| && trace[i].verdict == Ran(Exit) ==> i == |trace| - 1)
  {
    var trace := [rec] + tail;
    forall i | 0 <= i < |trace|
      ensures trace[i].verdict == Judge(trace[i].before, Words(inputs[i].line))
      ensures trace[i].verdict == Ran(Exit) ==> i == |trace| - 1
    {
      if i > 0 {
        assert trace[i] == tail[i - 1] && inputs[1..][i - 1] == inputs[i];
      }
    }
  }

  /** The successful mounts and the unmounts of a run, in order. */
  function Switches(trace: seq<Record>): seq<Handler> {
    if trace == [] then []
    else if IsSwitch(trace[0]) then [trace[0].verdict.handler] + Switches(trace[1..])
    else Switches(trace[1..])
  }

  /** Mounts and unmounts by turns; the mount flag says which comes first. */
  ghost predicate Alternate(sw: seq<Handler>, mounted: bool) {
    forall k: nat :: k < |sw| ==> sw[k] == Expected(k, mounted)
  }

  function Expected(k: nat, mounted: bool): Handler {
    if (k % 2 == 0) == mounted then Umount else Mount
  }

  lemma {:induction false} SwitchesAlternate(trace: seq<Record>, mounted: bool)
    requires InOrder(trace, mounted)
    ensures Alternate(Switches(trace), mounted)
  {
    if trace != [] {
      var first := trace[0];
      assert InOrder(trace[1..], first.after) by {
        assert forall i :: 0 <= i < |trace[1..]| ==> trace[1..][i] == trace[i + 1];
      }
      SwitchesAlternate(trace[1..], first.after);
      if IsSwitch(first) {
        assert Suits(first.verdict.handler, mounted) && first.after == !mounted;
        AlternateCons(first.verdict.handler, Switches(trace[1..]), mounted);
      }
    }
  }

  lemma AlternateCons(h: Handler, sw: seq<Handler>, mounted: bool)
    requires h == Expected(0, mounted) && Alternate(sw, !mounted)
    ensures Alternate([h] + sw, mounted)
  {
    forall k: nat | k < |[h] + sw| ensures ([h] + sw)[k] == Expected(k, mounted) {
      if k > 0 {
        assert ([h] + sw)[k] == sw[k - 1] == Expected(k - 1, !mounted);
      }
    }
  }

  /** In every run from the start of the shell, successful mounts and unmounts
      strictly alternate, beginning with a mount. */
  lemma MountsAlternate(s: State, inputs: seq<Input>)
    requires s.nav.Valid() && SafeRun(s, inputs) && !s.mounted
    ensures var sw := Switches(RunOf(s, inputs).0);
            forall k :: 0 <= k < |sw| ==> sw[k] == if k % 2 == 0 then Mount else Umount
  {
    RunsAreInOrder(s, inputs);
    SwitchesAlternate(RunOf(s, inputs).0, false);
  }

  // ---- The current directory over several mount sessions ----

  /** The line mounts a file system while directories of the last session are
      still on the stack, and the new root is not the topmost of them. */
  ghost predicate IsStaleMount(s: State, input: Input)
    requires s.nav.Valid()
  {
    && Judge(s.mounted, Tokenizer.Words(input.line)) == Ran(Mount) && input.env.mount.Returns?
    && s.nav.top > 0 && s.nav.path[s.nav.top] != input.env.mount.root
  }

  /** Exactly the stale mounts take the current directory off the stack. */
  lemma LineKeepsConsistentIff(s: State, input: Input)
    requires s.nav.Valid() && SafeLine(s, input) && Consistent(s.nav)
    ensures Consistent(StateAfterLine(s, input).nav) <==> !IsStaleMount(s, input)
  {
    var argv := Tokenizer.Words(input.line);
    var v := Judge(s.mounted, argv);
    if v == Ran(Cd) {
      RunStaysConsistent(s.nav, [Cmd(argv, input.env.lookup)]);
    } else if v == Ran(Mount) && input.env.mount.Returns? {
      var nav' := Remount(s.nav, input.env.mount.root);
      assert Stack(nav') == Stack(s.nav);
      assert s.nav.top > 0 ==> Here(nav'.root, Stack(nav')) == s.nav.path[s.nav.top];
    }
  }

  ghost predicate NeverStale(s: State, inputs: seq<Input>)
    requires s.nav.Valid() && SafeRun(s, inputs)
    decreases |inputs|
  {
    inputs == [] || RecordOf(s, inputs[0]).verdict == Ran(Exit)
    || (!IsStaleMount(s, inputs[0]) && NeverStale(StateAfterLine(s, inputs[0]), inputs[1..]))
  }

  /** In every run of the shell without a stale mount, over any number of mount
      sessions, the current directory is the top of the stack, or the root. */
  lemma {:induction false} RunKeepsConsistent(s: State, inputs: seq<Input>)
    requires s.nav.Valid() && SafeRun(s, inputs) && Consistent(s.nav) && NeverStale(s, inputs)
    ensures Consistent(RunOf(s, inputs).1.nav)
    decreases |inputs|
  {
    if inputs != [] {
      LineKeepsConsistentIff(s, inputs[0]);
      if RecordOf(s, inputs[0]).verdict != Ran(Exit) {
        RunKeepsConsistent(StateAfterLine(s, inputs[0]), inputs[1..]);
      }
    }
  }

  // ---- Room in the path array, over whole sessions of the shell ----

  /** The shell without array or top: whether it still reads lines, the mount
      flag, and where it stands. */
  datatype View = View(running: bool, mounted: bool, place: Place)

  function ViewOf(s: State): View
    requires s.nav.Valid()
  {
    View(true, s.mounted, PlaceOf(s.nav))
  }

  function CmdOf(input: Input): Cmd { Cmd(Words(input.line), input.env.lookup) }

  /** A mount stands at the new root and leaves the stack. */
  function Mounted(v: View, mount: MountCall): View {
    if mount.Missing? then v
    else v.(mounted := mount.result >= 0 || v.mounted, place := Place(mount.root, mount.root, v.place.stack))
  }

  /** The view after a verdict has been carried out. */
  function Moved(v: View, verdict: Verdict, input: Input): View {
    match verdict
    case Ran(Cd) => v.(place := NextPlace(v.place, CmdOf(input)))
    case Ran(Mount) => Mounted(v, input.env.mount)
    case Ran(Umount) => v.(mounted := false)
    case Ran(Exit) => v.(running := false)
    case _ => v
  }

  function NextView(v: View, input: Input): View {
    if v.running then Moved(v, Judge(v.mounted, Words(input.line)), input) else v
  }

  function ViewAfter(v: View, inputs: seq<Input>): View
    decreases |inputs|
  {
    if inputs == [] then v else ViewAfter(NextView(v, inputs[0]), inputs[1..])
  }

  lemma {:induction false} NothingAfterExit(v: View, inputs: seq<Input>)
    requires !v.running
    ensures ViewAfter(v, inputs) == v
    decreases |inputs|
  {
    if inputs != [] {
      NothingAfterExit(v, inputs[1..]);
    }
  }

  lemma MovedFits(s: State, verdict: Verdict, input: Input)
    requires s.nav.Valid() && (verdict == Ran(Cd) ==> Words(input.line) != [])
    ensures (verdict == Ran(Cd) ==> Fits(s.nav, Words(input.line), input.env.lookup))
        <==> |Moved(ViewOf(s), verdict, input).place.stack| < PATH_SLOTS
  {
    if verdict == Ran(Cd) {
      CdIsNextPlace(s.nav, CmdOf(input));
    }
  }

  lemma EffectIsMoved(s: State, verdict: Verdict, input: Input)
    requires s.nav.Valid() && (verdict.Ran? ==> Words(input.line) != [])
    requires verdict == Ran(Cd) ==> Fits(s.nav, Words(input.line), input.env.lookup)
    ensures Moved(ViewOf(s), verdict, input)
            == ViewOf(Effect(s, verdict, Words(input.line), input.env)).(running := verdict != Ran(Exit))
  {
    if verdict == Ran(Cd) {
      CdIsNextPlace(s.nav, CmdOf(input));
    } else if verdict == Ran(Mount) {
      assert input.env.mount.Returns? ==> Stack(Remount(s.nav, input.env.mount.root)) == Stack(s.nav);
    }
  }

  /** A line is safe exactly when its words fit the argument vector and the stack
      it leads to is lower than the path array. */
  lemma LineSafeIff(s: State, input: Input)
    requires s.nav.Valid()
    ensures SafeLine(s, input) <==>
            Readable(input.line) && |NextView(ViewOf(s), input).place.stack| < PATH_SLOTS
  {
    MovedFits(s, Judge(s.mounted, Words(input.line)), input);
  }

  /** One line moves the shell as it moves the view of it. */
  lemma LineIsNextView(s: State, input: Input)
    requires s.nav.Valid() && SafeLine(s, input)
    ensures NextView(ViewOf(s), input)
            == ViewOf(StateAfterLine(s, input)).(running := Judge(s.mounted, Words(input.line)) != Ran(Exit))
  {
    EffectIsMoved(s, Judge(s.mounted, Words(input.line)), input);
  }

  /** A whole run moves the shell as it moves the view of it. */
  lemma {:induction false} RunIsViewAfter(s: State, inputs: seq<Input>)
    requires s.nav.Valid() && SafeRun(s, inputs)
    ensures var v := ViewAfter(ViewOf(s), inputs);
            ViewOf(RunOf(s, inputs).1) == v.(running := true)
    decreases |inputs|
  {
    if inputs != [] {
      var s', v, rest := StateAfterLine(s, inputs[0]), NextView(ViewOf(s), inputs[0]), inputs[1..];
      LineIsNextView(s, inputs[0]);
      if v.running {
        RunIsViewAfter(s', rest);
      } else {
        NothingAfterExit(v, rest);
      }
    }
  }

  /** What is asked of line k of a run: its words fit the argument vector if it is
      read at all, and it finds a stack lower than the path array. */
  ghost predicate Roomy(v: View, inputs: seq<Input>, k: nat)
    requires k <= |inputs|
  {
    var w := ViewAfter(v, inputs[..k]);
    |w.place.stack| < 256 && (k < |inputs| && w.running ==> Readable(inputs[k].line))
  }

  ghost predicate AllRoomy(v: View, inputs: seq<Input>) {
    forall k: nat :: k <= |inputs| ==> Roomy(v, inputs, k)
  }

  lemma RoomyLater(v: View, inputs: seq<Input>, k: nat)
    requires 0 < k <= |inputs|
    ensures Roomy(v, inputs, k) <==> Roomy(NextView(v, inputs[0]), inputs[1..], k - 1)
  {
    assert inputs[..k][1..] == inputs[1..][..k - 1];
  }

  lemma RoomyCons(v: View, inputs: seq<Input>)
    requires inputs != []
    ensures AllRoomy(v, inputs) <==> Roomy(v, inputs, 0) && AllRoomy(NextView(v, inputs[0]), inputs[1..])
  {
    var next, rest := NextView(v, inputs[0]), inputs[1..];
    forall k: nat | k <= |inputs| && AllRoomy(next, rest) && Roomy(v, inputs, 0) ensures Roomy(v, inputs, k) {
      if k > 0 { RoomyLater(v, inputs, k); }
    }
    forall k: nat | k <= |rest| && AllRoomy(v, inputs) ensures Roomy(next, rest, k) {
      RoomyLater(v, inputs, k + 1);
    }
  }

  lemma RoomyAtFirst(v: View, inputs: seq<Input>)
    ensures Roomy(v, inputs, 0) <==>
            |v.place.stack| < PATH_SLOTS && (inputs != [] && v.running ==> Readable(inputs[0].line))
  {
    assert inputs[..0] == [];
  }

  lemma RoomyAfterExit(v: View, inputs: seq<Input>)
    requires !v.running
    ensures AllRoomy(v, inputs) <==> |v.place.stack| < PATH_SLOTS
  {
    RoomyAtFirst(v, inputs);
    forall k: nat | k <= |inputs| ensures ViewAfter(v, inputs[..k]) == v {
      NothingAfterExit(v, inputs[..k]);
    }
  }

  /** A whole session of the shell stays inside its arrays exactly when the words
      of every line it reads fit the argument vector and the stack that its
      commands mean is never as high as the path array. */
  lemma {:induction false} SafeRunIffRoomy(s: State, inputs: seq<Input>)
    requires s.nav.Valid()
    ensures SafeRun(s, inputs) <==> AllRoomy(ViewOf(s), inputs)
    decreases |inputs|
  {
    RoomyAtFirst(ViewOf(s), inputs);
    if inputs != [] {
      var next, rest := NextView(ViewOf(s), inputs[0]), inputs[1..];
      RoomyCons(ViewOf(s), inputs);
      RoomyAtFirst(next, rest);
      LineSafeIff(s, inputs[0]);
      if SafeLine(s, inputs[0]) {
        LineIsNextView(s, inputs[0]);
        if next.running {
          SafeRunIffRoomy(StateAfterLine(s, inputs[0]), rest);
        } else {
          RoomyAfterExit(next, rest);
        }
      }
    }
  }

  // The height of the stack, by counting.

  predicate RunsCd(v: View, input: Input) { v.running && Judge(v.mounted, Words(input.line)) == Ran(Cd) }

  predicate BareCd(input: Input) { Words(input.line) == ["cd"] }

  predicate EntersOne(v: View, input: Input) { RunsCd(v, input) && Descends(v.place, CmdOf(input)) }

  predicate LeavesOne(v: View, input: Input) { RunsCd(v, input) && Ascends(v.place, CmdOf(input)) }

  /** How many lines of a session enter a directory, and how many leave one. */
  function Entered(v: View, inputs: seq<Input>): nat
    decreases |inputs|
  {
    if inputs == [] then 0
    else (if EntersOne(v, inputs[0]) then 1 else 0) + Entered(NextView(v, inputs[0]), inputs[1..])
  }

  function Left(v: View, inputs: seq<Input>): nat
    decreases |inputs|
  {
    if inputs == [] then 0
    else (if LeavesOne(v, inputs[0]) then 1 else 0) + Left(NextView(v, inputs[0]), inputs[1..])
  }

  lemma OnlyCdRunsCd(mounted: bool, argv: seq<string>)
    ensures Judge(mounted, argv) == Ran(Cd) <==> mounted && argv != [] && argv[0] == "cd"
  {
    if argv != [] {
      CommandsByName(mounted, argv, Cd);
    }
  }

  lemma MovedHeight(v: View, verdict: Verdict, input: Input)
    ensures var before, height := |v.place.stack|, |Moved(v, verdict, input).place.stack|;
            && height <= before + 1
            && (verdict != Ran(Cd) ==> height == before)
            && (verdict == Ran(Cd) && !IsBare(CmdOf(input)) ==>
                  height == before + (if Descends(v.place, CmdOf(input)) then 1 else 0)
                                   - (if Ascends(v.place, CmdOf(input)) then 1 else 0))
  {
  }

  lemma LineHeight(v: View, input: Input)
    ensures var before, height := |v.place.stack|, |NextView(v, input).place.stack|;
            && height <= before + 1
            && (!BareCd(input) ==>
                  height == before + (if EntersOne(v, input) then 1 else 0) - (if LeavesOne(v, input) then 1 else 0))
  {
    var argv := Words(input.line);
    OnlyCdRunsCd(v.mounted, argv);
    MovedHeight(v, Judge(v.mounted, argv), input);
    assert RunsCd(v, input) && IsBare(CmdOf(input)) ==> argv == ["cd"];
  }

  lemma {:induction false} SessionHeightIsNet(v: View, inputs: seq<Input>)
    requires forall i :: 0 <= i < |inputs| ==> !BareCd(inputs[i])
    ensures |ViewAfter(v, inputs).place.stack| == |v.place.stack| + Entered(v, inputs) - Left(v, inputs)
    decreases |inputs|
  {
    if inputs != [] {
      var rest := inputs[1..];
      assert forall i :: 0 <= i < |rest| ==> rest[i] == inputs[i + 1];
      LineHeight(v, inputs[0]);
      SessionHeightIsNet(NextView(v, inputs[0]), rest);
    }
  }

  lemma {:induction false} ViewAfterConcat(v: View, a: seq<Input>, b: seq<Input>)
    ensures ViewAfter(v, a + b) == ViewAfter(ViewAfter(v, a), b)
    decreases |a|
  {
    if a == [] {
      assert a + b == b;
    } else {
      assert (a + b)[0] == a[0] && (a + b)[1..] == a[1..] + b;
      ViewAfterConcat(NextView(v, a[0]), a[1..], b);
    }
  }

  /** The height is the directories entered minus those left since the last bare
      `cd`, whatever was mounted and unmounted since. */
  lemma SessionHeightSinceBare(v: View, before: seq<Input>, bare: Input, after: seq<Input>)
    requires var w := ViewAfter(v, before); w.running && w.mounted
    requires BareCd(bare) && forall i :: 0 <= i < |after| ==> !BareCd(after[i])
    ensures var w := ViewAfter(v, before);
            var empty := w.(place := Place(w.place.root, w.place.root, []));
            |ViewAfter(v, before + [bare] + after).place.stack| == Entered(empty, after) - Left(empty, after)
  {
    var w := ViewAfter(v, before);
    ViewAfterConcat(v, before + [bare], after);
    ViewAfterConcat(v, before, [bare]);
    OnlyCdRunsCd(true, ["cd"]);
    assert ViewAfter(w, [bare]) == NextView(w, bare);
    SessionHeightIsNet(NextView(w, bare), after);
  }

  lemma {:induction false} SessionHeightBound(v: View, inputs: seq<Input>)
    ensures |ViewAfter(v, inputs).place.stack| <= |v.place.stack| + |inputs|
    decreases |inputs|
  {
    if inputs != [] {
      LineHeight(v, inputs[0]);
      SessionHeightBound(NextView(v, inputs[0]), inputs[1..]);
    }
  }

  /** So from height `top`, 255 - top lines whose words fit are always safe. */
  lemma ShortSessionsAreSafe(s: State, inputs: seq<Input>)
    requires s.nav.Valid() && s.nav.top + |inputs| < PATH_SLOTS
    requires forall i :: 0 <= i < |inputs| ==> Readable(inputs[i].line)
    ensures SafeRun(s, inputs)
  {
    forall k: nat | k <= |inputs| ensures Roomy(ViewOf(s), inputs, k) {
      SessionHeightBound(ViewOf(s), inputs[..k]);
    }
    SafeRunIffRoomy(s, inputs);
  }
}
