/** The command loop of shell.c: table lookup, mount conditions, the handlers
    that change the shell's own state, and the loop over input lines. */
module Shell {
  import opened Navigation
  import opened ShellEntry
  import opened Tokenizer

  const COND_MOUNT: bv8 := 0x01
  const COND_UMOUNT: bv8 := 0x02
  const LINE_SIZE: nat := 1000

  datatype Handler =
    | Cd | Exit | Mount | Umount | Touch | Fill | Rm | Ls | Format | Df | Mkdir | Rmdir | Mkdirst
    | Cat | Dumpsb | Dumpgdt | Dumpbmap | Dumpimap | Dumpit | Dumpdata | Dumpfile

  datatype Command = Command(name: string, handler: Handler, conditions: bv8)

  const COMMANDS: seq<Command> := [
    Command("cd", Cd, COND_MOUNT),
    Command("exit", Exit, 0),
    Command("quit", Exit, 0),
    Command("mount", Mount, COND_UMOUNT),
    Command("umount", Umount, COND_MOUNT),
    Command("touch", Touch, COND_MOUNT),
    Command("fill", Fill, COND_MOUNT),
    Command("rm", Rm, COND_MOUNT),
    Command("ls", Ls, COND_MOUNT),
    Command("dir", Ls, COND_MOUNT),
    Command("format", Format, COND_UMOUNT),
    Command("df", Df, COND_MOUNT),
    Command("mkdir", Mkdir, COND_MOUNT),
    Command("rmdir", Rmdir, COND_MOUNT),
    Command("mkdirst", Mkdirst, COND_MOUNT),
    Command("cat", Cat, COND_MOUNT),
    Command("dumpsb", Dumpsb, COND_MOUNT),
    Command("dumpgdt", Dumpgdt, COND_MOUNT),
    Command("dumpbmap", Dumpbmap, COND_MOUNT),
    Command("dumpimap", Dumpimap, COND_MOUNT),
    Command("dumpit", Dumpit, COND_MOUNT),
    Command("dumpdata", Dumpdata, COND_MOUNT),
    Command("dumpfileinode", Dumpfile, COND_MOUNT)
  ]

  /** What the file system's mount function does: its result and the root it
      fills in. `Missing` stands for a NULL mount function. */
  datatype MountCall = Missing | Returns(result: int, root: Entry)

  /** The file system as one command meets it. */
  datatype Env = Env(lookup: Lookup, mount: MountCall)

  datatype State = State(mounted: bool, nav: Nav)

  /** What became of an input line. */
  datatype Verdict = Blank | Unknown | Refused(handler: Handler) | Ran(handler: Handler)

  // ---- What a line means ----

  /** The first row of a table with that name, or the number of rows. */
  function Row(table: seq<Command>, name: string): (r: nat)
    ensures r <= |table|
    ensures r < |table| ==> table[r].name == name
    ensures forall k :: 0 <= k < r ==> table[k].name != name
  {
    if table == [] || table[0].name == name then 0 else 1 + Row(table[1..], name)
  }

  predicate Allowed(conditions: bv8, mounted: bool) {
    && !(conditions & COND_MOUNT != 0 && !mounted)
    && !(conditions & COND_UMOUNT != 0 && mounted)
  }

  function JudgeBy(table: seq<Command>, mounted: bool, argv: seq<string>): Verdict {
    if argv == [] then Blank else
      var r := Row(table, argv[0]);
      if r == |table| then Unknown
      else if Allowed(table[r].conditions, mounted) then Ran(table[r].handler)
      else Refused(table[r].handler)
  }

  function Judge(mounted: bool, argv: seq<string>): Verdict { JudgeBy(COMMANDS, mounted, argv) }

  /** The state after a verdict has been carried out. */
  function Effect(s: State, v: Verdict, argv: seq<string>, env: Env): (s': State)
    requires s.nav.Valid() && (v.Ran? ==> argv != []) && (v == Ran(Cd) ==> Fits(s.nav, argv, env.lookup))
    ensures s'.nav.Valid()
  {
    if v == Ran(Cd) then s.(nav := Navigation.Cd(s.nav, argv, env.lookup).0)
    else if v == Ran(Mount) && env.mount.Returns? then
      State(env.mount.result >= 0 || s.mounted, Remount(s.nav, env.mount.root))
    else if v == Ran(Umount) then s.(mounted := false)
    else s
  }

  /** The C string that one fgets leaves in the line buffer. It hands a longer
      input line over in pieces. */
  type Line = s: string | |s| < 1000 && NUL !in s

  /** One such line and the file system its command meets. */
  datatype Input = Input(line: Line, env: Env)

  /** The words of the line fit the argument vector. */
  ghost predicate Readable(line: Line) { |Words(line)| <= ARGV_SLOTS }

  ghost predicate SafeLine(s: State, input: Input)
    requires s.nav.Valid()
  {
    Readable(input.line) &&
    (Judge(s.mounted, Words(input.line)) == Ran(Cd) ==> Fits(s.nav, Words(input.line), input.env.lookup))
  }

  ghost function StateAfterLine(s: State, input: Input): (s': State)
    requires s.nav.Valid() && SafeLine(s, input)
    ensures s'.nav.Valid()
  {
    Effect(s, Judge(s.mounted, Words(input.line)), Words(input.line), input.env)
  }

  ghost predicate SafeRun(s: State, inputs: seq<Input>)
    requires s.nav.Valid()
    decreases |inputs|
  {
    inputs == [] ||
    (SafeLine(s, inputs[0])
     && (Judge(s.mounted, Words(inputs[0].line)) == Ran(Exit) || SafeRun(StateAfterLine(s, inputs[0]), inputs[1..])))
  }

  /** A verdict with the mount flag before and after it. */
  datatype Record = Record(before: bool, verdict: Verdict, after: bool)

  ghost function RecordOf(s: State, input: Input): Record
    requires s.nav.Valid() && SafeLine(s, input)
  {
    Record(s.mounted, Judge(s.mounted, Words(input.line)), StateAfterLine(s, input).mounted)
  }

  /** The run of the command loop, which stops at the first `exit`: what
      became of each line, and the state at the end. */
  ghost function RunOf(s: State, inputs: seq<Input>): (r: (seq<Record>, State))
    requires s.nav.Valid() && SafeRun(s, inputs)
    ensures r.1.nav.Valid()
    decreases |inputs|
  {
    if inputs == [] then ([], s) else
      var rec, s' := RecordOf(s, inputs[0]), StateAfterLine(s, inputs[0]);
      if rec.verdict == Ran(Exit) then ([rec], s') else
        var rest := RunOf(s', inputs[1..]);
        ([rec] + rest.0, rest.1)
  }

  /** From state `s`, with `trace` behind it, the lines left lead to `whole`. */
  ghost predicate Leads(whole: (seq<Record>, State), trace: seq<Record>, s: State, rest: seq<Input>) {
    && s.nav.Valid() && SafeRun(s, rest)
    && whole.0 == trace + RunOf(s, rest).0 && whole.1 == RunOf(s, rest).1
  }

  lemma LeadsStep(whole: (seq<Record>, State), trace: seq<Record>, s: State, rest: seq<Input>)
    requires rest != [] && Leads(whole, trace, s, rest)
    ensures SafeLine(s, rest[0])
    ensures var rec, s' := RecordOf(s, rest[0]), StateAfterLine(s, rest[0]);
            if rec.verdict == Ran(Exit) then whole == (trace + [rec], s')
            else Leads(whole, trace + [rec], s', rest[1..])
  {
    var rec := RecordOf(s, rest[0]);
    if rec.verdict != Ran(Exit) {
      var tail := RunOf(StateAfterLine(s, rest[0]), rest[1..]).0;
      assert trace + ([rec] + tail) == trace + [rec] + tail;
    }
  }

  lemma LeadsEnd(whole: (seq<Record>, State), trace: seq<Record>, s: State)
    requires Leads(whole, trace, s, [])
    ensures whole == (trace, s)
  {
    assert trace + [] == trace;
  }

  // ---- The shell itself ----

  /** The strcmp loop over the command table, up to its break. */
  method FindCommand(table: seq<Command>, name: string) returns (i: nat)
    ensures i == Row(table, name)
  {
    i := 0;
    while i < |table|
      invariant i <= |table| && forall k :: 0 <= k < i ==> table[k].name != name
    {
      if table[i].name == name {
        break;
      }
      i := i + 1;
    }
  }

  /** fgets: the line and its terminator, at the front of the buffer. */
  method GetLine(buf: array<char>, line: Line)
    requires buf.Length == LINE_SIZE
    modifies buf
    ensures Holds(buf[..], line)
  {
    forall i | 0 <= i < |line| { buf[i] := line[i]; }
    buf[|line|] := NUL;
  }

  class Shell {
    var isMounted: int
    var rootDir: Entry
    var currentDir: Entry
    const path: array<Entry>
    var pathTop: nat

    ghost predicate Valid()
      reads this
    {
      path.Length == PATH_SLOTS && pathTop < PATH_SLOTS
    }

    ghost function Nav(): (n: Nav)
      requires Valid()
      reads this, path
      ensures n.Valid()
    {
      Navigation.Nav(path[..], pathTop, currentDir, rootDir)
    }

    ghost function Now(): (s: State)
      requires Valid()
      reads this, path
      ensures s.nav.Valid()
    {
      State(isMounted != 0, Nav())
    }

    constructor (blank: Entry)
      ensures Valid() && fresh(path) && !Now().mounted && pathTop == 0
    {
      isMounted := 0;
      rootDir, currentDir := blank, blank;
      path := new Entry[PATH_SLOTS](_ => blank);
      pathTop := 0;
    }

    /** check_conditions */
    method CheckConditions(conditions: bv8) returns (result: int)
      ensures result == if Allowed(conditions, isMounted != 0) then 0 else -1
    {
      if conditions & COND_MOUNT != 0 && isMounted == 0 {
        return -1;
      }
      if conditions & COND_UMOUNT != 0 && isMounted != 0 {
        return -1;
      }
      return 0;
    }

    /** shell_cmd_cd */
    method ChangeDirectory(argv: seq<string>, lookup: Lookup) returns (code: int)
      requires Valid() && argv != [] && Fits(Nav(), argv, lookup)
      modifies this, path
      ensures Valid() && isMounted == old(isMounted)
      ensures (Nav(), code) == Navigation.Cd(old(Nav()), argv, lookup)
    {
      path[0] := rootDir;
      if |argv| > 2 {
        return 0;
      }
      if |argv| == 1 {
        pathTop := 0;
      } else {
        if argv[1] == "." {
          return 0;
        } else if argv[1] == ".." && pathTop > 0 {
          pathTop := pathTop - 1;
        } else {
          var reply := lookup(currentDir, argv[1]);
          if reply.result == EXT2_SUCCESS {
            return -1;
          } else if !reply.entry.isDirectory {
            return -1;
          }
          pathTop := pathTop + 1;
          path[pathTop] := reply.entry;
        }
      }
      currentDir := path[pathTop];
      return 0;
    }

    /** shell_cmd_mount */
    method MountDisk(mount: MountCall) returns (code: int)
      requires Valid()
      modifies this
      ensures Valid() && Nav() == if mount.Missing? then old(Nav()) else Remount(old(Nav()), mount.root)
      ensures isMounted != 0 <==> old(isMounted) != 0 || (mount.Returns? && mount.result >= 0)
      ensures mount.Returns? ==> rootDir == mount.root && currentDir == mount.root
      ensures pathTop == old(pathTop) && path[..] == old(path[..])
      ensures code == if mount.Returns? && mount.result < 0 then -1 else 0
    {
      if mount.Missing? {
        return 0;
      }
      rootDir := mount.root;
      currentDir := rootDir;
      if mount.result < 0 {
        return -1;
      } else {
        isMounted := 1;
      }
      return 0;
    }

    /** shell_cmd_umount */
    method UnmountDisk()
      requires Valid()
      modifies this`isMounted
      ensures Valid() && isMounted == 0 && Nav() == old(Nav())
    {
      isMounted := 0;
    }

    /** The body of the command loop, from the tokenized line on. */
    method Dispatch(argv: seq<string>, env: Env) returns (verdict: Verdict)
      requires Valid()
      requires Judge(isMounted != 0, argv) == Ran(Cd) ==> Fits(Nav(), argv, env.lookup)
      modifies this, path
      ensures Valid()
      ensures verdict == Judge(old(Now()).mounted, argv)
      ensures Now() == Effect(old(Now()), verdict, argv, env)
    {
      verdict := DispatchBy(COMMANDS, argv, env);
    }

    method DispatchBy(table: seq<Command>, argv: seq<string>, env: Env) returns (verdict: Verdict)
      requires Valid()
      requires JudgeBy(table, isMounted != 0, argv) == Ran(Cd) ==> Fits(Nav(), argv, env.lookup)
      modifies this, path
      ensures Valid()
      ensures verdict == JudgeBy(table, old(Now()).mounted, argv)
      ensures Now() == Effect(old(Now()), verdict, argv, env)
    {
      if |argv| == 0 {
        return Blank;
      }
      var i := FindCommand(table, argv[0]);
      if i == |table| {
        return Unknown;
      }
      var handler := table[i].handler;
      var r := CheckConditions(table[i].conditions);
      if r != 0 {
        return Refused(handler);
      }
      Handle(handler, argv, env);
      return Ran(handler);
    }

    /** The call through the handler pointer. Handlers other than the three
        below do not assign the shell's state. */
    method Handle(handler: Handler, argv: seq<string>, env: Env)
      requires Valid() && argv != []
      requires handler == Cd ==> Fits(Nav(), argv, env.lookup)
      modifies this, path
      ensures Valid() && Now() == Effect(old(Now()), Ran(handler), argv, env)
    {
      if handler == Cd {
        var _ := ChangeDirectory(argv, env.lookup);
      } else if handler == Mount {
        var _ := MountDisk(env.mount);
      } else if handler == Umount {
        UnmountDisk();
      }
    }

    /** One input line: fgets, tokenizing, dispatch. */
    method DoLine(input: Input, buf: array<char>, ptrs: array<nat>) returns (record: Record)
      requires Valid() && SafeLine(Now(), input)
      requires buf.Length == LINE_SIZE && ptrs.Length == ARGV_SLOTS
      modifies this, path, buf, ptrs
      ensures Valid()
      ensures record == RecordOf(old(Now()), input)
      ensures Now() == StateAfterLine(old(Now()), input)
    {
      var before := isMounted != 0;
      GetLine(buf, input.line);
      var argc := SeparateString(buf, ptrs, input.line);
      var argv := CStringsAt(buf[..], ptrs[..argc]);
      var verdict := Dispatch(argv, input.env);
      record := Record(before, verdict, isMounted != 0);
    }

    /** do_shell, on a finite list of input lines. */
    method DoShell(inputs: seq<Input>) returns (trace: seq<Record>)
      requires Valid() && SafeRun(Now(), inputs)
      modifies this, path
      ensures Valid()
      ensures trace == RunOf(old(Now()), inputs).0
      ensures Now() == RunOf(old(Now()), inputs).1
    {
      var buf := new char[LINE_SIZE];
      var ptrs := new nat[ARGV_SLOTS];
      ghost var s := Now();
      ghost var whole := RunOf(s, inputs);
      trace := [];
      var k := 0;
      assert inputs[0..] == inputs;
      while k < |inputs|
        invariant 0 <= k <= |inputs| && Valid() && Now() == s
        invariant Leads(whole, trace, s, inputs[k..])
      {
        assert inputs[k..][0] == inputs[k] && inputs[k..][1..] == inputs[k + 1..];
        LeadsStep(whole, trace, s, inputs[k..]);
        var record := DoLine(inputs[k], buf, ptrs);
        s := Now();
        trace := trace + [record];
        if record.verdict == Ran(Exit) {
          return;
        }
        k := k + 1;
      }
      assert inputs[k..] == [];
      LeadsEnd(whole, trace, s);
    }
  }
}
