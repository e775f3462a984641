/** The directory stack behind `cd` in shell.c, on values: which move a command
    asks for, and what it does to the stack and the current directory. */
module Navigation {
  import opened ShellEntry

  const PATH_SLOTS: nat := 256
  const EXT2_SUCCESS: int := 0

  /** What the file system's lookup returns, and the entry it fills in. */
  datatype Reply = Reply(result: int, entry: Entry)

  /** The lookup of the mounted file system: directory and name to reply. */
  type Lookup = (Entry, string) -> Reply

  /** The static path array, its top, and the current and root directories. */
  datatype Nav = Nav(path: seq<Entry>, top: nat, cur: Entry, root: Entry) {
    ghost predicate Valid() { |path| == PATH_SLOTS && top < PATH_SLOTS }
  }

  datatype Move = Usage | Stay | Reset | Pop | Push(entry: Entry) | NotFound | NotDirectory

  /** `cd` takes the result EXT2_SUCCESS of a lookup to mean "not found". */
  predicate Enters(r: Reply) { r.result != EXT2_SUCCESS && r.entry.isDirectory }

  function Decide(top: nat, cur: Entry, argv: seq<string>, lookup: Lookup): Move
    requires argv != []
  {
    if |argv| > 2 then Usage
    else if |argv| == 1 then Reset
    else if argv[1] == "." then Stay
    else if argv[1] == ".." && top > 0 then Pop
    else
      var r := lookup(cur, argv[1]);
      if r.result == EXT2_SUCCESS then NotFound
      else if !r.entry.isDirectory then NotDirectory
      else Push(r.entry)
  }

  /** The command does not push past the end of the path array. */
  ghost predicate Fits(nav: Nav, argv: seq<string>, lookup: Lookup)
    requires argv != []
  {
    Decide(nav.top, nav.cur, argv, lookup).Push? ==> nav.top + 1 < PATH_SLOTS
  }

  /** shell_cmd_cd: the new state and the returned value. */
  function Cd(nav: Nav, argv: seq<string>, lookup: Lookup): (r: (Nav, int))
    requires nav.Valid() && argv != [] && Fits(nav, argv, lookup)
    ensures r.0.Valid()
  {
    var path := nav.path[0 := nav.root];
    match Decide(nav.top, nav.cur, argv, lookup)
    case Usage => (nav.(path := path), 0)
    case Stay => (nav.(path := path), 0)
    case Reset => (nav.(path := path, top := 0, cur := path[0]), 0)
    case Pop => (nav.(path := path, top := nav.top - 1, cur := path[nav.top - 1]), 0)
    case Push(e) => (nav.(path := path[nav.top + 1 := e], top := nav.top + 1, cur := e), 0)
    case NotFound => (nav.(path := path), -1)
    case NotDirectory => (nav.(path := path), -1)
  }

  /** What mounting does to the stack: the root and the current directory
      change, the path array and its top stay as the last session left them. */
  function Remount(nav: Nav, root: Entry): Nav {
    nav.(root := root, cur := root)
  }

  // ---- Runs of cd commands ----

  /** One `cd` command and the file system it meets. */
  datatype Cmd = Cmd(argv: seq<string>, lookup: Lookup)

  ghost predicate Safe(nav: Nav, cmds: seq<Cmd>)
    requires nav.Valid()
    decreases |cmds|
  {
    cmds == [] ||
    (cmds[0].argv != [] && Fits(nav, cmds[0].argv, cmds[0].lookup)
     && Safe(Cd(nav, cmds[0].argv, cmds[0].lookup).0, cmds[1..]))
  }

  ghost function Run(nav: Nav, cmds: seq<Cmd>): (r: Nav)
    requires nav.Valid() && Safe(nav, cmds)
    ensures r.Valid()
    decreases |cmds|
  {
    if cmds == [] then nav else Run(Cd(nav, cmds[0].argv, cmds[0].lookup).0, cmds[1..])
  }

  /** The values the commands of a run return. */
  ghost function Codes(nav: Nav, cmds: seq<Cmd>): seq<int>
    requires nav.Valid() && Safe(nav, cmds)
    decreases |cmds|
  {
    if cmds == [] then [] else
      var (nav', code) := Cd(nav, cmds[0].argv, cmds[0].lookup);
      [code] + Codes(nav', cmds[1..])
  }
}
