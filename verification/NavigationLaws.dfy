/** What runs of `cd` commands do to the current directory. */
module NavigationLaws {
  import opened Navigation
  import opened ShellEntry

  // ---- The array and its top are a stack of directories below the root ----

  /** The directories entered and not left again, outermost first. */
  function Stack(nav: Nav): (s: seq<Entry>)
    requires nav.Valid()
    ensures |s| == nav.top
  {
    nav.path[1..nav.top + 1]
  }

  /** Where one is with a stack of entered directories. */
  function Here(root: Entry, stack: seq<Entry>): Entry {
    if stack == [] then root else stack[|stack| - 1]
  }

  /** Where the shell stands, without array or top: the root, the current
      directory, and the directories entered and not left again. */
  datatype Place = Place(root: Entry, cur: Entry, stack: seq<Entry>)

  function PlaceOf(nav: Nav): Place
    requires nav.Valid()
  {
    Place(nav.root, nav.cur, Stack(nav))
  }

  /** The current directory is the top of the stack, or else the root. */
  ghost predicate AtTop(p: Place) { p.cur == Here(p.root, p.stack) }

  ghost predicate Consistent(nav: Nav) { nav.Valid() && AtTop(PlaceOf(nav)) }

  // What a command means, by its arguments and the reply it gets.

  predicate IsBare(c: Cmd) { |c.argv| == 1 }

  predicate Ascends(p: Place, c: Cmd) { |c.argv| == 2 && c.argv[1] == ".." && p.stack != [] }

  predicate Descends(p: Place, c: Cmd) {
    && |c.argv| == 2 && c.argv[1] != "." && !(c.argv[1] == ".." && p.stack != [])
    && Enters(c.lookup(p.cur, c.argv[1]))
  }

  /** A name that is looked up and found by no directory. */
  predicate Fails(p: Place, c: Cmd) {
    && |c.argv| == 2 && c.argv[1] != "." && !Ascends(p, c)
    && (c.lookup(p.cur, c.argv[1]).result == 0 || !c.lookup(p.cur, c.argv[1]).entry.isDirectory)
  }

  function NextPlace(p: Place, c: Cmd): Place {
    if IsBare(c) then Place(p.root, p.root, [])
    else if Ascends(p, c) then
      var stack := p.stack[..|p.stack| - 1];
      Place(p.root, Here(p.root, stack), stack)
    else if Descends(p, c) then
      var e := c.lookup(p.cur, c.argv[1]).entry;
      Place(p.root, e, p.stack + [e])
    else p
  }

  function PlaceAfter(p: Place, cmds: seq<Cmd>): Place
    decreases |cmds|
  {
    if cmds == [] then p else PlaceAfter(NextPlace(p, cmds[0]), cmds[1..])
  }

  lemma Stayed(nav: Nav)
    requires nav.Valid()
    ensures PlaceOf(nav.(path := nav.path[0 := nav.root])) == PlaceOf(nav)
  {
    assert nav.path[0 := nav.root][1..nav.top + 1] == nav.path[1..nav.top + 1];
  }

  lemma Popped(nav: Nav)
    requires nav.Valid() && nav.top > 0
    ensures var path, stack := nav.path[0 := nav.root], Stack(nav)[..nav.top - 1];
            PlaceOf(nav.(path := path, top := nav.top - 1, cur := path[nav.top - 1]))
            == Place(nav.root, Here(nav.root, stack), stack)
  {
    var path, top := nav.path[0 := nav.root], nav.top;
    assert path[1..top] == nav.path[1..top] == nav.path[1..top + 1][..top - 1];
    if top > 1 {
      assert nav.path[1..top][top - 2] == path[top - 1];
    }
  }

  lemma Pushed(nav: Nav, e: Entry)
    requires nav.Valid() && nav.top + 1 < PATH_SLOTS
    ensures var path := nav.path[0 := nav.root][nav.top + 1 := e];
            PlaceOf(nav.(path := path, top := nav.top + 1, cur := e)) == Place(nav.root, e, Stack(nav) + [e])
  {
    var path := nav.path[0 := nav.root][nav.top + 1 := e];
    assert path[1..nav.top + 2] == Stack(nav) + [e];
  }

  /** One command moves the array and its top as it moves the place; it fits the
      array exactly when the stack it leads to is lower than the array. */
  lemma CdIsNextPlace(nav: Nav, c: Cmd)
    requires nav.Valid() && c.argv != []
    ensures Fits(nav, c.argv, c.lookup) <==> |NextPlace(PlaceOf(nav), c).stack| < PATH_SLOTS
    ensures Fits(nav, c.argv, c.lookup) ==>
              PlaceOf(Cd(nav, c.argv, c.lookup).0) == NextPlace(PlaceOf(nav), c)
    ensures Fits(nav, c.argv, c.lookup) ==>
              Cd(nav, c.argv, c.lookup).1 == if Fails(PlaceOf(nav), c) then -1 else 0
  {
    match Decide(nav.top, nav.cur, c.argv, c.lookup) {
      case Pop => Popped(nav);
      case Push(e) => if nav.top + 1 < PATH_SLOTS { Pushed(nav, e); }
      case _ => Stayed(nav);
    }
  }

  /** Over every run the array and its top hold the place that the commands mean. */
  lemma {:induction false} RunIsPlaceAfter(nav: Nav, cmds: seq<Cmd>)
    requires nav.Valid() && Safe(nav, cmds)
    ensures PlaceOf(Run(nav, cmds)) == PlaceAfter(PlaceOf(nav), cmds)
    decreases |cmds|
  {
    if cmds != [] {
      CdIsNextPlace(nav, cmds[0]);
      RunIsPlaceAfter(Cd(nav, cmds[0].argv, cmds[0].lookup).0, cmds[1..]);
    }
  }

  lemma {:induction false} PlacesStayAtTop(p: Place, cmds: seq<Cmd>)
    requires AtTop(p)
    ensures AtTop(PlaceAfter(p, cmds)) && PlaceAfter(p, cmds).root == p.root
    decreases |cmds|
  {
    if cmds != [] {
      PlacesStayAtTop(NextPlace(p, cmds[0]), cmds[1..]);
    }
  }

  /** In every run from a consistent state the current directory is the top of
      the stack that the commands mean, or the root when that is empty. */
  lemma RunStaysConsistent(nav: Nav, cmds: seq<Cmd>)
    requires Consistent(nav) && Safe(nav, cmds)
    ensures Consistent(Run(nav, cmds))
    ensures Run(nav, cmds).cur == Here(nav.root, PlaceAfter(PlaceOf(nav), cmds).stack)
  {
    RunIsPlaceAfter(nav, cmds);
    PlacesStayAtTop(PlaceOf(nav), cmds);
  }

  // ---- The stack is a path of names resolved from the root ----

  /** The directory a path of names leads to. */
  function Resolve(lookup: Lookup, root: Entry, names: seq<string>): Entry {
    if names == [] then root
    else lookup(Resolve(lookup, root, names[..|names| - 1]), names[|names| - 1]).entry
  }

  /** Every step of the path enters a directory. */
  ghost predicate Walkable(lookup: Lookup, root: Entry, names: seq<string>) {
    forall k :: 0 <= k < |names| ==> Enters(lookup(Resolve(lookup, root, names[..k]), names[k]))
  }

  /** The working path, as names, after one command. */
  function NextNames(lookup: Lookup, root: Entry, names: seq<string>, argv: seq<string>): seq<string> {
    if |argv| == 1 then []
    else if |argv| != 2 || argv[1] == "." then names
    else if argv[1] == ".." && names != [] then names[..|names| - 1]
    else if Enters(lookup(Resolve(lookup, root, names), argv[1])) then names + [argv[1]]
    else names
  }

  function NamesAfter(lookup: Lookup, root: Entry, names: seq<string>, lines: seq<seq<string>>): seq<string>
    decreases |lines|
  {
    if lines == [] then names
    else NamesAfter(lookup, root, NextNames(lookup, root, names, lines[0]), lines[1..])
  }

  /** The stack holds the directories along the path. */
  ghost predicate Spells(lookup: Lookup, root: Entry, stack: seq<Entry>, names: seq<string>) {
    && |stack| == |names|
    && forall k :: 0 <= k < |stack| ==> stack[k] == Resolve(lookup, root, names[..k + 1])
  }

  lemma SpellsShorter(lookup: Lookup, root: Entry, stack: seq<Entry>, names: seq<string>, n: nat)
    requires Spells(lookup, root, stack, names) && Walkable(lookup, root, names) && n <= |names|
    ensures Spells(lookup, root, stack[..n], names[..n]) && Walkable(lookup, root, names[..n])
  {
    assert forall k :: 0 <= k <= n ==> names[..n][..k] == names[..k];
  }

  lemma SpellsLonger(lookup: Lookup, root: Entry, stack: seq<Entry>, names: seq<string>, name: string)
    requires Spells(lookup, root, stack, names) && Walkable(lookup, root, names)
    requires Enters(lookup(Resolve(lookup, root, names), name))
    ensures var e := lookup(Resolve(lookup, root, names), name).entry;
            Spells(lookup, root, stack + [e], names + [name]) && Walkable(lookup, root, names + [name])
  {
    var longer := names + [name];
    assert longer[..|names|] == names && longer[..|longer|] == longer;
    assert forall k :: 0 <= k <= |names| ==> longer[..k] == names[..k];
  }

  lemma SpellsStep(lookup: Lookup, p: Place, names: seq<string>, argv: seq<string>)
    requires AtTop(p) && Spells(lookup, p.root, p.stack, names) && Walkable(lookup, p.root, names)
    ensures Spells(lookup, p.root, NextPlace(p, Cmd(argv, lookup)).stack, NextNames(lookup, p.root, names, argv))
    ensures Walkable(lookup, p.root, NextNames(lookup, p.root, names, argv))
  {
    assert names[..|names|] == names;
    assert p.cur == Resolve(lookup, p.root, names);
    var c := Cmd(argv, lookup);
    if Ascends(p, c) {
      SpellsShorter(lookup, p.root, p.stack, names, |names| - 1);
    } else if Descends(p, c) {
      SpellsLonger(lookup, p.root, p.stack, names, argv[1]);
    }
  }

  lemma {:induction false} PlaceResolvesPath(p: Place, names: seq<string>, cmds: seq<Cmd>, lookup: Lookup, lines: seq<seq<string>>)
    requires AtTop(p) && Spells(lookup, p.root, p.stack, names) && Walkable(lookup, p.root, names)
    requires |lines| == |cmds| && forall i :: 0 <= i < |cmds| ==> cmds[i] == Cmd(lines[i], lookup)
    ensures var path, end := NamesAfter(lookup, p.root, names, lines), PlaceAfter(p, cmds);
            end.cur == Resolve(lookup, p.root, path) && |end.stack| == |path| && Walkable(lookup, p.root, path)
    decreases |cmds|
  {
    assert names[..|names|] == names;
    if cmds != [] {
      SpellsStep(lookup, p, names, lines[0]);
      PlacesStayAtTop(p, [cmds[0]]);
      assert PlaceAfter(p, [cmds[0]]) == NextPlace(p, cmds[0]);
      PlaceResolvesPath(NextPlace(p, cmds[0]), NextNames(lookup, p.root, names, lines[0]), cmds[1..], lookup, lines[1..]);
    }
  }

  /** With a file system that does not change, the shell is always in the
      directory that its working path of names leads to from the root. */
  lemma RunResolvesPath(nav: Nav, names: seq<string>, cmds: seq<Cmd>, lookup: Lookup, lines: seq<seq<string>>)
    requires Consistent(nav) && Safe(nav, cmds)
    requires |lines| == |cmds| && forall i :: 0 <= i < |cmds| ==> cmds[i] == Cmd(lines[i], lookup)
    requires Spells(lookup, nav.root, Stack(nav), names) && Walkable(lookup, nav.root, names)
    ensures var path := NamesAfter(lookup, nav.root, names, lines);
            && Run(nav, cmds).cur == Resolve(lookup, nav.root, path)
            && Run(nav, cmds).top == |path|
            && Walkable(lookup, nav.root, path)
  {
    RunIsPlaceAfter(nav, cmds);
    PlaceResolvesPath(PlaceOf(nav), names, cmds, lookup, lines);
  }

  // ---- Trips that come back ----

  /** The top never goes below `floor` during the run. */
  ghost predicate StaysAbove(nav: Nav, cmds: seq<Cmd>, floor: nat)
    requires nav.Valid() && Safe(nav, cmds)
    decreases |cmds|
  {
    nav.top >= floor &&
    (cmds != [] ==> StaysAbove(Cd(nav, cmds[0].argv, cmds[0].lookup).0, cmds[1..], floor))
  }

  lemma {:induction false} FloorUntouched(nav: Nav, cmds: seq<Cmd>, floor: nat)
    requires nav.Valid() && Safe(nav, cmds) && StaysAbove(nav, cmds, floor) && floor < PATH_SLOTS
    ensures Run(nav, cmds).path[1..floor + 1] == nav.path[1..floor + 1]
    ensures nav.path[0] == nav.root ==> Run(nav, cmds).path[0] == nav.root
    decreases |cmds|
  {
    if cmds != [] {
      var nav' := Cd(nav, cmds[0].argv, cmds[0].lookup).0;
      CdIsNextPlace(nav, cmds[0]);
      assert nav'.top >= floor && nav'.path[0] == nav'.root == nav.root;
      assert nav'.path[1..floor + 1] == nav.path[1..floor + 1];
      FloorUntouched(nav', cmds[1..], floor);
    }
  }

  /** A trip that ends at the height where it began and never goes below it
      restores the current directory, the top and the entered directories,
      whatever `cd .`, failed `cd` and usage errors it contains, also right
      after a mount. The bottom slot is restored too unless it was stale. */
  lemma TripComesBack(nav: Nav, cmds: seq<Cmd>)
    requires Consistent(nav) && Safe(nav, cmds)
    requires StaysAbove(nav, cmds, nav.top) && Run(nav, cmds).top == nav.top
    ensures PlaceOf(Run(nav, cmds)) == PlaceOf(nav)
    ensures nav.path[0] == nav.root ==> Run(nav, cmds).path[..nav.top + 1] == nav.path[..nav.top + 1]
  {
    FloorUntouched(nav, cmds, nav.top);
    RunIsPlaceAfter(nav, cmds);
    PlacesStayAtTop(PlaceOf(nav), cmds);
    var nav' := Run(nav, cmds);
    assert nav'.path[..nav.top + 1] == [nav'.path[0]] + nav'.path[1..nav.top + 1];
    assert nav.path[..nav.top + 1] == [nav.path[0]] + nav.path[1..nav.top + 1];
  }

  // ---- Room in the array ----

  /** A run stays inside the path array exactly when the stack that its commands
      mean is never as high as the array. */
  lemma {:induction false} SafeIffHeight(nav: Nav, cmds: seq<Cmd>)
    requires nav.Valid() && forall i :: 0 <= i < |cmds| ==> cmds[i].argv != []
    ensures Safe(nav, cmds) <==>
            forall k: nat :: k <= |cmds| ==> |PlaceAfter(PlaceOf(nav), cmds[..k]).stack| < 256
    decreases |cmds|
  {
    var p := PlaceOf(nav);
    if cmds != [] {
      var c, rest := cmds[0], cmds[1..];
      CdIsNextPlace(nav, c);
      PrefixAfter(p, cmds, 1);
      assert rest[..0] == [];
      if Fits(nav, c.argv, c.lookup) {
        SafeIffHeight(Cd(nav, c.argv, c.lookup).0, rest);
        forall k: nat | k <= |cmds|
          ensures k > 0 ==> PlaceAfter(p, cmds[..k]) == PlaceAfter(NextPlace(p, c), rest[..k - 1])
        {
          if k > 0 { PrefixAfter(p, cmds, k); }
        }
        if forall k: nat :: k <= |cmds| ==> |PlaceAfter(p, cmds[..k]).stack| < PATH_SLOTS {
          forall k: nat | k <= |rest| ensures |PlaceAfter(NextPlace(p, c), rest[..k]).stack| < PATH_SLOTS {
            PrefixAfter(p, cmds, k + 1);
          }
        }
      }
    }
  }

  lemma PrefixAfter(p: Place, cmds: seq<Cmd>, k: nat)
    requires 0 < k <= |cmds|
    ensures PlaceAfter(p, cmds[..k]) == PlaceAfter(NextPlace(p, cmds[0]), cmds[1..][..k - 1])
  {
    assert cmds[..k][0] == cmds[0] && cmds[..k][1..] == cmds[1..][..k - 1];
  }

  /** How many commands of a run enter a directory, and how many leave one. */
  function Pushes(p: Place, cmds: seq<Cmd>): nat
    decreases |cmds|
  {
    if cmds == [] then 0
    else (if Descends(p, cmds[0]) then 1 else 0) + Pushes(NextPlace(p, cmds[0]), cmds[1..])
  }

  function Pops(p: Place, cmds: seq<Cmd>): nat
    decreases |cmds|
  {
    if cmds == [] then 0
    else (if Ascends(p, cmds[0]) then 1 else 0) + Pops(NextPlace(p, cmds[0]), cmds[1..])
  }

  lemma {:induction false} HeightIsNet(p: Place, cmds: seq<Cmd>)
    requires forall i :: 0 <= i < |cmds| ==> !IsBare(cmds[i])
    ensures |PlaceAfter(p, cmds).stack| == |p.stack| + Pushes(p, cmds) - Pops(p, cmds)
    decreases |cmds|
  {
    if cmds != [] {
      assert forall i :: 0 <= i < |cmds[1..]| ==> cmds[1..][i] == cmds[i + 1];
      HeightIsNet(NextPlace(p, cmds[0]), cmds[1..]);
    }
  }

  /** Without a bare `cd` a run stays inside the array exactly when the pushes less
      the pops never bring the height to the length of the array. */
  lemma SafeIffNet(nav: Nav, cmds: seq<Cmd>)
    requires nav.Valid() && forall i :: 0 <= i < |cmds| ==> cmds[i].argv != [] && !IsBare(cmds[i])
    ensures Safe(nav, cmds) <==>
            forall k: nat :: k <= |cmds| ==>
              nav.top + Pushes(PlaceOf(nav), cmds[..k]) - Pops(PlaceOf(nav), cmds[..k]) < 256
  {
    SafeIffHeight(nav, cmds);
    forall k: nat | k <= |cmds|
      ensures |PlaceAfter(PlaceOf(nav), cmds[..k]).stack|
              == nav.top + Pushes(PlaceOf(nav), cmds[..k]) - Pops(PlaceOf(nav), cmds[..k])
    {
      HeightIsNet(PlaceOf(nav), cmds[..k]);
    }
  }

  lemma {:induction false} PlaceAfterConcat(p: Place, a: seq<Cmd>, b: seq<Cmd>)
    ensures PlaceAfter(p, a + b) == PlaceAfter(PlaceAfter(p, a), b)
    decreases |a|
  {
    if a == [] {
      assert a + b == b;
    } else {
      assert (a + b)[0] == a[0] && (a + b)[1..] == a[1..] + b;
      PlaceAfterConcat(NextPlace(p, a[0]), a[1..], b);
    }
  }

  /** The height is the pushes minus the pops since the last bare `cd`. */
  lemma HeightSinceBare(p: Place, before: seq<Cmd>, bare: Cmd, after: seq<Cmd>)
    requires IsBare(bare) && forall i :: 0 <= i < |after| ==> !IsBare(after[i])
    ensures var empty := Place(PlaceAfter(p, before).root, PlaceAfter(p, before).root, []);
            |PlaceAfter(p, before + [bare] + after).stack| == Pushes(empty, after) - Pops(empty, after)
  {
    var q := PlaceAfter(p, before);
    PlaceAfterConcat(p, before + [bare], after);
    PlaceAfterConcat(p, before, [bare]);
    assert PlaceAfter(q, [bare]) == NextPlace(q, bare);
    HeightIsNet(NextPlace(q, bare), after);
  }

  /** A command raises the height by one at most. */
  lemma {:induction false} HeightBound(p: Place, cmds: seq<Cmd>)
    ensures |PlaceAfter(p, cmds).stack| <= |p.stack| + |cmds|
    decreases |cmds|
  {
    if cmds != [] {
      HeightBound(NextPlace(p, cmds[0]), cmds[1..]);
    }
  }

  /** So from height `top`, 255 - top commands cannot overrun the array. */
  lemma ShortRunsAreSafe(nav: Nav, cmds: seq<Cmd>)
    requires nav.Valid() && nav.top + |cmds| < PATH_SLOTS
    requires forall i :: 0 <= i < |cmds| ==> cmds[i].argv != []
    ensures Safe(nav, cmds)
  {
    forall k: nat | k <= |cmds| ensures |PlaceAfter(PlaceOf(nav), cmds[..k]).stack| < PATH_SLOTS {
      HeightBound(PlaceOf(nav), cmds[..k]);
    }
    SafeIffHeight(nav, cmds);
  }

  // ---- Mount sessions ----

  /** What can be seen of a run: the current directory and the returned values. */
  ghost predicate SameSight(a: Nav, b: Nav, cmds: seq<Cmd>)
    requires a.Valid() && b.Valid()
  {
    Safe(a, cmds) && Safe(b, cmds) ==>
      Run(a, cmds).cur == Run(b, cmds).cur && Codes(a, cmds) == Codes(b, cmds)
  }

  /** Equal up to what lies above the top of the path array. */
  ghost predicate Alike(a: Nav, b: Nav) {
    a.Valid() && b.Valid() && PlaceOf(a) == PlaceOf(b)
  }

  lemma {:induction false} AlikeLookTheSame(a: Nav, b: Nav, cmds: seq<Cmd>)
    requires Alike(a, b)
    ensures SameSight(a, b, cmds)
    decreases |cmds|
  {
    if cmds != [] && Safe(a, cmds) && Safe(b, cmds) {
      var argv, lookup := cmds[0].argv, cmds[0].lookup;
      CdIsNextPlace(a, cmds[0]);
      CdIsNextPlace(b, cmds[0]);
      AlikeLookTheSame(Cd(a, argv, lookup).0, Cd(b, argv, lookup).0, cmds[1..]);
    }
  }

  function NothingThere(root: Entry): Lookup { (d, n) => Reply(EXT2_SUCCESS, root) }

  /** A mount starts afresh, that is, no later run of `cd` can tell it from one
      on an empty stack, exactly when the stack was empty before: a `cd ..`
      right after the mount tells them apart otherwise, and from a stack of two
      or more leads to a directory of the session before. */
  lemma RemountIsFreshIff(nav: Nav, root: Entry)
    requires nav.Valid()
    ensures (forall cmds: seq<Cmd> :: SameSight(Remount(nav, root), Remount(nav.(top := 0), root), cmds))
        <==> nav.top == 0
    ensures nav.top == 0 ==> Consistent(Remount(nav, root)) && Stack(Remount(nav, root)) == []
    ensures nav.top >= 2 ==> forall lookup: Lookup ::
              Cd(Remount(nav, root), ["cd", ".."], lookup).0.cur == Stack(nav)[nav.top - 2]
  {
    var stale, anew := Remount(nav, root), Remount(nav.(top := 0), root);
    if nav.top == 0 {
      forall cmds: seq<Cmd> ensures SameSight(stale, anew, cmds) {
        AlikeLookTheSame(stale, anew, cmds);
      }
    } else {
      var up := Cmd(["cd", ".."], NothingThere(root));
      var s := Cd(stale, up.argv, up.lookup);
      var f := Cd(anew, up.argv, up.lookup);
      assert [up][1..] == [];
      assert Safe(stale, [up]) && Safe(anew, [up]);
      assert Codes(stale, [up]) == [0] + Codes(s.0, []) && Codes(anew, [up]) == [-1] + Codes(f.0, []);
      assert Codes(stale, [up])[0] != Codes(anew, [up])[0];
      assert !SameSight(stale, anew, [up]);
    }
  }

  // ---- The meaning of the lookup result ----

  /** No name is taken to be a directory in `dir`. */
  ghost predicate NoWayDown(lookup: Lookup, dir: Entry) {
    forall n: string :: n != "." ==> lookup(dir, n).result == 0 || !lookup(dir, n).entry.isDirectory
  }

  ghost predicate AtRoot(nav: Nav) { nav.Valid() && nav.top == 0 && nav.cur == nav.root }

  lemma {:induction false} NoWayDownStays(nav: Nav, cmds: seq<Cmd>)
    requires AtRoot(nav) && Safe(nav, cmds)
    requires forall i :: 0 <= i < |cmds| ==> NoWayDown(cmds[i].lookup, nav.root)
    ensures AtRoot(Run(nav, cmds))
    decreases |cmds|
  {
    if cmds != [] {
      var c := cmds[0];
      assert NoWayDown(c.lookup, nav.root);
      var nav' := Cd(nav, c.argv, c.lookup).0;
      assert AtRoot(nav') && nav'.root == nav.root;
      assert forall i :: 0 <= i < |cmds[1..]| ==> cmds[1..][i] == cmds[i + 1];
      NoWayDownStays(nav', cmds[1..]);
    }
  }

  /** All commands meet the same file system. */
  ghost predicate OneLookup(cmds: seq<Cmd>, lookup: Lookup) {
    forall i :: 0 <= i < |cmds| ==> cmds[i].lookup == lookup
  }

  /** A run can leave the root exactly when some lookup in the root itself is
      taken to find a directory. */
  lemma StuckAtRootIff(nav: Nav, lookup: Lookup)
    requires AtRoot(nav)
    ensures NoWayDown(lookup, nav.root) <==>
            forall cmds: seq<Cmd> :: OneLookup(cmds, lookup) && Safe(nav, cmds) ==> AtRoot(Run(nav, cmds))
  {
    if n: string :| n != "." && Enters(lookup(nav.root, n)) {
      var c := Cmd(["cd", n], lookup);
      assert [c][1..] == [];
      assert OneLookup([c], lookup) && Safe(nav, [c]);
      assert Run(nav, [c]) == Cd(nav, c.argv, lookup).0 && Run(nav, [c]).top == 1;
    } else {
      forall cmds: seq<Cmd> | OneLookup(cmds, lookup) && Safe(nav, cmds) ensures AtRoot(Run(nav, cmds)) {
        NoWayDownStays(nav, cmds);
      }
    }
  }

  /** So with lookups that return EXT2_SUCCESS whenever they find a directory,
      no run of `cd` ever leaves the root. */
  lemma SuccessfulLookupsLeadNowhere(nav: Nav, cmds: seq<Cmd>)
    requires AtRoot(nav) && Safe(nav, cmds)
    requires forall i, n: string :: 0 <= i < |cmds| && cmds[i].lookup(nav.root, n).entry.isDirectory ==>
               cmds[i].lookup(nav.root, n).result == EXT2_SUCCESS
    ensures AtRoot(Run(nav, cmds))
  {
    NoWayDownStays(nav, cmds);
  }
}
