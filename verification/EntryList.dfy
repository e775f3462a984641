/** The list of directory entries in entrylist.c: singly linked, with first,
    last and count, built at the tail and freed by a walk. */
module EntryList {
  import opened ShellEntry

  const COUNT_LIMIT: nat := 0x1_0000_0000

  /** A list item on the heap. `live` is cleared when the item is freed; an
      item may be read and freed only while it is live. */
  class Item {
    const entry: Entry
    var next: Item?
    ghost var live: bool
    ghost var place: nat

    constructor (entry: Entry)
      ensures this.entry == entry && next == null && live
    {
      this.entry := entry;
      next := null;
      live := true;
    }

    method Get() returns (e: Entry)
      requires live
      ensures e == entry
    {
      e := entry;
    }

    method Next() returns (n: Item?)
      requires live
      ensures n == next
    {
      n := next;
    }

    ghost method Free()
      requires live
      modifies this`live
      ensures !live
    {
      live := false;
    }
  }

  /** The item at a place of the list, null past its end. */
  function ItemAt(items: seq<Item>, i: nat): Item? {
    if i < |items| then items[i] else null
  }

  class List {
    var count: nat
    var first: Item?
    var last: Item?
    ghost var items: seq<Item>
    ghost var contents: seq<Entry>

    /** The items are linked in order and end in a null pointer; each stands in
        one place only. */
    ghost predicate Valid()
      reads this, items
    {
      && count == |items| == |contents| < COUNT_LIMIT
      && (forall i :: 0 <= i < |items| ==>
            items[i].place == i && items[i].live && items[i].entry == contents[i])
      && (forall i {:trigger items[i].next} :: 0 <= i < |items| ==> items[i].next == ItemAt(items, i + 1))
      && first == ItemAt(items, 0)
      && last == (if items == [] then null else items[|items| - 1])
    }

    /** init_entry_list */
    method Init()
      modifies this
      ensures Valid() && items == [] && contents == []
      ensures count == 0 && first == null && last == null
    {
      count, first, last := 0, null, null;
      items, contents := [], [];
    }

    /** add_entry_list */
    method Add(entry: Entry)
      requires Valid() && count + 1 < COUNT_LIMIT
      modifies this, last
      ensures Valid()
      ensures |items| == |old(items)| + 1 && items[..|old(items)|] == old(items)
      ensures fresh(items[|old(items)|])
      ensures contents == old(contents) + [entry]
      ensures count == old(count) + 1 && last == items[|items| - 1]
    {
      ghost var n, before := |items|, items;
      assert forall i :: 0 <= i < n - 1 ==> before[i].place != n - 1;
      var newItem := new Item(entry);
      newItem.place := n;
      if count == 0 {
        first := newItem;
        last := newItem;
      } else {
        last.next := newItem;
        last := newItem;
      }
      count := count + 1;
      items, contents := items + [newItem], contents + [entry];
      forall i {:trigger items[i].next} | 0 <= i < |items| ensures items[i].next == ItemAt(items, i + 1) {
        if i + 1 < n {
          assert items[i] == before[i] && before[i].next == old(before[i].next) == ItemAt(before, i + 1);
        }
      }
    }

    /** release_entry_list: every item is freed once and not read afterwards. */
    method Release()
      requires Valid()
      modifies this, items
      ensures Valid() && items == [] && contents == []
      ensures count == 0 && first == null && last == null
      ensures forall n :: n in old(items) ==> !n.live
    {
      if count == 0 {
        return;
      }
      var nextItem := first;
      ghost var k := 0;
      while true
        invariant 0 <= k < |items| && items == old(items)
        invariant nextItem == items[k]
        invariant forall i :: 0 <= i < |items| ==> items[i].place == i && (items[i].live <==> k <= i)
        invariant forall i {:trigger items[i].next} :: 0 <= i < |items| ==> items[i].next == ItemAt(items, i + 1)
        decreases |items| - k
      {
        var currentItem := nextItem;
        nextItem := currentItem.Next();
        assert forall i :: 0 <= i < |items| && i != k ==> items[i] != currentItem;
        currentItem.Free();
        k := k + 1;
        if nextItem == null {
          break;
        }
      }
      assert forall n :: n in items ==> !n.live;
      count, first, last := 0, null, null;
      items, contents := [], [];
    }

    /** The walk of shell_cmd_ls over the entries, and the release after it. */
    method Show() returns (shown: seq<Entry>)
      requires Valid()
      modifies this, items
      ensures shown == old(contents)
      ensures Valid() && items == [] && forall n :: n in old(items) ==> !n.live
    {
      shown := [];
      var current := first;
      ghost var k := 0;
      while current != null
        invariant 0 <= k <= |items| && Valid() && items == old(items) && contents == old(contents)
        invariant current == ItemAt(items, k)
        invariant shown == contents[..k]
        decreases |items| - k
      {
        var e := current.Get();
        shown := shown + [e];
        current := current.Next();
        k := k + 1;
      }
      Release();
    }

    /** shell_cmd_ls, with the result of the directory read and the entries that
        it adds to the list one by one. When it fails, they are left unreleased. */
    method Ls(argc: nat, readDir: int, entries: seq<Entry>) returns (code: int, shown: seq<Entry>)
      requires |entries| < COUNT_LIMIT
      modifies this
      ensures code == if argc <= 2 && readDir != 0 then -1 else 0
      ensures shown == if argc <= 2 && readDir == 0 then entries else []
      ensures argc > 2 ==> unchanged(this)
      ensures argc <= 2 ==> Valid() && contents == if readDir == 0 then [] else entries
      ensures argc <= 2 ==> fresh(items) && forall n :: n in items ==> n.live
    {
      if argc > 2 {
        return 0, [];
      }
      Init();
      for i := 0 to |entries|
        invariant Valid() && contents == entries[..i] && fresh(items)
      {
        Add(entries[i]);
      }
      if readDir != 0 {
        return -1, [];
      }
      shown := Show();
      code := 0;
    }
  }

  // ---- The list as a pointer structure ----

  /** The item reached from `n` by following `next` k times. */
  ghost function Follow(n: Item?, k: nat): Item?
    reads *
  {
    if k == 0 || n == null then n else Follow(n.next, k - 1)
  }

  /** Following `next` from `first` visits the items in order, none twice, and
      runs into the null pointer after exactly `count` steps. */
  lemma {:induction false} FollowVisitsItems(l: List, i: nat, k: nat)
    requires l.Valid() && i + k <= |l.items|
    ensures Follow(ItemAt(l.items, i), k) == ItemAt(l.items, i + k)
    decreases k
  {
    if k > 0 {
      assert l.items[i].next == ItemAt(l.items, i + 1);
      FollowVisitsItems(l, i + 1, k - 1);
    }
  }

  /** No item can be reached from itself: the list has no cycle. */
  lemma NoCycle(l: List, i: nat, k: nat)
    requires l.Valid() && i < |l.items| && k > 0
    ensures Follow(l.items[i], k) != l.items[i]
  {
    if i + k <= |l.items| {
      FollowVisitsItems(l, i, k);
    } else {
      FollowVisitsItems(l, i, |l.items| - i);
      FollowNull(l.items[i], |l.items| - i, k);
    }
  }

  lemma {:induction false} FollowNull(n: Item?, j: nat, k: nat)
    requires j <= k && Follow(n, j) == null
    ensures Follow(n, k) == null
    decreases k
  {
    if n != null && j > 0 {
      FollowNull(n.next, j - 1, k - 1);
    }
  }
}
