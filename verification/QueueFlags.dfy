/** The flag word of a request queue (blkedv.h.c) as a set of flag numbers. */
module QueueFlags {
  import opened Arithmetic
  import opened Bits

  const WORD_BITS: nat := 64
  type Flag = f: nat | f < 64

  const SYNCFULL: Flag := 3
  const ASYNCFULL: Flag := 4

  /** An unsigned long. */
  predicate IsWord(w: nat) { w < Pow2(WORD_BITS) }

  function Mask(f: Flag): nat { Pow2(f) }

  /** test_bit, __set_bit and __clear_bit */
  predicate Test(w: nat, f: Flag) { And(w, Mask(f)) != 0 }
  function SetBit(w: nat, f: Flag): nat { Or(w, Mask(f)) }
  function ClearBit(w: nat, f: Flag): nat { AndNot(w, Mask(f)) }

  /** The flags whose bits are set. */
  function Flags(w: nat): set<Flag> { set f: Flag | 0 <= f < 64 && Bit(w, f) }

  /** Words are compared as sets flag by flag. */
  lemma FlagsAre(w: nat, flags: set<Flag>)
    requires forall g: Flag :: Bit(w, g) <==> g in flags
    ensures Flags(w) == flags
  {
  }

  lemma SetFlag(w: nat, f: Flag)
    requires IsWord(w)
    ensures IsWord(SetBit(w, f)) && Flags(SetBit(w, f)) == Flags(w) + {f}
  {
    Pow2Strict(f, WORD_BITS);
    OrWidth(w, Mask(f), WORD_BITS);
    forall g: Flag ensures Bit(SetBit(w, f), g) <==> g in Flags(w) + {f} {
      BitOfOr(w, Mask(f), g);
      BitOfPow2(f, g);
    }
    FlagsAre(SetBit(w, f), Flags(w) + {f});
  }

  lemma ClearFlag(w: nat, f: Flag)
    requires IsWord(w)
    ensures IsWord(ClearBit(w, f)) && Flags(ClearBit(w, f)) == Flags(w) - {f}
  {
    AndNotWidth(w, Mask(f));
    forall g: Flag ensures Bit(ClearBit(w, f), g) <==> g in Flags(w) - {f} {
      BitOfAndNot(w, Mask(f), g);
      BitOfPow2(f, g);
    }
    FlagsAre(ClearBit(w, f), Flags(w) - {f});
  }

  lemma TestFlag(w: nat, f: Flag)
    ensures Test(w, f) <==> f in Flags(w)
  {
    AndPow2(w, f);
  }

  /** Words with the same flags are the same: the set leaves nothing out. */
  lemma FlagsDetermineWord(v: nat, w: nat)
    requires IsWord(v) && IsWord(w) && Flags(v) == Flags(w)
    ensures v == w
  {
    forall k: nat ensures Bit(v, k) <==> Bit(w, k) {
      if k >= WORD_BITS {
        BitsBelow(v, WORD_BITS, k);
        BitsBelow(w, WORD_BITS, k);
      } else {
        assert k in Flags(v) <==> k in Flags(w);
      }
    }
    BitsDetermine(v, w);
  }

  // ---- The operations, on the word and on the set ----

  datatype Op =
    | Set(flag: Flag)
    | Clear(flag: Flag)
    | TestAndSet(flag: Flag)
    | TestAndClear(flag: Flag)
    | SetFull(sync: bool)
    | ClearFull(sync: bool)
    | Full(sync: bool)

  function FullFlag(sync: bool): Flag { if sync then SYNCFULL else ASYNCFULL }

  function Target(op: Op): Flag {
    if op.SetFull? || op.ClearFull? || op.Full? then FullFlag(op.sync) else op.flag
  }

  /** What an operation makes of the word, and what it returns. */
  function OnWord(w: nat, op: Op): (nat, int) {
    match op
    case Set(f) => (SetBit(w, f), 0)
    case Clear(f) => (ClearBit(w, f), 0)
    case TestAndSet(f) => if !Test(w, f) then (SetBit(w, f), 0) else (w, 1)
    case TestAndClear(f) => if Test(w, f) then (ClearBit(w, f), 1) else (w, 0)
    case SetFull(sync) => (SetBit(w, FullFlag(sync)), 0)
    case ClearFull(sync) => (ClearBit(w, FullFlag(sync)), 0)
    case Full(sync) => (w, if Test(w, FullFlag(sync)) then 1 else 0)
  }

  /** What it means for a set of flags. */
  function OnSet(s: set<Flag>, op: Op): (set<Flag>, int) {
    var f := Target(op);
    var r := if !op.Set? && !op.Clear? && !op.SetFull? && !op.ClearFull? && f in s then 1 else 0;
    if op.Set? || op.TestAndSet? || op.SetFull? then (s + {f}, r)
    else if op.Full? then (s, r)
    else (s - {f}, r)
  }

  lemma OpRefines(w: nat, op: Op)
    requires IsWord(w)
    ensures IsWord(OnWord(w, op).0)
    ensures Flags(OnWord(w, op).0) == OnSet(Flags(w), op).0
    ensures OnWord(w, op).1 == OnSet(Flags(w), op).1
  {
    SetFlag(w, Target(op));
    ClearFlag(w, Target(op));
    TestFlag(w, Target(op));
  }

  function RunOnWord(w: nat, ops: seq<Op>): (nat, seq<int>)
    decreases |ops|
  {
    if ops == [] then (w, []) else
      var step := OnWord(w, ops[0]);
      var rest := RunOnWord(step.0, ops[1..]);
      (rest.0, [step.1] + rest.1)
  }

  function RunOnSet(s: set<Flag>, ops: seq<Op>): (set<Flag>, seq<int>)
    decreases |ops|
  {
    if ops == [] then (s, []) else
      var step := OnSet(s, ops[0]);
      var rest := RunOnSet(step.0, ops[1..]);
      (rest.0, [step.1] + rest.1)
  }

  /** Over every run of operations the word is the set of its flags, and every
      returned old value is the one the set gives. */
  lemma {:induction false} RunRefinesSet(w: nat, ops: seq<Op>)
    requires IsWord(w)
    ensures IsWord(RunOnWord(w, ops).0)
    ensures Flags(RunOnWord(w, ops).0) == RunOnSet(Flags(w), ops).0
    ensures RunOnWord(w, ops).1 == RunOnSet(Flags(w), ops).1
    decreases |ops|
  {
    if ops != [] {
      OpRefines(w, ops[0]);
      RunRefinesSet(OnWord(w, ops[0]).0, ops[1..]);
    }
  }

  /** A run leaves every flag alone that it does not name; in particular runs on
      the sync side never disturb the async full flag, nor the other way round. */
  lemma {:induction false} OtherFlagsUntouched(w: nat, ops: seq<Op>, g: Flag)
    requires IsWord(w) && forall i :: 0 <= i < |ops| ==> Target(ops[i]) != g
    ensures g in Flags(RunOnWord(w, ops).0) <==> g in Flags(w)
    decreases |ops|
  {
    if ops != [] {
      var w' := OnWord(w, ops[0]).0;
      OpRefines(w, ops[0]);
      OtherFlagsUntouched(w', ops[1..], g);
    }
  }

  /** The operation is one of those on the full flag of that side. */
  predicate OnSide(op: Op, sync: bool) {
    match op
    case SetFull(s) => s == sync
    case ClearFull(s) => s == sync
    case Full(s) => s == sync
    case _ => false
  }

  /** The two full flags are flag 3 and flag 4, so operations on one side never
      change what the other side reads. */
  lemma SidesAreApart(w: nat, ops: seq<Op>, sync: bool)
    requires IsWord(w) && forall i :: 0 <= i < |ops| ==> OnSide(ops[i], sync)
    ensures FullFlag(true) == 3 && FullFlag(false) == 4
    ensures OnWord(RunOnWord(w, ops).0, Full(!sync)).1 == OnWord(w, Full(!sync)).1
  {
    OtherFlagsUntouched(w, ops, FullFlag(!sync));
    TestFlag(w, FullFlag(!sync));
    TestFlag(RunOnWord(w, ops).0, FullFlag(!sync));
  }

  // ---- The operations themselves ----

  class RequestQueue {
    var queueFlags: nat

    ghost predicate Valid()
      reads this
    {
      IsWord(queueFlags)
    }

    /** queue_flag_set, queue_flag_set_unlocked */
    method FlagSet(flag: Flag)
      requires Valid()
      modifies this
      ensures Valid()
      ensures queueFlags == OnWord(old(queueFlags), Set(flag)).0
      ensures Flags(queueFlags) == old(Flags(queueFlags)) + {flag}
    {
      SetFlag(queueFlags, flag);
      queueFlags := SetBit(queueFlags, flag);
    }

    /** queue_flag_clear, queue_flag_clear_unlocked */
    method FlagClear(flag: Flag)
      requires Valid()
      modifies this
      ensures Valid()
      ensures queueFlags == OnWord(old(queueFlags), Clear(flag)).0
      ensures Flags(queueFlags) == old(Flags(queueFlags)) - {flag}
    {
      ClearFlag(queueFlags, flag);
      queueFlags := ClearBit(queueFlags, flag);
    }

    /** queue_flag_test_and_clear */
    method FlagTestAndClear(flag: Flag) returns (r: int)
      requires Valid()
      modifies this
      ensures Valid()
      ensures (queueFlags, r) == OnWord(old(queueFlags), TestAndClear(flag))
      ensures Flags(queueFlags) == old(Flags(queueFlags)) - {flag}
      ensures r == if flag in old(Flags(queueFlags)) then 1 else 0
    {
      TestFlag(queueFlags, flag);
      if Test(queueFlags, flag) {
        ClearFlag(queueFlags, flag);
        queueFlags := ClearBit(queueFlags, flag);
        return 1;
      }
      return 0;
    }

    /** queue_flag_test_and_set */
    method FlagTestAndSet(flag: Flag) returns (r: int)
      requires Valid()
      modifies this
      ensures Valid()
      ensures (queueFlags, r) == OnWord(old(queueFlags), TestAndSet(flag))
      ensures Flags(queueFlags) == old(Flags(queueFlags)) + {flag}
      ensures r == if flag in old(Flags(queueFlags)) then 1 else 0
    {
      TestFlag(queueFlags, flag);
      if !Test(queueFlags, flag) {
        SetFlag(queueFlags, flag);
        queueFlags := SetBit(queueFlags, flag);
        return 0;
      }
      return 1;
    }

    /** blk_queue_full */
    method QueueFull(sync: bool) returns (r: bool)
      ensures r <==> (if sync then SYNCFULL else ASYNCFULL) in Flags(queueFlags)
    {
      TestFlag(queueFlags, SYNCFULL);
      TestFlag(queueFlags, ASYNCFULL);
      if sync {
        return Test(queueFlags, SYNCFULL);
      }
      return Test(queueFlags, ASYNCFULL);
    }

    /** blk_set_queue_full */
    method SetQueueFull(sync: bool)
      requires Valid()
      modifies this
      ensures Valid()
      ensures queueFlags == OnWord(old(queueFlags), SetFull(sync)).0
      ensures Flags(queueFlags) == old(Flags(queueFlags)) + {if sync then SYNCFULL else ASYNCFULL}
    {
      if sync {
        FlagSet(SYNCFULL);
      } else {
        FlagSet(ASYNCFULL);
      }
    }

    /** blk_clear_queue_full */
    method ClearQueueFull(sync: bool)
      requires Valid()
      modifies this
      ensures Valid()
      ensures queueFlags == OnWord(old(queueFlags), ClearFull(sync)).0
      ensures Flags(queueFlags) == old(Flags(queueFlags)) - {if sync then SYNCFULL else ASYNCFULL}
    {
      if sync {
        FlagClear(SYNCFULL);
      } else {
        FlagClear(ASYNCFULL);
      }
    }
  }
}
