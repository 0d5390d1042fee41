/** The tracked allocator: a table of 128 pointer slots and an unsigned 32-bit
    count of live blocks. Every allocation is recorded in the lowest empty slot,
    every free clears the slot that holds the pointer, and anything the table
    cannot account for ends the program through ASC_ERROR.

    Pointers are abstract non-zero ids and `Null` (0) is the null pointer. What
    the C library's malloc, calloc and realloc return is a parameter of each
    operation; the bytes of the blocks are not modelled. */
module AscMem {
  const Null: nat := 0
  /** The number of slots of `pointerpool`. */
  const PoolSize: nat := 128
  /** `pointerinuse` is an `unsigned int`: its arithmetic wraps modulo 2^32. */
  const UIntRange: int := 0x1_0000_0000

  /** The allocator's state: the slots, the in-use counter, and whether ASC_ERROR
      has ended the program. */
  datatype PoolState = PoolState(slots: seq<nat>, inUse: nat, exited: bool)

  /** The state before the first call: every slot empty, nothing in use. */
  function Initial(): (s: PoolState)
    ensures |s.slots| == PoolSize && Count(s.slots) == 0 && s.inUse == 0 && !s.exited
  {
    var slots := seq(PoolSize, _ => Null);
    CountNone(slots);
    PoolState(slots, 0, false)
  }

  // ---------------------------------------------------------------------------
  // Slots
  // ---------------------------------------------------------------------------

  /** The number of non-null slots. */
  function Count(slots: seq<nat>): (n: nat)
    ensures n <= |slots|
  {
    if |slots| == 0 then 0
    else Count(slots[..|slots| - 1]) + (if slots[|slots| - 1] != Null then 1 else 0)
  }

  /** A table without pointers counts none. */
  lemma {:induction false} CountNone(slots: seq<nat>)
    requires forall k | 0 <= k < |slots| :: slots[k] == Null
    ensures Count(slots) == 0
  {
    if |slots| > 0 {
      CountNone(slots[..|slots| - 1]);
    }
  }

  /** A table whose every slot holds a pointer counts all of them, and any other
      counts fewer. */
  lemma {:induction false} CountFull(slots: seq<nat>)
    ensures Count(slots) == |slots| <==> forall k | 0 <= k < |slots| :: slots[k] != Null
  {
    if |slots| > 0 {
      CountFull(slots[..|slots| - 1]);
    }
  }

  /** Storing a pointer in an empty slot counts one more; clearing a full slot
      counts one fewer. */
  lemma {:induction false} CountUpdate(slots: seq<nat>, k: nat, p: nat)
    requires k < |slots|
    ensures slots[k] == Null && p != Null ==> Count(slots[k := p]) == Count(slots) + 1
    ensures slots[k] != Null && p == Null ==> Count(slots[k := p]) + 1 == Count(slots)
  {
    if k < |slots| - 1 {
      CountUpdate(slots[..|slots| - 1], k, p);
      assert slots[k := p][..|slots| - 1] == slots[..|slots| - 1][k := p];
    } else {
      assert slots[k := p][..|slots| - 1] == slots[..|slots| - 1];
    }
  }

  /** The lowest slot from i on that is empty, or |slots| when there is none. */
  function FirstNull(slots: seq<nat>, i: nat): (k: nat)
    requires i <= |slots|
    ensures i <= k <= |slots|
    ensures forall j | i <= j < k :: slots[j] != Null
    ensures k < |slots| ==> slots[k] == Null
    decreases |slots| - i
  {
    if i == |slots| then i
    else if slots[i] == Null then i
    else FirstNull(slots, i + 1)
  }

  /** The lowest slot from i on that holds p, or |slots| when there is none. */
  function FirstMatch(slots: seq<nat>, p: nat, i: nat): (k: nat)
    requires i <= |slots|
    ensures i <= k <= |slots|
    ensures forall j | i <= j < k :: slots[j] != p
    ensures k < |slots| ==> slots[k] == p
    decreases |slots| - i
  {
    if i == |slots| then i
    else if slots[i] == p then i
    else FirstMatch(slots, p, i + 1)
  }

  /** The table after recording p: p in the lowest empty slot, or the table as it
      was when there is no empty slot. */
  function Record(slots: seq<nat>, p: nat): seq<nat>
  {
    var k := FirstNull(slots, 0);
    if k < |slots| then slots[k := p] else slots
  }

  // ---------------------------------------------------------------------------
  // The operations on the state
  // ---------------------------------------------------------------------------

  /** ASC_MALLOC and ASC_CALLOC, given what the C allocator returned: the program
      ends when more than 128 blocks are counted as in use or the allocator
      failed; otherwise the count goes up and the block is recorded. */
  function Allocate(s: PoolState, block: nat): (r: (PoolState, nat))
    requires !s.exited
    ensures r.0.exited <==> s.inUse > 128 || block == Null
    ensures r.0.exited ==> r.0 == s.(exited := true) && r.1 == Null
    ensures !r.0.exited ==> r.1 == block && r.0.inUse == (s.inUse + 1) % UIntRange && r.0.slots == Record(s.slots, block)
  {
    if s.inUse > 128 then (s.(exited := true), Null)
    else if block == Null then (s.(exited := true), Null)
    else (PoolState(Record(s.slots, block), (s.inUse + 1) % UIntRange, false), block)
  }

  /** ASC_REALLOC, given what the C realloc returned: the program ends unless some
      slot holds the pointer (a null pointer matches an empty slot) and realloc
      succeeded. The table and the count never change. */
  function Reallocate(s: PoolState, p: nat, block: nat): (r: (PoolState, nat))
    requires !s.exited
    ensures r.0.exited <==> p !in s.slots || block == Null
    ensures r.0.slots == s.slots && r.0.inUse == s.inUse
    ensures !r.0.exited ==> r.1 == block
  {
    if p !in s.slots then (s.(exited := true), Null)
    else if block == Null then (s.(exited := true), Null)
    else (s, block)
  }

  /** ASC_FREE: a null pointer is ignored; a pointer in the table has its first
      slot cleared and the count goes down (wrapping below 0); any other pointer
      ends the program. */
  function Release(s: PoolState, p: nat): (t: PoolState)
    requires !s.exited
    ensures p == Null ==> t == s
    ensures p != Null && p !in s.slots ==> t == s.(exited := true)
    ensures p != Null && p in s.slots ==>
      var k := FirstMatch(s.slots, p, 0);
      k < |s.slots| && t.slots == s.slots[k := Null] && t.inUse == (s.inUse - 1) % UIntRange && !t.exited
  {
    if p == Null then s
    else
      var k := FirstMatch(s.slots, p, 0);
      if k < |s.slots| then PoolState(s.slots[k := Null], (s.inUse - 1) % UIntRange, s.exited)
      else s.(exited := true)
  }

  /** ASC_FREEALL over the slots in order, with n blocks still counted: each
      non-null slot is freed and counted down until the count is 0. The result is
      the pointers freed, in order, and the final count. */
  function Sweep(slots: seq<nat>, n: nat): (seq<nat>, nat)
  {
    if |slots| == 0 || n == 0 then ([], n)
    else if slots[0] != Null then
      var r := Sweep(slots[1..], n - 1);
      ([slots[0]] + r.0, r.1)
    else Sweep(slots[1..], n)
  }

  /** ASC_FREEALL frees min(n, Count(slots)) pointers, all of them from the table,
      and counts down by exactly that many. */
  lemma {:induction false} SweepFrees(slots: seq<nat>, n: nat)
    ensures var r := Sweep(slots, n);
      |r.0| == (if n <= Count(slots) then n else Count(slots)) && r.1 == n - |r.0| &&
      forall j | 0 <= j < |r.0| :: r.0[j] != Null && r.0[j] in slots
  {
    if |slots| > 0 && n > 0 {
      SweepFrees(slots[1..], if slots[0] != Null then n - 1 else n);
      CountFront(slots);
    }
  }

  /** Count, taken from the front. */
  lemma {:induction false} CountFront(slots: seq<nat>)
    requires |slots| > 0
    ensures Count(slots) == (if slots[0] != Null then 1 else 0) + Count(slots[1..])
  {
    if |slots| > 1 {
      CountFront(slots[..|slots| - 1]);
      assert slots[..|slots| - 1][1..] == slots[1..][..|slots| - 2];
    }
  }

  /** ASC_FREEALL: the table is left as it was and the count drops by the number of
      pointers freed. */
  function ReleaseAll(s: PoolState): (r: (PoolState, seq<nat>))
    ensures r.0.slots == s.slots && r.0.exited == s.exited
  {
    var w := Sweep(s.slots, s.inUse);
    (s.(inUse := w.1), w.0)
  }

  // ---------------------------------------------------------------------------
  // The bookkeeping invariant
  // ---------------------------------------------------------------------------

  /** The count agrees with the table. */
  predicate Tracked(s: PoolState)
  {
    |s.slots| == PoolSize && s.inUse == Count(s.slots)
  }

  /** While fewer than 128 blocks are live, a successful allocation records its
      block and keeps the count in step with the table. */
  lemma AllocateTracked(s: PoolState, block: nat)
    requires Tracked(s) && !s.exited && s.inUse < PoolSize
    ensures var r := Allocate(s, block);
      !r.0.exited ==> Tracked(r.0) && block in r.0.slots
  {
    var k := FirstNull(s.slots, 0);
    if k == |s.slots| {
      CountFull(s.slots);
    } else if block != Null {
      CountUpdate(s.slots, k, block);
      assert Allocate(s, block).0.slots[k] == block;
    }
  }

  /** A free that does not end the program keeps the count in step with the
      table. */
  lemma ReleaseTracked(s: PoolState, p: nat)
    requires Tracked(s) && !s.exited
    ensures !Release(s, p).exited ==> Tracked(Release(s, p))
  {
    if p != Null && p in s.slots {
      var k := FirstMatch(s.slots, p, 0);
      CountUpdate(s.slots, k, Null);
    }
  }

  /** A block that realloc moved is not recorded: its old address stays in the
      table, and freeing the new address ends the program. */
  lemma ReallocateMoved(s: PoolState, p: nat, block: nat)
    requires !s.exited && p != Null && p in s.slots && block != Null && block !in s.slots
    ensures var r := Reallocate(s, p, block);
      !r.0.exited && r.1 == block && p in r.0.slots && Release(r.0, block).exited
  {
  }

  /** Reallocating the null pointer succeeds exactly when some slot is empty and
      realloc succeeded, and leaves the new block unrecorded. */
  lemma ReallocateNull(s: PoolState, block: nat)
    requires !s.exited
    ensures !Reallocate(s, Null, block).0.exited <==> Count(s.slots) < |s.slots| && block != Null
  {
    CountFull(s.slots);
  }

  /** Freeing a pointer the table holds, after ASC_FREEALL, wraps the count: the
      table still holds it, but the count is already 0 and drops to 2^32 - 1, so
      the next allocation ends the program. */
  lemma ReleaseAfterFreeAll(s: PoolState, p: nat, block: nat)
    requires Tracked(s) && !s.exited && p != Null && p in s.slots
    ensures var t := Release(ReleaseAll(s).0, p);
      t.inUse == UIntRange - 1 && !t.exited && Allocate(t, block).0.exited
  {
    SweepFrees(s.slots, s.inUse);
  }

  /** With all 128 slots taken, `pointerinuse > 128` is false: the 129th block is
      handed out, counted, and recorded nowhere. */
  lemma FullPoolAllocates(s: PoolState, block: nat)
    requires Tracked(s) && !s.exited && s.inUse == PoolSize && block != Null && block !in s.slots
    ensures var r := Allocate(s, block);
      !r.0.exited && r.1 == block && r.0.inUse == 129 && block !in r.0.slots && !Tracked(r.0)
  {
    CountFull(s.slots);
  }

  /** The allocation test meant to keep every block recorded: the program ends
      once all 128 slots are counted as in use. */
  function AllocateFixed(s: PoolState, block: nat): (r: (PoolState, nat))
    requires !s.exited
    ensures r.0.exited <==> s.inUse >= PoolSize || block == Null
    ensures s.inUse < PoolSize ==> r == Allocate(s, block)
  {
    if s.inUse >= PoolSize then (s.(exited := true), Null)
    else Allocate(s, block)
  }

  /** With that test every allocation that succeeds records its block and keeps
      the count in step with the table, from any tracked state. */
  lemma AllocateFixedTracked(s: PoolState, block: nat)
    requires Tracked(s) && !s.exited
    ensures var r := AllocateFixed(s, block);
      !r.0.exited ==> Tracked(r.0) && block in r.0.slots && r.1 == block
  {
    if s.inUse < PoolSize {
      AllocateTracked(s, block);
    }
  }

  // ---------------------------------------------------------------------------
  // The allocator
  // ---------------------------------------------------------------------------

  /** `pointerpool` and `pointerinuse`, and whether the program has ended. No call
      happens after ASC_ERROR has ended the program. */
  class Allocator {
    var pool: array<nat>
    var inUse: nat
    var exited: bool

    predicate Valid()
      reads this
    {
      pool.Length == PoolSize && inUse < UIntRange
    }

    function State(): PoolState
      reads this, pool
    {
      PoolState(pool[..], inUse, exited)
    }

    /** The zero-initialised globals. */
    constructor ()
      ensures Valid() && State() == Initial() && fresh(pool)
    {
      pool := new nat[PoolSize](_ => Null);
      inUse := 0;
      exited := false;
    }

    /** The slot scan of ASC_MALLOC and ASC_CALLOC: p goes into the lowest empty
        slot, if there is one. */
    method Track(p: nat)
      requires Valid()
      modifies pool
      ensures pool[..] == Record(old(pool[..]), p)
    {
      for i := 0 to PoolSize
        invariant pool[..] == old(pool[..])
        invariant FirstNull(pool[..], 0) >= i
      {
        if pool[i] == Null {
          pool[i] := p;
          return;
        }
        assert FirstNull(pool[..], 0) == FirstNull(pool[..], i + 1) by {
          FirstNullSkips(pool[..], i);
        }
      }
    }

    /** ASC_MALLOC, with `block` the result of malloc. The full-table test is
        `pointerinuse > 128` as written (see `FullPoolAllocates`). */
    method Malloc(block: nat) returns (p: nat)
      requires Valid() && !exited
      modifies this, pool
      ensures Valid() && pool == old(pool)
      ensures (State(), p) == Allocate(old(State()), block)
    {
      if inUse > 128 {
        exited := true;
        return Null;
      }
      if block == Null {
        exited := true;
        return Null;
      }
      inUse := (inUse + 1) % UIntRange;
      Track(block);
      p := block;
    }

    /** ASC_CALLOC, with `block` the result of calloc: the same bookkeeping as
        ASC_MALLOC (the zeroed contents are not modelled). */
    method Calloc(block: nat) returns (p: nat)
      requires Valid() && !exited
      modifies this, pool
      ensures Valid() && pool == old(pool)
      ensures (State(), p) == Allocate(old(State()), block)
    {
      p := Malloc(block);
    }

    /** ASC_REALLOC of p, with `block` the result of realloc. */
    method Realloc(p: nat, block: nat) returns (q: nat)
      requires Valid() && !exited
      modifies this
      ensures Valid() && pool == old(pool) && pool[..] == old(pool[..])
      ensures (State(), q) == Reallocate(old(State()), p, block)
    {
      var i := 0;
      var found := false;
      while i < PoolSize
        invariant 0 <= i < PoolSize && !found
        invariant pool == old(pool) && Valid() && !exited
        invariant p !in pool[..i]
      {
        if pool[i] == p {
          found := true;
          break;
        }
        if i == PoolSize - 1 && !found {
          assert pool[..] == pool[..i] + [pool[i]];
          exited := true;
          return Null;
        }
        i := i + 1;
      }
      assert p in pool[..];
      q := block;
      if q == Null {
        exited := true;
      }
    }

    /** ASC_FREE. */
    method Free(p: nat)
      requires Valid() && !exited
      modifies this, pool
      ensures Valid() && pool == old(pool)
      ensures State() == Release(old(State()), p)
    {
      if p == Null {
        return;
      }
      var i := 0;
      while i < PoolSize
        invariant 0 <= i < PoolSize && pool == old(pool)
        invariant pool[..] == old(pool[..]) && inUse == old(inUse) && !exited
        invariant FirstMatch(pool[..], p, 0) >= i
      {
        if pool[i] == p {
          pool[i] := Null;
          inUse := (inUse - 1) % UIntRange;
          return;
        }
        assert FirstMatch(pool[..], p, 0) == FirstMatch(pool[..], p, i + 1) by {
          FirstMatchSkips(pool[..], p, i);
        }
        if i == PoolSize - 1 {
          exited := true;
          return;
        }
        i := i + 1;
      }
    }

    /** ASC_FREEALL; `freed` lists the pointers handed to free, in order. */
    method FreeAll() returns (freed: seq<nat>)
      requires Valid() && !exited
      modifies this
      ensures Valid() && pool == old(pool) && pool[..] == old(pool[..])
      ensures (State(), freed) == ReleaseAll(old(State()))
    {
      freed := [];
      var i := 0;
      while i < PoolSize && inUse > 0
        invariant 0 <= i <= PoolSize && inUse <= old(inUse)
        invariant pool == old(pool) && Valid() && !exited
        invariant freed + Sweep(pool[i..], inUse).0 == Sweep(pool[..], old(inUse)).0
        invariant Sweep(pool[i..], inUse).1 == Sweep(pool[..], old(inUse)).1
      {
        assert pool[i..][1..] == pool[i + 1..];
        if pool[i] != Null {
          freed := freed + [pool[i]];
          inUse := inUse - 1;
        }
        i := i + 1;
      }
      assert Sweep(pool[i..], inUse) == ([], inUse);
      assert freed + [] == freed;
    }
  }

  /** The scan for an empty slot passes a slot that holds a pointer. */
  lemma FirstNullSkips(slots: seq<nat>, i: nat)
    requires i < |slots| && slots[i] != Null && FirstNull(slots, 0) >= i
    ensures FirstNull(slots, 0) == FirstNull(slots, i + 1)
  {
  }

  /** The scan for p passes a slot that does not hold it. */
  lemma FirstMatchSkips(slots: seq<nat>, p: nat, i: nat)
    requires i < |slots| && slots[i] != p && FirstMatch(slots, p, 0) >= i
    ensures FirstMatch(slots, p, 0) == FirstMatch(slots, p, i + 1)
  {
  }
}
