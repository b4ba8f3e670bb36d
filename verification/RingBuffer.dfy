/**
 The bounded history that all three contracts keep: a growing list, a `head` and a cap,
 with push until full and overwrite at `head` after that.

 The abstract value of a ring is the full sequence of everything ever pushed.
 The ring keeps its last `cap` elements, and the backward walk of the views reads
 them back in order, as long as the 32-bit index arithmetic does not wrap.
 */
module RingBuffer {
  import opened Prelude

  /** The most recent n elements, oldest first. */
  function LastN<T>(history: seq<T>, n: nat): seq<T>
    requires n <= |history|
  {
    history[|history| - n..]
  }

  /** How the list and head represent a history: unrotated until full, then rotated left by head. */
  ghost predicate Holds<T>(slots: seq<T>, head: nat, cap: nat, history: seq<T>) {
    && 1 <= cap
    && if |history| < cap then slots == history && head == 0
       else && |slots| == cap
            && head == |history| % cap
            && slots[head..] + slots[..head] == LastN(history, cap)
  }

  /** The history position stored in slot j. */
  function Origin(j: nat, n: nat, head: nat, cap: nat): int {
    if n < cap then j else if head <= j then n - cap + (j - head) else n - head + j
  }

  lemma HoldsAt<T>(slots: seq<T>, head: nat, cap: nat, history: seq<T>, j: nat)
    requires Holds(slots, head, cap, history) && j < |slots|
    ensures |slots| == Min(|history|, cap)
    ensures |history| - |slots| <= Origin(j, |history|, head, cap) < |history|
    ensures slots[j] == history[Origin(j, |history|, head, cap)]
  {
    var n := |history|;
    if cap <= n {
      var w := slots[head..] + slots[..head];
      var at := if head <= j then j - head else cap - head + j;
      assert w[at] == slots[j];
      assert LastN(history, cap)[at] == history[n - cap + at];
    }
  }

  /** Position k is held exactly while it is among the last cap, and then always in slot k mod cap. */
  lemma SlotOf<T>(slots: seq<T>, head: nat, cap: nat, history: seq<T>, k: nat)
    requires Holds(slots, head, cap, history)
    requires |history| - cap <= k < |history|
    ensures k % cap < |slots|
    ensures Origin(k % cap, |history|, head, cap) == k
    ensures slots[k % cap] == history[k]
  {
    var n := |history|;
    if n < cap {
      ModUnique(k, cap, 0, k);
    } else {
      var q := n / cap;
      assert n == q * cap + head;
      if n - head <= k {
        ModUnique(k, cap, q, k - (n - head));
      } else {
        assert k == (q - 1) * cap + (k - (n - head) + cap) by {
          assert (q - 1) * cap == q * cap - cap;
        }
        ModUnique(k, cap, q - 1, k - (n - head) + cap);
      }
    }
    HoldsAt(slots, head, cap, history, k % cap);
  }

  lemma OriginMod(j: nat, n: nat, head: nat, cap: nat)
    requires 1 <= cap && j < cap
    requires if n < cap then head == 0 else head == n % cap
    ensures var k := Origin(j, n, head, cap); 0 <= k && k % cap == j
  {
    if n < cap {
      ModUnique(j, cap, 0, j);
    } else {
      var q := Quotient(n, cap);
      MulAtLeast(q, cap);
      assert q * cap == n - head;
      if head <= j {
        assert (q - 1) * cap == q * cap - cap;
        ModUnique(n - cap + (j - head), cap, q - 1, j);
      } else {
        ModUnique(n - head + j, cap, q, j);
      }
    }
  }

  lemma PushHolds<T>(slots: seq<T>, head: nat, cap: nat, history: seq<T>, x: T)
    requires Holds(slots, head, cap, history)
    ensures |slots| < cap ==> Holds(slots + [x], head, cap, history + [x])
    ensures |slots| == cap ==> head < cap && Holds(slots[head := x], (head + 1) % cap, cap, history + [x])
  {
    var h' := history + [x];
    ModSucc(|history|, cap);
    if |history| + 1 == cap {
      ModUnique(cap, cap, 1, 0);
    }
    if cap <= |history| {
      var s', next := slots[head := x], (head + 1) % cap;
      var w := slots[head..] + slots[..head];
      assert LastN(h', cap) == LastN(history, cap)[1..] + [x];
      if head + 1 == cap {
        assert s'[next..] + s'[..next] == slots[..head] + [x];
        assert w[1..] == slots[..head];
      } else {
        assert s'[next..] == slots[head + 1..] && s'[..next] == slots[..head] + [x];
        assert w[1..] == slots[head + 1..] + slots[..head];
      }
    }
  }

  lemma ReplaceHolds<T>(slots: seq<T>, head: nat, cap: nat, history: seq<T>, j: nat, x: T)
    requires Holds(slots, head, cap, history) && j < |slots|
    ensures 0 <= Origin(j, |history|, head, cap) < |history|
    ensures Holds(slots[j := x], head, cap, history[Origin(j, |history|, head, cap) := x])
  {
    HoldsAt(slots, head, cap, history, j);
    var n, k := |history|, Origin(j, |history|, head, cap);
    if cap <= n {
      var s', h' := slots[j := x], history[k := x];
      var w := slots[head..] + slots[..head];
      var w' := s'[head..] + s'[..head];
      forall i | 0 <= i < cap ensures w'[i] == LastN(h', cap)[i] {
        assert w[i] == LastN(history, cap)[i];
      }
    }
  }

  // ---- the backward index walk of the views, in 32-bit arithmetic ----

  function WrappingAdd(a: U32, b: U32): U32 {
    if a + b < U32_SIZE then a + b else a + b - U32_SIZE
  }

  function WrappingSub(a: U32, b: U32): U32 {
    if b <= a then a - b else a - b + U32_SIZE
  }

  /** `(idx + cap - 1) % cap` on a 32-bit usize: the sum wraps before the remainder is taken. */
  function Prev32(idx: U32, cap: U32): (prev: U32)
    requires 1 <= cap
    ensures prev < cap
  {
    WrappingSub(WrappingAdd(idx, cap), 1) % cap
  }

  /** The k-th slot visited when walking back from head. */
  function Visited32(head: U32, cap: U32, k: nat): (slot: U32)
    requires 1 <= cap
    ensures slot < cap
  {
    Prev32(if k == 0 then head else Visited32(head, cap, k - 1), cap)
  }

  /** The slot that k steps back from head should visit. */
  function Visited(head: nat, cap: nat, k: nat): int {
    if k < head then head - 1 - k else cap + head - 1 - k
  }

  predicate WalkFits(head: nat, cap: nat, steps: nat) {
    (steps == 0 || head + cap <= U32_SIZE) && (steps <= head + 1 || cap <= U32_SIZE / 2)
  }

  lemma Prev32Exact(idx: U32, cap: U32)
    requires idx < cap
    ensures Prev32(idx, cap) == (if idx == 0 then cap - 1 else idx - 1) <==> idx + cap <= U32_SIZE
  {
    if idx + cap <= U32_SIZE {
      ModUnique(idx + cap - 1, cap, if idx == 0 then 0 else 1, if idx == 0 then cap - 1 else idx - 1);
    } else {
      ModUnique(idx + cap - 1 - U32_SIZE, cap, 0, idx + cap - 1 - U32_SIZE);
    }
  }

  lemma {:induction false} WalkSound(head: U32, cap: U32, steps: nat, k: nat)
    requires head < cap && k < steps <= cap && WalkFits(head, cap, steps)
    ensures Visited32(head, cap, k) == Visited(head, cap, k)
  {
    if k == 0 {
      Prev32Exact(head, cap);
    } else {
      WalkSound(head, cap, steps, k - 1);
      Prev32Exact(Visited(head, cap, k - 1), cap);
    }
  }

  /** The walk visits the right slots exactly when no step of it wraps past 2^32. */
  lemma {:induction false} WalkExact(head: U32, cap: U32, steps: nat)
    requires head < cap && steps <= cap
    ensures (forall k :: 0 <= k < steps ==> Visited32(head, cap, k) == Visited(head, cap, k)) <==>
            WalkFits(head, cap, steps)
  {
    if WalkFits(head, cap, steps) {
      forall k | 0 <= k < steps ensures Visited32(head, cap, k) == Visited(head, cap, k) {
        WalkSound(head, cap, steps, k);
      }
    } else if head + cap > U32_SIZE {
      Prev32Exact(head, cap);
      assert Visited32(head, cap, 0) != Visited(head, cap, 0);
    } else if Visited32(head, cap, head) == Visited(head, cap, head) {
      Prev32Exact(cap - 1, cap);
      assert Visited32(head, cap, head + 1) != Visited(head, cap, head + 1);
    }
  }

  /** A cap of at most 2^31 makes every walk safe, and no larger cap does. */
  lemma WalkSafeCaps(cap: U32)
    requires 1 <= cap
    ensures cap <= U32_SIZE / 2 <==>
            forall head: nat, steps: nat :: head < cap && steps <= cap ==> WalkFits(head, cap, steps)
  {
    if cap > U32_SIZE / 2 {
      assert !WalkFits(0, cap, 2);
    }
  }

  function Reverse<T>(s: seq<T>): seq<T> {
    seq(|s|, i requires 0 <= i < |s| => s[|s| - 1 - i])
  }

  /** What `steps` rounds of the walk collect, newest first. */
  function ReadBack<T>(slots: seq<T>, head: U32, steps: nat): (out: seq<T>)
    requires 1 <= |slots| < U32_SIZE
    ensures |out| == steps
  {
    if steps == 0 then [] else ReadBack(slots, head, steps - 1) + [slots[Visited32(head, |slots|, steps - 1)]]
  }

  lemma {:induction false} ReadBackAt<T>(slots: seq<T>, head: U32, steps: nat, k: nat)
    requires 1 <= |slots| < U32_SIZE && k < steps
    ensures ReadBack(slots, head, steps)[k] == slots[Visited32(head, |slots|, k)]
  {
    if k < steps - 1 {
      ReadBackAt(slots, head, steps - 1, k);
    }
  }

  /** On a full ring, an unwrapped walk reversed is the tail of the history. */
  lemma ReadBackIsTail<T>(slots: seq<T>, head: U32, cap: U32, history: seq<T>, steps: nat)
    requires Holds(slots, head, cap, history) && cap <= |history| && steps <= cap && WalkFits(head, cap, steps)
    ensures Reverse(ReadBack(slots, head, steps)) == LastN(history, steps)
  {
    var out := ReadBack(slots, head, steps);
    forall i | 0 <= i < steps ensures Reverse(out)[i] == LastN(history, steps)[i] {
      var k := steps - 1 - i;
      ReadBackAt(slots, head, steps, k);
      WalkSound(head, cap, steps, k);
      HoldsAt(slots, head, cap, history, Visited(head, cap, k));
    }
  }

  class Ring<T> {
    const cap: U32
    var slots: seq<T>
    var head: U32
    ghost var history: seq<T>

    ghost predicate Valid()
      reads this
    {
      Holds(slots, head, cap, history)
    }

    constructor (cap: U32)
      requires 1 <= cap
      ensures Valid() && this.cap == cap && history == []
    {
      this.cap, slots, head, history := cap, [], 0, [];
    }

    method Push(x: T)
      requires Valid()
      modifies this
      ensures Valid() && history == old(history) + [x]
    {
      PushHolds(slots, head, cap, history, x);
      HoldsSize();
      if |slots| < cap {
        slots := slots + [x];
      } else {
        slots := slots[head := x];
        head := (head + 1) % cap;
      }
      history := history + [x];
    }

    /** Overwrites one record in place; the history changes at that record and nowhere else. */
    method Replace(j: nat, x: T)
      requires Valid() && j < |slots|
      modifies this
      ensures Valid()
      ensures 0 <= Origin(j, |old(history)|, old(head), cap) < |old(history)|
      ensures history == old(history)[Origin(j, |old(history)|, old(head), cap) := x]
    {
      ReplaceHolds(slots, head, cap, history, j, x);
      slots := slots[j := x];
      history := history[Origin(j, |history|, head, cap) := x];
    }

    lemma HoldsSize()
      requires Valid()
      ensures |slots| == Min(|history|, cap) && head < cap
    {
    }

    /** The full-ring half of the view: walk back `steps` slots from head, then reverse. */
    method WalkBack(steps: nat) returns (r: seq<T>)
      requires Valid() && cap <= |history| && 1 <= steps <= cap
      ensures r == Reverse(ReadBack(slots, head, steps))
    {
      HoldsSize();
      var out := [];
      var idx := Prev32(head, cap);
      for k := 0 to steps
        invariant idx == Visited32(head, cap, k)
        invariant out == ReadBack(slots, head, k)
      {
        out := out + [slots[idx]];
        idx := Prev32(idx, cap);
      }
      r := Reverse(out);
    }

    /**
     The view: up to `limit` most recent entries, oldest first. A full ring always answers with
     what the 32-bit walk visits; that is the tail of the history exactly when the walk fits.
     */
    method Recent(limit: U32) returns (r: seq<T>)
      requires Valid()
      ensures |history| < cap || WalkFits(head, cap, Min(limit, cap)) ==>
                r == LastN(history, Min(limit, Min(cap, |history|)))
      ensures cap <= |history| ==> r == Reverse(ReadBack(slots, head, Min(limit, cap)))
    {
      HoldsSize();
      var len := Min(|slots|, cap);
      var l := Min(limit, len);
      if len == 0 || l == 0 {
        return [];
      }
      if |slots| < cap {
        r := [];
        for i := |slots| - l to |slots|
          invariant r == slots[|slots| - l..i]
        {
          r := r + [slots[i]];
        }
        return;
      }
      if WalkFits(head, cap, l) {
        ReadBackIsTail(slots, head, cap, history, l);
      }
      r := WalkBack(l);
    }
  }
}
