/**
 * The RAM ring log (`ram_log.c`): a fixed array of 512 entries written
 * round-robin, with the indices and counters `ram_log_write` keeps, a
 * newest-first read-back into a bounded caller buffer, an oldest-first
 * export to a file, and clear.
 *
 * The class keeps, as ghost state, the sequence of entries stored since the
 * last init or clear; `Valid()` ties the array and every counter to it, so
 * each operation is specified against that history.
 */
module RamLog {
  import opened Common
  import opened Files

  const CAPACITY: nat := 512
  /** `RAM_LOG_ENTRY_MAX_SIZE`: room for 127 characters and the NUL. */
  const ENTRY_MAX: nat := 128
  const TWO32: nat := 0x1_0000_0000
  const EXPORT_PATH: Path := "/usr/data/log/ram_dump.log"

  /** `ram_log_entry_t`. */
  datatype Entry = Entry(content: Bytes, timestamp: nat, valid: bool)

  /** A slot after `memset(..., 0, ...)`. */
  const EMPTY := Entry([], 0, false)

  /** What `ram_log_write` stores for `text` at time `now`: the text cut to
      127 characters, the time as a `uint32_t`, and the valid mark. */
  function Stored(text: Bytes, now: int): (e: Entry)
    ensures e.valid && |e.content| <= ENTRY_MAX - 1 && e.timestamp < TWO32
    ensures e.content <= text && (|text| < ENTRY_MAX ==> e.content == text)
  {
    Entry(Take(text, ENTRY_MAX - 1), now % TWO32, true)
  }

  /** The array after writing `h` in order into a cleared buffer. */
  function Slots(h: seq<Entry>): (r: seq<Entry>)
    ensures |r| == CAPACITY
  {
    if h == [] then seq(CAPACITY, _ => EMPTY)
    else Slots(h[..|h| - 1])[(|h| - 1) % CAPACITY := h[|h| - 1]]
  }

  /** The slot of write `j` holds that write as long as it is among the
      last 512. */
  lemma {:induction false} SlotsHoldLatest(h: seq<Entry>, j: nat)
    requires j < |h| && |h| - CAPACITY <= j
    ensures Slots(h)[j % CAPACITY] == h[j]
  {
    if j < |h| - 1 {
      SlotsHoldLatest(h[..|h| - 1], j);
      assert (|h| - 1) % CAPACITY != j % CAPACITY;
    }
  }

  /** Slots the log has not reached yet are still empty. */
  lemma {:induction false} SlotsUnreached(h: seq<Entry>, k: nat)
    requires |h| <= k < CAPACITY
    ensures Slots(h)[k] == EMPTY
  {
    if h != [] {
      SlotsUnreached(h[..|h| - 1], k);
    }
  }

  /** Writing one more entry changes one slot. */
  lemma SlotsAppend(h: seq<Entry>, e: Entry)
    ensures Slots(h + [e]) == Slots(h)[|h| % CAPACITY := e]
  {
    assert (h + [e])[..|h|] == h;
  }

  lemma ModSum(x: nat, y: nat)
    ensures (x % CAPACITY + y) % CAPACITY == (x + y) % CAPACITY
  {
  }

  /** The slot `i + 1` places before slot `w`, computed with the two
      branches of `ram_log_read_latest`. */
  function BackSlot(w: nat, i: nat): (r: nat)
    requires w < CAPACITY && i < CAPACITY
    ensures r < CAPACITY
  {
    if w >= i + 1 then w - i - 1 else CAPACITY + w - i - 1
  }

  /** The slot `i` places after slot `first`. */
  function FwdSlot(first: nat, i: nat): (r: nat)
    requires first < CAPACITY && i < CAPACITY
    ensures r < CAPACITY
  {
    if first + i < CAPACITY then first + i else first + i - CAPACITY
  }

  /** The slot after `w`: `(w + 1) % RAM_LOG_ENTRY_COUNT`. */
  function NextSlot(w: nat): (r: nat)
    requires w < CAPACITY
    ensures r < CAPACITY && r == (w + 1) % CAPACITY
  {
    if w + 1 == CAPACITY then 0 else w + 1
  }

  /** One more write moves the next-write slot on by one, and the ring is
      full afterwards exactly when it was full or the slot wrapped to 0. */
  lemma Advance(n: nat)
    ensures (n + 1) % CAPACITY == NextSlot(n % CAPACITY)
    ensures (n + 1 >= CAPACITY) == (n >= CAPACITY || NextSlot(n % CAPACITY) == 0)
  {
    ModSum(n, 1);
  }

  /** `%` on an index below twice the capacity wraps at most once. */
  lemma ModSmall(x: nat)
    requires x < 2 * CAPACITY
    ensures x % CAPACITY == if x < CAPACITY then x else x - CAPACITY
  {
  }

  /** Going back `i + 1` slots from the next write after `n` writes lands on
      the slot of write `n - 1 - i`. */
  lemma BackSlotOfWrite(n: nat, i: nat)
    requires i < n && i < CAPACITY
    ensures BackSlot(n % CAPACITY, i) == (n - 1 - i) % CAPACITY
  {
  }

  /** `strcpy(buffer + used, line)`: the line and its terminator. */
  method Emit(buffer: array<bv8>, used: nat, line: Bytes)
    requires used + |line| < buffer.Length
    modifies buffer
    ensures buffer[..used + |line|] == old(buffer[..used]) + line
    ensures forall j | used + |line| < j < buffer.Length :: buffer[j] == old(buffer[j])
  {
    Put(buffer, used, line + [0]);
    assert buffer[..used + |line|] == (buffer[..used] + line + [0] + old(buffer[used + |line| + 1..]))[..used + |line|];
    forall j | used + |line| < j < buffer.Length
      ensures buffer[j] == old(buffer[j])
    {
      assert buffer[j] == buffer[..][j];
    }
  }

  /** `"[%u] %s\n"`. */
  function Line(e: Entry): Bytes
  {
    [0x5B] + DecimalBytes(e.timestamp) + [0x5D, 0x20] + e.content + [0x0A]
  }

  /** A stored entry's line fits the 160-byte `line` array, so the
      `snprintf` that renders it never truncates. */
  lemma LineFits(e: Entry)
    requires |e.content| <= ENTRY_MAX - 1 && e.timestamp < TWO32
    ensures |Line(e)| <= ENTRY_MAX + 13 < ENTRY_MAX + 32
  {
    DecimalU32(e.timestamp);
    DecimalBytesLength(e.timestamp);
  }

  /** What one entry contributes to a listing: its line if it is valid,
      nothing otherwise (a line is never empty). */
  function Shown(e: Entry): (r: Bytes)
    ensures e.valid <==> r != []
  {
    if e.valid then Line(e) else []
  }

  function Texts(es: seq<Entry>): (r: seq<Bytes>)
    ensures |r| == |es|
  {
    seq(|es|, i requires 0 <= i < |es| => Shown(es[i]))
  }

  /** The texts one after the other. */
  function Concat(ls: seq<Bytes>): Bytes
  {
    if ls == [] then [] else Concat(ls[..|ls| - 1]) + ls[|ls| - 1]
  }

  lemma ConcatSnoc(ls: seq<Bytes>, l: Bytes)
    ensures Concat(ls + [l]) == Concat(ls) + l
  {
    assert (ls + [l])[..|ls|] == ls;
  }

  /** The loop of `ram_log_read_latest` over the texts `ls` with `acc`
      already in the buffer: skip empty texts (invalid entries) and stop
      before the first line that would leave no room for the terminator. */
  function Render(ls: seq<Bytes>, size: nat, acc: Bytes): Bytes
  {
    if ls == [] then acc
    else if ls[0] == [] then Render(ls[1..], size, acc)
    else if |acc| + |ls[0]| >= size - 1 then acc
    else Render(ls[1..], size, acc + ls[0])
  }

  /** One round of the read-back loop: an empty text is skipped and a line
      that fits is appended, so the rendering goes on from the texts so far
      with one more. */
  lemma RenderStep(pre: seq<Bytes>, ls: seq<Bytes>, size: nat)
    requires ls != [] && (ls[0] == [] || |Concat(pre)| + |ls[0]| < size - 1)
    ensures Render(ls, size, Concat(pre)) == Render(ls[1..], size, Concat(pre + [ls[0]]))
  {
    ConcatSnoc(pre, ls[0]);
    if ls[0] == [] {
      assert Concat(pre) + ls[0] == Concat(pre);
      assert Render(ls, size, Concat(pre)) == Render(ls[1..], size, Concat(pre));
    } else {
      assert Render(ls, size, Concat(pre)) == Render(ls[1..], size, Concat(pre) + ls[0]);
    }
  }

  /** Read-back never splits a line: the text is the lines of some prefix
      of the entries it was given. */
  lemma {:induction false} RenderIsWholeLines(pre: seq<Bytes>, ls: seq<Bytes>, size: nat)
    ensures exists k | 0 <= k <= |ls| :: Render(ls, size, Concat(pre)) == Concat(pre + ls[..k])
    decreases |ls|
  {
    if ls == [] || (ls[0] != [] && |Concat(pre)| + |ls[0]| >= size - 1) {
      assert pre + ls[..0] == pre;
    } else {
      RenderStep(pre, ls, size);
      RenderIsWholeLines(pre + [ls[0]], ls[1..], size);
      var k :| 0 <= k <= |ls[1..]| && Render(ls[1..], size, Concat(pre + [ls[0]])) == Concat(pre + [ls[0]] + ls[1..][..k]);
      assert pre + [ls[0]] + ls[1..][..k] == pre + ls[..k + 1];
    }
  }

  /** Read-back leaves room for the terminator. */
  lemma {:induction false} RenderFits(ls: seq<Bytes>, size: nat, acc: Bytes)
    requires |acc| < size - 1 || acc == []
    ensures var r := Render(ls, size, acc); |r| < size - 1 || r == acc
  {
    if ls != [] {
      if ls[0] == [] {
        RenderFits(ls[1..], size, acc);
      } else if |acc| + |ls[0]| < size - 1 {
        RenderFits(ls[1..], size, acc + ls[0]);
      }
    }
  }

  /** When all lines fit, none is dropped. */
  lemma {:induction false} RenderAllWhenRoom(pre: seq<Bytes>, ls: seq<Bytes>, size: nat)
    requires |Concat(pre + ls)| < size - 1
    ensures Render(ls, size, Concat(pre)) == Concat(pre + ls)
    decreases |ls|
  {
    if ls == [] {
      assert pre + ls == pre;
    } else {
      assert pre + ls == (pre + [ls[0]]) + ls[1..];
      ConcatPrefix(pre + [ls[0]], ls[1..]);
      RenderStep(pre, ls, size);
      RenderAllWhenRoom(pre + [ls[0]], ls[1..], size);
    }
  }

  /** The texts of a prefix are a prefix of the texts. */
  lemma {:induction false} ConcatPrefix(a: seq<Bytes>, b: seq<Bytes>)
    ensures Concat(a) <= Concat(a + b)
  {
    if b == [] {
      assert a + b == a;
    } else {
      var b' := b[..|b| - 1];
      assert a + b == (a + b') + [b[|b| - 1]];
      ConcatSnoc(a + b', b[|b| - 1]);
      ConcatPrefix(a, b');
    }
  }

  /** `n` slots of the ring `s` going back from the slot before `next`. */
  function Backward(s: seq<Entry>, next: nat, n: nat): (r: seq<Entry>)
    requires |s| == CAPACITY && next < CAPACITY && n <= CAPACITY
    ensures |r| == n
  {
    seq(n, i requires 0 <= i < n => s[BackSlot(next, i)])
  }

  /** The loop of `ram_log_read_latest` over the ring contents `ring`
      (which the loop only reads) whose next write goes to slot `w`: renders the `k` newest slots into `buffer`;
      `used` is `buffer_used` when the loop ends. */
  method RenderNewest(ring: seq<Entry>, w: nat, k: nat, buffer: array<bv8>, size: nat) returns (used: nat)
    requires |ring| == CAPACITY && w < CAPACITY
    requires 0 < size <= buffer.Length && k <= CAPACITY
    modifies buffer
    ensures used == |Render(Texts(Backward(ring, w, k)), size, [])| && used < size
    ensures buffer[..used] == Render(Texts(Backward(ring, w, k)), size, [])
    ensures forall j | used < j < buffer.Length :: buffer[j] == old(buffer[j])
  {
    ghost var ls := Texts(Backward(ring, w, k));
    ghost var acc: Bytes := [];
    used := 0;
    var i := 0;
    while i < k
      invariant 0 <= i <= k && used == |acc| && used < size
      invariant Render(ls, size, []) == Render(ls[i..], size, acc)
      invariant buffer[..used] == acc
      invariant forall j | used < j < buffer.Length :: buffer[j] == old(buffer[j])
    {
      var index := if w >= i + 1 then w - i - 1 else CAPACITY + w - i - 1;
      var e := ring[index];
      assert ls[i..][0] == ls[i] == Shown(e) && ls[i..][1..] == ls[i + 1..];
      if !e.valid {
        assert Render(ls[i..], size, acc) == Render(ls[i + 1..], size, acc);
        i := i + 1;
        continue;
      }
      var line := Line(e);
      if used + |line| >= size - 1 {
        assert Render(ls[i..], size, acc) == acc;
        return;
      }
      assert Render(ls[i..], size, acc) == Render(ls[i + 1..], size, acc + line);
      Emit(buffer, used, line);
      acc := acc + line;
      used := used + |line|;
      i := i + 1;
    }
    assert ls[i..] == [];
  }

  /** What the loop of `ram_log_export` writes for the first `i` of the
      slots of `s` from slot `start` on: the line of every valid one. */
  function Exported(s: seq<Entry>, start: nat, i: nat): Bytes
    requires |s| == CAPACITY && start < CAPACITY && i <= CAPACITY
  {
    if i == 0 then [] else Exported(s, start, i - 1) + Shown(s[FwdSlot(start, i - 1)])
  }

  lemma ExportedStep(s: seq<Entry>, start: nat, i: nat)
    requires |s| == CAPACITY && start < CAPACITY && i < CAPACITY
    ensures Exported(s, start, i + 1) == Exported(s, start, i) + Shown(s[FwdSlot(start, i)])
  {
  }

  /** The body of `ram_log_read_latest` once `read_count` is known to be
      `k`: the rendering of the `k` newest slots and its terminator. */
  method ReadInto(ring: seq<Entry>, w: nat, k: nat, buffer: array<bv8>, size: nat)
    requires |ring| == CAPACITY && w < CAPACITY
    requires 0 < size <= buffer.Length && k <= CAPACITY
    modifies buffer
    ensures var t := Render(Texts(Backward(ring, w, k)), size, []);
      && |t| < size
      && buffer[..|t|] == t && buffer[|t|] == 0 && buffer[|t| + 1..] == old(buffer[|t| + 1..])
  {
    RenderFits(Texts(Backward(ring, w, k)), size, []);
    if k == 0 {
      buffer[0] := 0;
      return;
    }
    var used := RenderNewest(ring, w, k, buffer, size);
    buffer[used] := 0;
  }

  /** The loop of `ram_log_export` over `n` slots of the ring contents
      `ring` from slot `start` on: the bytes it hands to `fprintf`, one line
      per valid entry. */
  method ExportEntries(ring: seq<Entry>, start: nat, n: nat) returns (out: Bytes)
    requires |ring| == CAPACITY && start < CAPACITY && n <= CAPACITY
    ensures out == Exported(ring, start, n)
  {
    out := [];
    var i := 0;
    while i < n
      invariant i <= n
      invariant out == Exported(ring, start, i)
    {
      // `(start_index + i) % RAM_LOG_ENTRY_COUNT`, which wraps at most once
      // here (ModSmall)
      var entry := ring[FwdSlot(start, i)];
      ExportedStep(ring, start, i);
      if entry.valid {
        assert Shown(entry) == Line(entry);
        out := out + Line(entry);
      } else {
        assert out + Shown(entry) == out;
      }
      i := i + 1;
    }
  }

  /** The body of `ram_log_export` once the target path `p` is chosen, for
      a ring `ring` holding the writes `h` and the counters `total` and
      `overwrites`: create or truncate `p` (`openFails` says whether `fopen`
      fails), write the header and then the export loop. The file ends up
      holding the header and the lines of the last 512 writes, oldest first. */
  method ExportFile(fs: FileSystem, p: Path, openFails: bool, ring: seq<Entry>, start: nat, count: nat,
                    total: nat, overwrites: nat, ghost h: seq<Entry>)
    returns (ok: bool)
    requires ring == Slots(h) && start == Oldest(|h|) && count == Min(|h|, CAPACITY)
    requires total == |h| && overwrites == Max(0, |h| - CAPACITY)
    modifies fs
    ensures ok == !openFails
    ensures fs.files == if ok then old(fs.files)[p := ExportText(h)] else old(fs.files)
  {
    ok := fs.OpenWrite(p, openFails);
    if !ok {
      return;
    }
    var header := ExportHeader(total, overwrites);
    var lines := ExportEntries(ring, start, count);
    ExportIsTail(ring, h, start, count);
    fs.Append(p, header + lines);
    assert [] + (header + lines) == header + lines;
    UpdateTwice(old(fs.files), p, [], header + lines);
  }

  /** The whole export file after the writes `h`. */
  function ExportText(h: seq<Entry>): Bytes
  {
    ExportHeader(|h|, Max(0, |h| - CAPACITY)) + Concat(Texts(Tail(h)))
  }

  /** Every write among the last 512 of `h` sits in its slot of `s`. */
  ghost predicate HoldsLatest(s: seq<Entry>, h: seq<Entry>)
  {
    && |s| == CAPACITY
    && forall j {:trigger s[SlotOf(j)]} | 0 <= j < |h| && |h| - CAPACITY <= j :: s[SlotOf(j)] == h[j]
  }

  /** The slot of write `j`. */
  function SlotOf(j: nat): nat
  {
    j % CAPACITY
  }

  lemma HoldsAt(s: seq<Entry>, h: seq<Entry>, j: nat)
    requires HoldsLatest(s, h) && j < |h| && |h| - CAPACITY <= j
    ensures s[j % CAPACITY] == h[j]
  {
    assert s[SlotOf(j)] == h[j];
  }

  lemma SlotsHoldAll(h: seq<Entry>)
    ensures HoldsLatest(Slots(h), h)
  {
    forall j | 0 <= j < |h| && |h| - CAPACITY <= j
      ensures Slots(h)[SlotOf(j)] == h[j]
    {
      SlotsHoldLatest(h, j);
    }
  }

  /** Walking back from the slot before the next write visits the latest
      writes, newest first. */
  lemma BackwardIsLatest(s: seq<Entry>, h: seq<Entry>, k: nat)
    requires HoldsLatest(s, h) && k <= Min(|h|, CAPACITY)
    ensures Backward(s, |h| % CAPACITY, k) == Latest(h, k)
  {
    var b := Backward(s, |h| % CAPACITY, k);
    forall i | 0 <= i < k
      ensures b[i] == h[|h| - 1 - i]
    {
      BackSlotOfWrite(|h|, i);
      HoldsAt(s, h, |h| - 1 - i);
    }
  }

  /** Exporting `i` slots from `start` writes the lines of the first `i`
      of `xs` when those slots hold `xs` in order. */
  lemma {:induction false} ExportedIs(s: seq<Entry>, start: nat, xs: seq<Entry>, i: nat)
    requires |s| == CAPACITY && start < CAPACITY && i <= |xs| <= CAPACITY
    requires forall k | 0 <= k < |xs| :: s[FwdSlot(start, k)] == xs[k]
    ensures Exported(s, start, i) == Concat(Texts(xs[..i]))
  {
    if i == 0 {
      assert xs[..0] == [];
    } else {
      ExportedIs(s, start, xs, i - 1);
      var x := xs[i - 1];
      assert s[FwdSlot(start, i - 1)] == x;
      assert Exported(s, start, i) == Exported(s, start, i - 1) + Shown(x);
      ListingSnoc(xs, i);
    }
  }

  /** The oldest slot after `n` writes: 0 until the ring fills, then the
      slot the next write overwrites. */
  function Oldest(n: nat): (r: nat)
    ensures r < CAPACITY
  {
    if n >= CAPACITY then n % CAPACITY else 0
  }

  /** Walking forward from the oldest slot visits the last 512 writes (all
      of them before the ring fills), in the order they were made. */
  lemma ForwardIsTail(s: seq<Entry>, h: seq<Entry>, xs: seq<Entry>)
    requires HoldsLatest(s, h) && xs == Tail(h)
    ensures forall k | 0 <= k < |xs| :: s[FwdSlot(Oldest(|h|), k)] == xs[k]
  {
    var n := Min(|h|, CAPACITY);
    forall k | 0 <= k < n
      ensures s[FwdSlot(Oldest(|h|), k)] == h[|h| - n + k]
    {
      var j := |h| - n + k;
      if |h| >= CAPACITY {
        FwdSlotOfWrite(|h|, k);
      } else {
        assert FwdSlot(0, k) == j % CAPACITY;
      }
      HoldsAt(s, h, j);
    }
  }

  /** The export loop over the ring `s` after the writes `h`, from the
      oldest slot over the `k` stored entries, writes the lines of the last
      512 writes, oldest first. */
  lemma ExportIsTail(s: seq<Entry>, h: seq<Entry>, start: nat, k: nat)
    requires s == Slots(h) && start == Oldest(|h|) && k == Min(|h|, CAPACITY)
    ensures Exported(s, start, k) == Concat(Texts(Tail(h)))
  {
    var xs := Tail(h);
    SlotsHoldAll(h);
    ForwardIsTail(s, h, xs);
    ExportedIs(s, start, xs, k);
    assert xs[..k] == xs;
  }

  lemma TextsSnoc(es: seq<Entry>, e: Entry)
    ensures Texts(es + [e]) == Texts(es) + [Shown(e)]
  {
  }

  /** The listing of the first `i` entries extends the listing of the
      first `i - 1` by the `i`-th entry's line. */
  lemma ListingSnoc(xs: seq<Entry>, i: nat)
    requires 0 < i <= |xs|
    ensures Concat(Texts(xs[..i])) == Concat(Texts(xs[..i - 1])) + Shown(xs[i - 1])
  {
    assert xs[..i] == xs[..i - 1] + [xs[i - 1]];
    TextsSnoc(xs[..i - 1], xs[i - 1]);
    ConcatSnoc(Texts(xs[..i - 1]), Shown(xs[i - 1]));
  }

  /** Going forward `i` slots from the oldest slot of a full ring after `n`
      writes lands on the slot of write `n - 512 + i`. */
  lemma FwdSlotOfWrite(n: nat, i: nat)
    requires CAPACITY <= n && i < CAPACITY
    ensures FwdSlot(n % CAPACITY, i) == (n - CAPACITY + i) % CAPACITY
  {
  }

  /** The last 512 writes of `h` (all of them while there are fewer),
      oldest first. */
  function Tail(h: seq<Entry>): (r: seq<Entry>)
    ensures |r| == Min(|h|, CAPACITY)
  {
    h[|h| - Min(|h|, CAPACITY)..]
  }

  /** The `k` newest of `h`, newest first. */
  function Latest(h: seq<Entry>, k: nat): (r: seq<Entry>)
    requires k <= |h|
    ensures |r| == k
  {
    seq(k, i requires 0 <= i < k => h[|h| - 1 - i])
  }

  /** What `ram_log_export` writes before the entries. */
  function ExportHeader(totalWrites: nat, overwrites: nat): Bytes
  {
    Str("========== RAM Log Export ==========\n")
    + Str("Total Writes: ") + DecimalBytes(totalWrites) + Str("\n")
    + Str("Overwrites: ") + DecimalBytes(overwrites) + Str("\n")
    + Str("Capacity: ") + DecimalBytes(CAPACITY) + Str(" entries\n")
    + Str("====================================\n\n")
  }

  /** `ram_log_stats_t`. */
  datatype Stats = Stats(totalWrites: nat, overwriteCount: nat, currentCount: nat, writeIndex: nat, oldestIndex: nat)

  class RamLog {
    const slots: array<Entry>
    var writeIndex: nat
    var oldestIndex: nat
    var totalWrites: nat
    var overwriteCount: nat
    var isFull: bool
    var initialized: bool
    /** Every entry stored since the last init or clear, oldest first. */
    ghost var history: seq<Entry>

    ghost predicate Valid()
      reads this, slots
    {
      && slots.Length == CAPACITY
      && totalWrites == |history|
      && writeIndex == |history| % CAPACITY
      && isFull == (|history| >= CAPACITY)
      && oldestIndex == (if isFull then writeIndex else 0)
      && overwriteCount == Max(0, |history| - CAPACITY)
      && slots[..] == Slots(history)
      && forall e | e in history :: e.valid && |e.content| <= ENTRY_MAX - 1 && e.timestamp < TWO32
    }

    /** The zero-initialised globals before `ram_log_init`. */
    constructor ()
      ensures Valid() && fresh(slots)
      ensures history == [] && !initialized
    {
      slots := new Entry[CAPACITY](_ => EMPTY);
      writeIndex, oldestIndex, totalWrites, overwriteCount := 0, 0, 0, 0;
      isFull, initialized := false, false;
      history := [];
      new;
      assert slots[..] == Slots([]);
    }

    /** `memset` of the array and reset of every index and counter. */
    method Reset()
      requires slots.Length == CAPACITY
      modifies this, slots
      ensures Valid() && history == [] && initialized == old(initialized)
    {
      var i := 0;
      while i < CAPACITY
        invariant 0 <= i <= CAPACITY
        invariant forall k | 0 <= k < i :: slots[k] == EMPTY
        modifies slots
      {
        slots[i] := EMPTY;
        i := i + 1;
      }
      writeIndex, oldestIndex, totalWrites, overwriteCount, isFull := 0, 0, 0, 0, false;
      history := [];
      assert forall k | 0 <= k < CAPACITY :: slots[..][k] == Slots([])[k];
      assert slots[..] == Slots([]);
    }

    /** `ram_log_init`: clears the log unless it is already initialised,
        in which case nothing changes. */
    method Init() returns (r: int)
      requires Valid()
      modifies this, slots
      ensures r == 0 && Valid() && initialized
      ensures old(initialized) ==> unchanged(this) && unchanged(slots)
      ensures !old(initialized) ==> history == []
    {
      if initialized {
        return 0;
      }
      Reset();
      initialized := true;
      return 0;
    }

    /** `ram_log_deinit`: only the initialised flag changes; the entries stay. */
    method Deinit()
      requires Valid()
      modifies this
      ensures Valid() && !initialized && history == old(history)
    {
      initialized := false;
    }

    /** `ram_log_write`; `entry` is None for a null pointer and `now` stands
        for `time(NULL)`. */
    method Write(entry: Option<Bytes>, now: int) returns (r: int)
      requires Valid()
      modifies this, slots
      ensures Valid() && initialized == old(initialized)
      ensures !old(initialized) || entry.None? ==> r == -1 && unchanged(this) && unchanged(slots)
      ensures old(initialized) && entry.Some? ==>
        && r == 0
        && history == old(history) + [Stored(entry.value, now)]
        && slots[..] == old(slots[..])[old(writeIndex) := Stored(entry.value, now)]
        && writeIndex == NextSlot(old(writeIndex))
        && totalWrites == old(totalWrites) + 1
        && (old(isFull) ==> oldestIndex == NextSlot(old(oldestIndex)) && overwriteCount == old(overwriteCount) + 1)
        && (!old(isFull) ==> overwriteCount == 0 && oldestIndex == 0 && isFull == (writeIndex == 0))
    {
      if !initialized || entry.None? {
        return -1;
      }
      var e := Stored(entry.value, now);
      Advance(|history|);
      SlotsAppend(history, e);
      slots[writeIndex] := e;
      // `(g_write_index + 1) % RAM_LOG_ENTRY_COUNT`, and the same below
      writeIndex := NextSlot(writeIndex);
      totalWrites := totalWrites + 1;
      if isFull {
        oldestIndex := NextSlot(oldestIndex);
        overwriteCount := overwriteCount + 1;
      } else if writeIndex == 0 {
        isFull := true;
      }
      history := history + [e];
      return 0;
    }

    /** `valid_count`: how many slots hold entries. */
    function StoredCount(): nat
      reads this
    {
      if isFull then CAPACITY else writeIndex
    }

    /** The slots in use are the last writes, at most 512 of them. */
    lemma StoredCountIsMin()
      requires Valid()
      ensures StoredCount() == Min(|history|, CAPACITY)
    {
    }

    /** `read_count`: `count`, or every stored entry when `count` is 0 or
        too large. */
    function ReadCount(count: nat): (k: nat)
      reads this
      ensures k <= StoredCount()
      ensures count != 0 && count <= StoredCount() ==> k == count
    {
      if count == 0 || count > StoredCount() then StoredCount() else count
    }

    /** `ram_log_read_latest` into `buffer` of `size` bytes (null when
        None): the text written is the newest-first rendering of the last
        `read_count` writes, cut before the first line that does not fit, and
        the result is `read_count` whatever was rendered. */
    method ReadLatest(buffer: array?<bv8>, size: nat, count: nat) returns (r: int)
      requires Valid()
      requires buffer != null ==> size <= buffer.Length
      modifies buffer
      ensures !initialized || buffer == null || size == 0 ==> r == -1 && (buffer != null ==> unchanged(buffer))
      ensures initialized && buffer != null && size > 0 ==>
        && r == ReadCount(count)
        && var t := Render(Texts(Latest(history, ReadCount(count))), size, []);
           && |t| < size
           && buffer[..|t|] == t && buffer[|t|] == 0 && buffer[|t| + 1..] == old(buffer[|t| + 1..])
    {
      if !initialized || buffer == null || size == 0 {
        return -1;
      }
      var k := ReadCount(count);
      var ring := slots[..];
      SlotsHoldAll(history);
      BackwardIsLatest(ring, history, k);
      ReadInto(ring, writeIndex, k, buffer, size);
      return k;
    }

    /** `ram_log_export` (`path` None: the default export path) into the file
        system `fs`; `openFails` says whether `fopen` fails. The file holds
        the header and then every write among the last 512, oldest first. */
    method Export(fs: FileSystem, path: Option<Path>, openFails: bool) returns (r: int)
      requires Valid()
      modifies fs
      ensures !initialized || openFails ==> r == -1 && fs.files == old(fs.files)
      ensures initialized && !openFails ==>
        r == 0 && fs.files == old(fs.files)[(if path.Some? then path.value else EXPORT_PATH) := ExportText(history)]
    {
      if !initialized {
        return -1;
      }
      // the array is only read from here on
      var ring := slots[..];
      var start := if isFull then oldestIndex else 0;
      var count := StoredCount();
      var p := if path.Some? then path.value else EXPORT_PATH;
      var ok := ExportFile(fs, p, openFails, ring, start, count, totalWrites, overwriteCount, history);
      return if ok then 0 else -1;
    }

    /** `ram_log_clear`. */
    method Clear() returns (r: int)
      requires Valid()
      modifies this, slots
      ensures Valid() && initialized == old(initialized)
      ensures !old(initialized) ==> r == -1 && unchanged(this) && unchanged(slots)
      ensures old(initialized) ==>
        && r == 0 && history == [] && writeIndex == 0 && oldestIndex == 0
        && totalWrites == 0 && overwriteCount == 0 && !isFull
        && forall k | 0 <= k < CAPACITY :: !slots[k].valid
    {
      if !initialized {
        return -1;
      }
      Reset();
      return 0;
    }

    /** `ram_log_get_stats`; `statsNull` says whether the pointer is null. */
    method GetStats(statsNull: bool) returns (r: int, stats: Option<Stats>)
      requires Valid()
      ensures !initialized || statsNull ==> r == -1 && stats.None?
      ensures initialized && !statsNull ==>
        var n := |history|;
        r == 0 && stats == Some(Stats(n, Max(0, n - CAPACITY), Min(n, CAPACITY), n % CAPACITY,
                                      if n >= CAPACITY then n % CAPACITY else 0))
    {
      if !initialized || statsNull {
        return -1, None;
      }
      return 0, Some(Stats(totalWrites, overwriteCount, StoredCount(), writeIndex, oldestIndex));
    }
  }
}
