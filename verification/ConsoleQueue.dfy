/** The bounded queue of console output, as values (`client_output.rs`). */
module ConsoleQueue {
  import opened Bytes

  const OUTPUT_BYTES := 64 * 1024
  const OUTPUT_PACKETS := 4096

  /** `FlowControlMode`. */
  datatype FlowControl = Unlimited | Backpressure | Discard

  /** A queued packet and how much of it is already on the console. */
  datatype Entry = Entry(bytes: seq<byte>, sent: nat)

  predicate Pending(e: Entry)
  {
    e.sent < |e.bytes| <= OUTPUT_BYTES
  }

  function Unsent(e: Entry): seq<byte>
  {
    if e.sent <= |e.bytes| then e.bytes[e.sent..] else []
  }

  /** All unsent bytes of a queue, in order. */
  function UnsentAll(queue: seq<Entry>): seq<byte>
  {
    if queue == [] then [] else Unsent(queue[0]) + UnsentAll(queue[1..])
  }

  lemma {:induction false} UnsentAppend(a: seq<Entry>, b: seq<Entry>)
    ensures UnsentAll(a + b) == UnsentAll(a) + UnsentAll(b)
  {
    if a == [] {
      assert a + b == b;
    } else {
      assert (a + b)[1..] == a[1..] + b;
      UnsentAppend(a[1..], b);
    }
  }

  lemma UnsentOne(e: Entry)
    ensures UnsentAll([e]) == Unsent(e)
  {
    assert UnsentAll([e]) == Unsent(e) + UnsentAll([e][1..]);
  }

  /** The packets behind a queue: those on the console, those waiting, and how much of the first waiting one is out. */
  datatype Ledger = Ledger(done: seq<seq<byte>>, waiting: seq<seq<byte>>, partial: nat)

  function Packets(l: Ledger): seq<seq<byte>>
  {
    l.done + l.waiting
  }

  /** The bytes of the first waiting packet that are on the console. */
  function Started(l: Ledger): seq<byte>
  {
    if l.waiting == [] || l.partial > |l.waiting[0]| then [] else l.waiting[0][..l.partial]
  }

  function OnConsole(l: Ledger): seq<byte>
  {
    Flatten(l.done) + Started(l)
  }

  /** The queue that holds `waiting`, the first packet being out up to `partial`. */
  function EntriesFor(waiting: seq<seq<byte>>, partial: nat): (queue: seq<Entry>)
    ensures |queue| == |waiting|
  {
    if waiting == [] then [] else [Entry(waiting[0], partial)] + EntriesFor(waiting[1..], 0)
  }

  ghost predicate AllPending(queue: seq<Entry>)
  {
    forall i | 0 <= i < |queue| :: Pending(queue[i])
  }

  /** The queue is the ledger's waiting part; only its front entry may be partly sent, none fully. */
  ghost predicate Mirrors(l: Ledger, queue: seq<Entry>)
  {
    queue == EntriesFor(l.waiting, l.partial) && AllPending(queue) && (queue == [] ==> l.partial == 0)
  }

  lemma {:induction false} EntriesUnsent(waiting: seq<seq<byte>>, partial: nat)
    requires waiting != [] ==> partial <= |waiting[0]|
    ensures Started(Ledger([], waiting, partial)) + UnsentAll(EntriesFor(waiting, partial)) == Flatten(waiting)
  {
    if waiting != [] {
      var packet, rest := waiting[0], waiting[1..];
      EntriesUnsent(rest, 0);
      assert EntriesFor(waiting, partial)[1..] == EntriesFor(rest, 0);
      assert Started(Ledger([], rest, 0)) == [];
      assert packet == packet[..partial] + packet[partial..];
    }
  }

  /** Conservation: console bytes followed by unsent bytes are the packets, in order. */
  lemma Conservation(l: Ledger, queue: seq<Entry>)
    requires Mirrors(l, queue)
    ensures OnConsole(l) + UnsentAll(queue) == Flatten(Packets(l))
  {
    if queue != [] {
      assert queue[0] == Entry(l.waiting[0], l.partial) && Pending(queue[0]);
    }
    EntriesUnsent(l.waiting, l.partial);
    FlattenAppend(l.done, l.waiting);
  }

  /** Unsent bytes start with those of the front entry, which has some. */
  lemma FrontUnsent(l: Ledger, queue: seq<Entry>)
    requires Mirrors(l, queue) && UnsentAll(queue) != []
    ensures queue != [] && 0 < |Unsent(queue[0])| <= |UnsentAll(queue)|
    ensures forall k | 0 <= k <= |Unsent(queue[0])| :: Unsent(queue[0])[..k] == UnsentAll(queue)[..k]
  {
    MirrorsFront(l, queue);
  }

  // ---------------------------------------------------------------------
  // Delivery.

  /** The ledger after `k` more bytes of its front packet reached the console. */
  function Advanced(l: Ledger, k: nat): Ledger
    requires l.waiting != [] && l.partial + k <= |l.waiting[0]|
  {
    if l.partial + k == |l.waiting[0]| then Ledger(l.done + [l.waiting[0]], l.waiting[1..], 0)
    else l.(partial := l.partial + k)
  }

  /** The queue after `k` more bytes of its front entry reached the console. */
  function AdvancedQueue(queue: seq<Entry>, k: nat): seq<Entry>
    requires queue != []
  {
    var front := queue[0].(sent := queue[0].sent + k);
    if front.sent == |front.bytes| then queue[1..] else [front] + queue[1..]
  }

  lemma MirrorsFront(l: Ledger, queue: seq<Entry>)
    requires Mirrors(l, queue) && queue != []
    ensures l.waiting != [] && queue[0] == Entry(l.waiting[0], l.partial) && Pending(queue[0])
    ensures queue[1..] == EntriesFor(l.waiting[1..], 0) && AllPending(queue[1..])
  {
  }

  lemma AdvanceFront(l: Ledger, queue: seq<Entry>, k: nat)
    requires Mirrors(l, queue) && queue != [] && k <= |Unsent(queue[0])|
    ensures l.waiting != [] && l.waiting[0] == queue[0].bytes && l.partial == queue[0].sent
    ensures l.partial + k <= |l.waiting[0]|
    ensures Mirrors(Advanced(l, k), AdvancedQueue(queue, k))
  {
    MirrorsFront(l, queue);
    if l.partial + k < |l.waiting[0]| {
      PendingCons(queue[0].(sent := queue[0].sent + k), queue[1..]);
    }
  }

  lemma AdvanceKeepsPackets(l: Ledger, k: nat)
    requires l.waiting != [] && l.partial + k <= |l.waiting[0]|
    ensures Packets(Advanced(l, k)) == Packets(l)
  {
    assert l.waiting == [l.waiting[0]] + l.waiting[1..];
    assert l.done + ([l.waiting[0]] + l.waiting[1..]) == l.done + [l.waiting[0]] + l.waiting[1..];
  }

  lemma PendingCons(e: Entry, queue: seq<Entry>)
    requires Pending(e) && AllPending(queue)
    ensures AllPending([e] + queue)
  {
  }

  lemma AdvanceConsole(l: Ledger, queue: seq<Entry>, k: nat)
    requires Mirrors(l, queue) && queue != [] && k <= |Unsent(queue[0])|
    requires l.waiting != [] && l.partial + k <= |l.waiting[0]|
    ensures OnConsole(Advanced(l, k)) == OnConsole(l) + Unsent(queue[0])[..k]
  {
    hide EntriesFor, AllPending, Flatten;
    MirrorsFront(l, queue);
    var packet := l.waiting[0];
    PrefixGrows(packet, l.partial, k);
    if l.partial + k == |packet| {
      FlattenAppend(l.done, [packet]);
      FlattenOne(packet);
      assert Started(Advanced(l, k)) == [];
    }
    assert Flatten(l.done) + packet[..l.partial] + packet[l.partial..][..k]
        == Flatten(l.done) + (packet[..l.partial] + packet[l.partial..][..k]);
  }

  /** The first `n` of the unsent bytes `all` have moved to the console. */
  ghost predicate Moved(before: seq<byte>, all: seq<byte>, n: nat, console: seq<byte>, rest: seq<byte>)
  {
    n <= |all| && console == before + all[..n] && rest == all[n..]
  }

  lemma MovedNothing(console: seq<byte>, all: seq<byte>)
    ensures Moved(console, all, 0, console, all)
  {
  }

  lemma MovedMore(before: seq<byte>, all: seq<byte>, n: nat, console: seq<byte>, rest: seq<byte>, k: nat)
    requires Moved(before, all, n, console, rest) && k <= |rest|
    ensures Moved(before, all, n + k, console + rest[..k], rest[k..])
  {
  }

  lemma MovedAll(before: seq<byte>, all: seq<byte>, n: nat, console: seq<byte>, rest: seq<byte>)
    requires Moved(before, all, n, console, rest)
    ensures n <= |all| && console == before + all[..n] && rest == all[n..]
  {
  }

  lemma PrefixGrows(packet: seq<byte>, sent: nat, k: nat)
    requires sent + k <= |packet|
    ensures packet[..sent] + packet[sent..][..k] == packet[..sent + k]
    ensures sent + k == |packet| ==> packet[..sent + k] == packet
  {
  }

  /** A partial write never leaves the front packet complete. */
  lemma AdvanceUnsent(queue: seq<Entry>, k: nat)
    requires queue != [] && k <= |Unsent(queue[0])|
    ensures UnsentAll(AdvancedQueue(queue, k)) == UnsentAll(queue)[k..]
  {
    hide UnsentAll, Unsent;
    var e, rest := queue[0], queue[1..];
    UnsentFront(queue);
    if e.sent + k == |e.bytes| {
      UnsentGone(e, UnsentAll(rest), k);
    } else {
      UnsentLess(e, rest, k);
    }
  }

  lemma UnsentFront(queue: seq<Entry>)
    requires queue != []
    ensures UnsentAll(queue) == Unsent(queue[0]) + UnsentAll(queue[1..])
  {
    hide Unsent;
  }

  /** All that was unsent of the front entry is out. */
  lemma UnsentGone(e: Entry, rest: seq<byte>, k: nat)
    requires k <= |Unsent(e)| && e.sent + k == |e.bytes|
    ensures (Unsent(e) + rest)[k..] == rest
  {
    assert k == |Unsent(e)|;
  }

  /** Some of it is out. */
  lemma UnsentLess(e: Entry, rest: seq<Entry>, k: nat)
    requires k <= |Unsent(e)|
    ensures UnsentAll([e.(sent := e.sent + k)] + rest) == (Unsent(e) + UnsentAll(rest))[k..]
  {
    hide UnsentAll, Unsent;
    var front := e.(sent := e.sent + k);
    UnsentFront([front] + rest);
    assert ([front] + rest)[1..] == rest;
    FrontAdvanced(e, k);
    DropInside(Unsent(e), UnsentAll(rest), k);
  }

  lemma FrontAdvanced(e: Entry, k: nat)
    requires k <= |Unsent(e)|
    ensures Unsent(e.(sent := e.sent + k)) == Unsent(e)[k..]
  {
  }

  lemma DropInside(a: seq<byte>, b: seq<byte>, k: nat)
    requires k <= |a|
    ensures (a + b)[k..] == a[k..] + b
  {
  }

  /** The unsent part of each entry, as a vectored write offers it. */
  function Slices(queue: seq<Entry>): seq<seq<byte>>
  {
    seq(|queue|, i requires 0 <= i < |queue| => Unsent(queue[i]))
  }

  lemma {:induction false} SlicesAreUnsent(queue: seq<Entry>)
    ensures Flatten(Slices(queue)) == UnsentAll(queue)
  {
    hide Unsent;
    if queue != [] {
      SlicesAreUnsent(queue[1..]);
      assert Slices(queue)[1..] == Slices(queue[1..]);
    }
  }

  /** The first `n` entries offer a non-empty beginning of the unsent bytes. */
  lemma OfferedBytes(l: Ledger, queue: seq<Entry>, n: nat)
    requires Mirrors(l, queue) && 0 < n <= |queue|
    ensures var offered := Flatten(Slices(queue[..n]));
      && offered <= UnsentAll(queue) && offered != []
      && forall k | 0 <= k <= |offered| :: offered[..k] == UnsentAll(queue)[..k]
  {
    MirrorsFront(l, queue);
    UnsentAppend(queue[..n], queue[n..]);
    SlicesAreUnsent(queue[..n]);
    assert queue[..n] + queue[n..] == queue && queue[..n][0] == queue[0];
  }

  // ---------------------------------------------------------------------
  // Admission and eviction.

  lemma {:induction false} EntriesForSnoc(waiting: seq<seq<byte>>, partial: nat, packet: seq<byte>)
    requires waiting != []
    ensures EntriesFor(waiting + [packet], partial) == EntriesFor(waiting, partial) + [Entry(packet, 0)]
  {
    assert (waiting + [packet])[1..] == waiting[1..] + [packet];
    if |waiting| > 1 {
      EntriesForSnoc(waiting[1..], 0, packet);
    } else {
      assert waiting[1..] + [packet] == [packet];
      assert EntriesFor([packet], 0) == [Entry(packet, 0)] + EntriesFor([packet][1..], 0);
    }
  }

  function Pushed(l: Ledger, packet: seq<byte>, sent: nat): Ledger
  {
    Ledger(l.done, l.waiting + [packet], if l.waiting == [] then sent else l.partial)
  }

  /** A new packet joins the end, partly written only when nothing was ahead of it. */
  lemma PushBack(l: Ledger, queue: seq<Entry>, packet: seq<byte>, sent: nat)
    requires Mirrors(l, queue) && Pending(Entry(packet, sent)) && (queue != [] ==> sent == 0)
    ensures Mirrors(Pushed(l, packet, sent), queue + [Entry(packet, sent)])
    ensures UnsentAll(queue + [Entry(packet, sent)]) == UnsentAll(queue) + packet[sent..]
  {
    UnsentAppend(queue, [Entry(packet, sent)]);
    UnsentOne(Entry(packet, sent));
    if queue == [] {
      assert l.waiting == [] && l.waiting + [packet] == [packet];
      assert EntriesFor([packet], sent) == [Entry(packet, sent)] + EntriesFor([packet][1..], 0);
    } else {
      EntriesForSnoc(l.waiting, l.partial, packet);
    }
  }

  lemma PushConsole(l: Ledger, packet: seq<byte>, sent: nat)
    requires sent <= |packet| && (l.waiting == [] ==> l.partial == 0) && (l.waiting != [] ==> sent == 0)
    ensures OnConsole(Pushed(l, packet, sent)) == OnConsole(l) + packet[..sent]
    ensures Packets(Pushed(l, packet, sent)) == Packets(l) + [packet]
  {
    assert l.done + (l.waiting + [packet]) == l.done + l.waiting + [packet];
    if l.waiting == [] {
      assert (l.waiting + [packet])[0] == packet && OnConsole(l) == Flatten(l.done) + [];
    } else {
      assert (l.waiting + [packet])[0] == l.waiting[0] && OnConsole(l) + [] == OnConsole(l);
    }
  }

  /** A packet written whole while nothing waits. */
  lemma WrittenThrough(l: Ledger, packet: seq<byte>)
    requires l.waiting == [] && l.partial == 0
    ensures OnConsole(Ledger(l.done + [packet], [], 0)) == OnConsole(l) + packet
    ensures Packets(Ledger(l.done + [packet], [], 0)) == Packets(l) + [packet]
    ensures Mirrors(Ledger(l.done + [packet], [], 0), [])
  {
    FlattenAppend(l.done, [packet]);
    FlattenOne(packet);
    assert OnConsole(l) == Flatten(l.done) + [] == Flatten(l.done);
    assert l.done + [] == l.done && l.done + [packet] + [] == l.done + [packet];
  }

  lemma MirrorsEmpty(l: Ledger)
    requires Mirrors(l, [])
    ensures l.waiting == [] && l.partial == 0
  {
  }

  /** The oldest entry that is not yet on the console. */
  function Oldest(queue: seq<Entry>): nat
  {
    if queue != [] && queue[0].sent != 0 then 1 else 0
  }

  function Without<T>(s: seq<T>, i: nat): seq<T>
    requires i < |s|
  {
    s[..i] + s[i + 1..]
  }

  lemma {:induction false} EntriesForWithout(waiting: seq<seq<byte>>, partial: nat, i: nat)
    requires i < |waiting| && (i == 0 ==> partial == 0)
    ensures EntriesFor(Without(waiting, i), partial) == Without(EntriesFor(waiting, partial), i)
  {
    var queue := EntriesFor(waiting, partial);
    assert queue == [Entry(waiting[0], partial)] + EntriesFor(waiting[1..], 0);
    if i == 0 {
      assert Without(waiting, 0) == waiting[1..] && Without(queue, 0) == queue[1..];
    } else {
      EntriesForWithout(waiting[1..], 0, i - 1);
      assert Without(waiting, i) == [waiting[0]] + Without(waiting[1..], i - 1);
      assert Without(queue, i) == [queue[0]] + Without(queue[1..], i - 1);
      assert Without(waiting, i)[1..] == Without(waiting[1..], i - 1);
    }
  }

  function Evicted(l: Ledger, i: nat): Ledger
    requires i < |l.waiting|
  {
    l.(waiting := Without(l.waiting, i))
  }

  /** A packet of `want` bytes does not fit behind what the ledger still owes. */
  predicate Crowded(l: Ledger, want: nat)
  {
    |UnsentAll(EntriesFor(l.waiting, l.partial))| + want > OUTPUT_BYTES || |l.waiting| >= OUTPUT_PACKETS
  }

  /** The ledger without `n` waiting packets from position `at` on. */
  function DropFrom(l: Ledger, at: nat, n: nat): Ledger
    requires at + n <= |l.waiting|
  {
    l.(waiting := l.waiting[..at] + l.waiting[at + n..])
  }

  lemma DropOneMore(l: Ledger, at: nat, n: nat)
    requires at + n < |l.waiting|
    ensures at < |DropFrom(l, at, n).waiting|
    ensures Evicted(DropFrom(l, at, n), at) == DropFrom(l, at, n + 1)
  {
    var w := l.waiting[..at] + l.waiting[at + n..];
    assert Without(w, at) == l.waiting[..at] + l.waiting[at + (n + 1)..];
  }

  lemma DropNone(l: Ledger, at: nat)
    requires at <= |l.waiting|
    ensures DropFrom(l, at, 0) == l
  {
    assert l.waiting[..at] + l.waiting[at..] == l.waiting;
  }

  /** Dropping the oldest whole entry drops its packet and nothing else. */
  lemma EvictOldest(l: Ledger, queue: seq<Entry>)
    requires Mirrors(l, queue) && Oldest(queue) < |queue|
    ensures Oldest(queue) < |l.waiting|
    ensures Mirrors(Evicted(l, Oldest(queue)), Without(queue, Oldest(queue)))
    ensures |UnsentAll(Without(queue, Oldest(queue)))| == |UnsentAll(queue)| - |Unsent(queue[Oldest(queue)])|
    ensures Oldest(Without(queue, Oldest(queue))) == Oldest(queue)
  {
    var i := Oldest(queue);
    EntriesForWithout(l.waiting, l.partial, i);
    var left, right := queue[..i], queue[i + 1..];
    UnsentAppend(left, right);
    UnsentAppend(left, [queue[i]] + right);
    UnsentAppend([queue[i]], right);
    UnsentOne(queue[i]);
    assert queue == left + ([queue[i]] + right);
    WithoutPending(queue, i);
    WholeBehindFront(l, queue);
  }

  lemma WithoutPending(queue: seq<Entry>, i: nat)
    requires i < |queue| && AllPending(queue)
    ensures AllPending(Without(queue, i))
  {
    forall j | 0 <= j < |Without(queue, i)| ensures Pending(Without(queue, i)[j]) {
      assert Without(queue, i)[j] == if j < i then queue[j] else queue[j + 1];
    }
  }

  lemma {:induction false} EntriesForWhole(waiting: seq<seq<byte>>, i: nat)
    requires i < |waiting|
    ensures EntriesFor(waiting, 0)[i] == Entry(waiting[i], 0)
  {
    if i > 0 {
      EntriesForWhole(waiting[1..], i - 1);
    }
  }

  /** Behind the front entry everything is whole. */
  lemma WholeBehindFront(l: Ledger, queue: seq<Entry>)
    requires Mirrors(l, queue)
    ensures forall i | 1 <= i < |queue| :: queue[i].sent == 0 && Pending(queue[i])
  {
    forall i | 1 <= i < |queue| ensures queue[i].sent == 0 && Pending(queue[i]) {
      EntriesForWhole(l.waiting[1..], i - 1);
      assert queue[1..] == EntriesFor(l.waiting[1..], 0);
    }
  }

  // ---------------------------------------------------------------------
  // Interrupts: hand the kept bytes back to the entries, front first.

  function Share(e: Entry, kept: seq<byte>): nat
  {
    if |kept| < |Unsent(e)| then |kept| else |Unsent(e)|
  }

  /** An entry's sent prefix followed by its share of the kept bytes. */
  function Refilled(e: Entry, kept: seq<byte>): Entry
    requires e.sent <= |e.bytes|
  {
    Entry(e.bytes[..e.sent] + kept[..Share(e, kept)], e.sent)
  }

  /** `retain_mut`: entries that get nothing and have nothing on the console vanish. */
  function Redistributed(queue: seq<Entry>, kept: seq<byte>): seq<Entry>
    requires forall i | 0 <= i < |queue| :: queue[i].sent <= |queue[i].bytes|
  {
    if queue == [] then [] else
    var rest := Redistributed(queue[1..], kept[Share(queue[0], kept)..]);
    if Share(queue[0], kept) == 0 && queue[0].sent == 0 then rest else [Refilled(queue[0], kept)] + rest
  }

  /** The unsent bytes are then exactly the kept ones, in order. */
  lemma {:induction false} RedistributedUnsent(queue: seq<Entry>, kept: seq<byte>)
    requires forall i | 0 <= i < |queue| :: queue[i].sent <= |queue[i].bytes|
    requires |kept| <= |UnsentAll(queue)|
    ensures UnsentAll(Redistributed(queue, kept)) == kept
    ensures |Redistributed(queue, kept)| <= |queue|
  {
    hide Unsent, Refilled;
    if queue != [] {
      var count := Share(queue[0], kept);
      var rest := Redistributed(queue[1..], kept[count..]);
      RedistributedUnsent(queue[1..], kept[count..]);
      assert kept[..count] + kept[count..] == kept;
      if !(count == 0 && queue[0].sent == 0) {
        RefilledUnsent(queue[0], kept);
        UnsentAppend([Refilled(queue[0], kept)], rest);
        UnsentOne(Refilled(queue[0], kept));
      }
    }
  }

  lemma RefilledUnsent(e: Entry, kept: seq<byte>)
    requires e.sent <= |e.bytes|
    ensures Unsent(Refilled(e, kept)) == kept[..Share(e, kept)]
  {
  }

  /** Whole entries stay whole, shrink or vanish. */
  lemma {:induction false} RedistributedWhole(queue: seq<Entry>, kept: seq<byte>)
    requires AllPending(queue) && forall i | 0 <= i < |queue| :: queue[i].sent == 0
    ensures AllPending(Redistributed(queue, kept))
    ensures Redistributed(queue, kept) == EntriesFor(BytesOf(Redistributed(queue, kept)), 0)
  {
    if queue != [] {
      var count := Share(queue[0], kept);
      RedistributedWhole(queue[1..], kept[count..]);
      var rest := Redistributed(queue[1..], kept[count..]);
      if count != 0 {
        var front := Refilled(queue[0], kept);
        assert Pending(front);
        PendingCons(front, rest);
        BytesOfCons(front, rest);
      }
    }
  }

  function BytesOf(queue: seq<Entry>): seq<seq<byte>>
  {
    if queue == [] then [] else [queue[0].bytes] + BytesOf(queue[1..])
  }

  lemma BytesOfCons(e: Entry, queue: seq<Entry>)
    ensures BytesOf([e] + queue) == [e.bytes] + BytesOf(queue)
    ensures (BytesOf([e] + queue))[1..] == BytesOf(queue)
  {
    assert ([e] + queue)[1..] == queue;
  }

  /** The ledger after an interrupt: a started packet whose rest was dropped is complete as it stands. */
  function Interrupted(l: Ledger, queue: seq<Entry>, kept: seq<byte>): Ledger
    requires forall i | 0 <= i < |queue| :: queue[i].sent <= |queue[i].bytes|
  {
    var left := Redistributed(queue, kept);
    if left != [] && left[0].sent == |left[0].bytes| then
      Ledger(l.done + [left[0].bytes], BytesOf(left[1..]), 0)
    else
      Ledger(l.done, BytesOf(left), if left == [] then 0 else left[0].sent)
  }

  /** `retire_delivered` on a queue whose front entry may be complete. */
  function Retired(queue: seq<Entry>): seq<Entry>
  {
    if queue != [] && queue[0].sent == |queue[0].bytes| then queue[1..] else queue
  }

  /** The started packet lost all of its rest: it is complete as it stands. */
  lemma InterruptCompletes(l: Ledger, queue: seq<Entry>, kept: seq<byte>)
    requires Mirrors(l, queue) && queue != [] && queue[0].sent > 0 && kept == []
    ensures Redistributed(queue, kept) == [Entry(queue[0].bytes[..queue[0].sent], queue[0].sent)]
    ensures Interrupted(l, queue, kept) == Ledger(l.done + [Started(l)], [], 0)
    ensures OnConsole(Interrupted(l, queue, kept)) == OnConsole(l)
  {
    MirrorsFront(l, queue);
    WholeBehindFront(l, queue);
    NothingKept(queue[1..], kept[0..]);
    assert Refilled(queue[0], kept).bytes == queue[0].bytes[..queue[0].sent];
    FlattenAppend(l.done, [Started(l)]);
    FlattenOne(Started(l));
  }

  /** The front entry keeps its written prefix and gets the first kept bytes. */
  lemma InterruptRefills(l: Ledger, queue: seq<Entry>, kept: seq<byte>)
    requires Mirrors(l, queue) && queue != [] && kept != []
    ensures Redistributed(queue, kept) != []
    ensures Redistributed(queue, kept)[0] == Refilled(queue[0], kept) && Pending(Refilled(queue[0], kept))
    ensures Mirrors(Interrupted(l, queue, kept), Redistributed(queue, kept))
    ensures OnConsole(Interrupted(l, queue, kept)) == OnConsole(l)
  {
    MirrorsFront(l, queue);
    WholeBehindFront(l, queue);
    var front, tail := Refilled(queue[0], kept), kept[Share(queue[0], kept)..];
    var rest := Redistributed(queue[1..], tail);
    RedistributedWhole(queue[1..], tail);
    assert Pending(front);
    PendingCons(front, rest);
    BytesOfCons(front, rest);
    assert front.bytes[..front.sent] == queue[0].bytes[..queue[0].sent];
  }

  lemma InterruptMirrors(l: Ledger, queue: seq<Entry>, kept: seq<byte>)
    requires Mirrors(l, queue) && |kept| <= |UnsentAll(queue)|
    ensures Mirrors(Interrupted(l, queue, kept), Retired(Redistributed(queue, kept)))
    ensures UnsentAll(Retired(Redistributed(queue, kept))) == kept
    ensures |Retired(Redistributed(queue, kept))| <= |queue|
    ensures OnConsole(Interrupted(l, queue, kept)) == OnConsole(l)
  {
    RedistributedUnsent(queue, kept);
    if queue != [] && kept != [] {
      InterruptRefills(l, queue, kept);
    } else if queue != [] && queue[0].sent > 0 {
      InterruptCompletes(l, queue, kept);
    } else if queue != [] {
      WholeBehindFront(l, queue);
      NothingKept(queue, kept);
      MirrorsFront(l, queue);
    }
  }

  /** With nothing kept no whole entry survives. */
  lemma {:induction false} NothingKept(queue: seq<Entry>, kept: seq<byte>)
    requires forall i | 0 <= i < |queue| :: queue[i].sent == 0
    requires kept == []
    ensures Redistributed(queue, kept) == []
  {
    if queue != [] {
      assert queue[0].sent == 0;
      NothingKept(queue[1..], kept[0..]);
    }
  }
  // ---------------------------------------------------------------------
  // Bounds.

  /** Unsent bytes of a partly written front entry. */
  function StartedBytes(queue: seq<Entry>): nat
  {
    if queue != [] && queue[0].sent > 0 then |Unsent(queue[0])| else 0
  }

  /** At most the capacity; in discard mode a partly written front entry comes on top. */
  predicate WithinBounds(mode: FlowControl, queue: seq<Entry>)
  {
    && |queue| <= OUTPUT_PACKETS
    && |UnsentAll(queue)| <= OUTPUT_BYTES + if mode.Discard? then StartedBytes(queue) else 0
  }

  /** Eviction leaves the bound alone, and once only a started entry is left there is room. */
  lemma EvictBounds(mode: FlowControl, l: Ledger, queue: seq<Entry>)
    requires WithinBounds(mode, queue) && Mirrors(l, queue) && Oldest(queue) < |queue|
    ensures WithinBounds(mode, Without(queue, Oldest(queue)))
    ensures StartedBytes(Without(queue, Oldest(queue))) == StartedBytes(queue)
    ensures |Without(queue, Oldest(queue))| == |queue| - 1
  {
    EvictOldest(l, queue);
    WholeBehindFront(l, queue);
  }

  lemma NothingToEvict(l: Ledger, queue: seq<Entry>)
    requires Mirrors(l, queue) && Oldest(queue) >= |queue|
    ensures |queue| <= 1 && |UnsentAll(queue)| == StartedBytes(queue)
  {
    if queue != [] {
      assert queue == [queue[0]];
      UnsentOne(queue[0]);
    }
  }

  lemma EmptyQueue(mode: FlowControl)
    ensures UnsentAll([]) == [] && WithinBounds(mode, []) && AllPending([])
  {
  }

  lemma BoundsAreReal(mode: FlowControl, queue: seq<Entry>)
    requires WithinBounds(mode, queue) && AllPending(queue)
    ensures |UnsentAll(queue)| < 2 * OUTPUT_BYTES
  {
  }

  lemma AdvanceBounds(mode: FlowControl, l: Ledger, queue: seq<Entry>, k: nat)
    requires WithinBounds(mode, queue) && Mirrors(l, queue)
    requires queue != [] && k <= |Unsent(queue[0])|
    ensures WithinBounds(mode, AdvancedQueue(queue, k))
  {
    AdvanceUnsent(queue, k);
  }

  lemma InterruptBounds(mode: FlowControl, l: Ledger, queue: seq<Entry>, kept: seq<byte>)
    requires WithinBounds(mode, queue) && Mirrors(l, queue) && |kept| <= |UnsentAll(queue)|
    ensures WithinBounds(mode, Retired(Redistributed(queue, kept)))
  {
    InterruptMirrors(l, queue, kept);
    if queue != [] && kept != [] {
      InterruptRefills(l, queue, kept);
      assert |Unsent(Refilled(queue[0], kept))| == Share(queue[0], kept);
    }
  }

  lemma PushBounds(mode: FlowControl, queue: seq<Entry>, packet: seq<byte>, sent: nat)
    requires AllPending(queue) && Pending(Entry(packet, sent)) && (queue != [] ==> sent == 0)
    requires |queue| < OUTPUT_PACKETS
    requires |UnsentAll(queue)| + |packet| <= OUTPUT_BYTES + if mode.Discard? then StartedBytes(queue) else 0
    ensures WithinBounds(mode, queue + [Entry(packet, sent)])
  {
    UnsentAppend(queue, [Entry(packet, sent)]);
    UnsentOne(Entry(packet, sent));
  }

  // ---------------------------------------------------------------------
  // What discarding leaves of the packets.

  /** `s` without `n` elements from position `at` on. */
  function Cut<T>(s: seq<T>, at: nat, n: nat): seq<T>
    requires at + n <= |s|
  {
    s[..at] + s[at + n..]
  }

  /** `kept` is `all` with some elements left out. */
  ghost predicate Thinned<T>(kept: seq<T>, all: seq<T>)
    decreases |all|
  {
    || kept == []
    || (all != [] && (
          || Thinned(kept, all[..|all| - 1])
          || (kept[|kept| - 1] == all[|all| - 1] && Thinned(kept[..|kept| - 1], all[..|all| - 1]))))
  }

  lemma {:induction false} ThinnedSelf<T>(all: seq<T>)
    ensures Thinned(all, all)
    decreases |all|
  {
    if all != [] {
      ThinnedSelf(all[..|all| - 1]);
    }
  }

  lemma ThinnedMore<T>(kept: seq<T>, all: seq<T>, more: seq<T>)
    requires Thinned(kept, all) && |more| <= 1
    ensures Thinned(kept + more, all + more)
  {
    if more == [] {
      assert kept + more == kept && all + more == all;
    } else {
      assert (kept + more)[..|kept|] == kept && (all + more)[..|all|] == all;
    }
  }

  lemma {:induction false} ThinnedCut<T>(kept: seq<T>, all: seq<T>, at: nat, n: nat)
    requires Thinned(kept, all) && at + n <= |kept|
    ensures Thinned(Cut(kept, at, n), all)
    decreases |all|
  {
    if kept == [] {
    } else if Thinned(kept, all[..|all| - 1]) {
      ThinnedCut(kept, all[..|all| - 1], at, n);
    } else {
      var first := kept[..|kept| - 1];
      if at + n < |kept| {
        ThinnedCut(first, all[..|all| - 1], at, n);
        assert Cut(kept, at, n)[..|kept| - n - 1] == Cut(first, at, n);
      } else if n == 0 {
        assert Cut(kept, at, n) == kept;
      } else {
        ThinnedCut(first, all[..|all| - 1], at, n - 1);
        assert Cut(kept, at, n) == Cut(first, at, n - 1);
      }
    }
  }

  /** `after` is `before` with some elements cut out, followed by `more`. */
  ghost predicate CutAndMore<T>(before: seq<T>, after: seq<T>, more: seq<T>)
  {
    exists at: nat, n: nat | at + n <= |before| :: after == Cut(before, at, n) + more
  }

  lemma OnlyMore<T>(before: seq<T>, more: seq<T>)
    ensures CutAndMore(before, before + more, more)
  {
    assert Cut(before, 0, 0) == before;
  }

  lemma ThinnedStep<T>(before: seq<T>, after: seq<T>, more: seq<T>, all: seq<T>)
    requires Thinned(before, all) && CutAndMore(before, after, more) && |more| <= 1
    ensures Thinned(after, all + more)
  {
    hide Thinned;
    var at: nat, n: nat :| at + n <= |before| && after == Cut(before, at, n) + more;
    ThinnedCut(before, all, at, n);
    ThinnedMore(Cut(before, at, n), all, more);
  }

  lemma DropIsCut(l: Ledger, at: nat, n: nat, packet: seq<seq<byte>>)
    requires at + n <= |l.waiting|
    ensures CutAndMore(Packets(l), Packets(DropFrom(l, at, n)) + packet, packet)
  {
    assert Packets(DropFrom(l, at, n)) == Cut(Packets(l), |l.done| + at, n);
  }

  /** All of the packets would find room in an empty queue. */
  predicate Fits(packets: seq<seq<byte>>)
  {
    |Flatten(packets)| <= OUTPUT_BYTES && |packets| < OUTPUT_PACKETS
  }

  lemma FitsBefore(packets: seq<seq<byte>>, more: seq<seq<byte>>)
    requires Fits(packets + more)
    ensures Fits(packets)
  {
    FlattenAppend(packets, more);
  }

  lemma {:induction false} UnsentAtMost(waiting: seq<seq<byte>>, partial: nat)
    ensures |UnsentAll(EntriesFor(waiting, partial))| <= |Flatten(waiting)|
  {
    if waiting != [] {
      UnsentAtMost(waiting[1..], 0);
      UnsentFront(EntriesFor(waiting, partial));
      assert EntriesFor(waiting, partial)[1..] == EntriesFor(waiting[1..], 0);
    }
  }

  lemma CutIsShorter(packets: seq<seq<byte>>, at: nat, n: nat)
    requires at + n <= |packets|
    ensures |Flatten(Cut(packets, at, n))| <= |Flatten(packets)|
  {
    hide Flatten;
    var a, b, c := packets[..at], packets[at..at + n], packets[at + n..];
    assert packets == a + b + c;
    FlattenAppend(a + b, c);
    FlattenAppend(a, b);
    FlattenAppend(a, c);
  }

  /** Packets that fit with the new one never crowd it out. */
  lemma FitsIsNotCrowded(l: Ledger, at: nat, n: nat, packet: seq<byte>)
    requires at + n <= |l.waiting| && Fits(Packets(l) + if packet == [] then [] else [packet])
    ensures !Crowded(DropFrom(l, at, n), |packet|)
  {
    hide Flatten, UnsentAll, EntriesFor;
    var left := DropFrom(l, at, n);
    UnsentAtMost(left.waiting, l.partial);
    CutIsShorter(l.waiting, at, n);
    FlattenAppend(l.done, l.waiting);
    FlattenAppend(Packets(l), if packet == [] then [] else [packet]);
    FlattenOne(packet);
  }
}
