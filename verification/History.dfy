/** The bounded output history a control client reads by cursor (`local_control.rs`). */
module History {
  import opened Bytes
  import Framing

  datatype Chunk = Chunk(direction: byte, bytes: seq<byte>)

  /** What a cursor counts: bytes, or whole records of a transcript. */
  datatype Unit = Octet(value: byte) | Record(chunk: Chunk)

  function UnitsIn(records: bool, chunk: Chunk): (units: seq<Unit>)
    ensures |units| == if records then 1 else |chunk.bytes|
  {
    if records then [Record(chunk)]
    else seq(|chunk.bytes|, i requires 0 <= i < |chunk.bytes| => Octet(chunk.bytes[i]))
  }

  function UnitsOf(records: bool, chunks: seq<Chunk>): seq<Unit>
  {
    if chunks == [] then [] else UnitsOf(records, chunks[..|chunks| - 1]) + UnitsIn(records, chunks[|chunks| - 1])
  }

  lemma {:induction false} UnitsAppend(records: bool, a: seq<Chunk>, b: seq<Chunk>)
    ensures UnitsOf(records, a + b) == UnitsOf(records, a) + UnitsOf(records, b)
    decreases |b|
  {
    hide UnitsIn;
    if b == [] {
      assert a + b == a;
    } else {
      var before, last := b[..|b| - 1], b[|b| - 1];
      assert (a + b)[..|a + b| - 1] == a + before && (a + b)[|a + b| - 1] == last;
      UnitsAppend(records, a, before);
    }
  }

  lemma UnitsOfOne(records: bool, chunk: Chunk)
    ensures UnitsOf(records, [chunk]) == UnitsIn(records, chunk)
  {
    assert UnitsOf(records, []) == [];
  }

  function Size(chunks: seq<Chunk>): nat
  {
    if chunks == [] then 0 else |chunks[0].bytes| + Size(chunks[1..])
  }

  lemma {:induction false} SizeSnoc(chunks: seq<Chunk>, chunk: Chunk)
    ensures Size(chunks + [chunk]) == Size(chunks) + |chunk.bytes|
  {
    if chunks == [] {
      assert chunks + [chunk] == [chunk] && Size([chunk]) == |chunk.bytes| + Size([]);
    } else {
      assert (chunks + [chunk])[1..] == chunks[1..] + [chunk];
      SizeSnoc(chunks[1..], chunk);
    }
  }

  /** How units travel: a byte as itself, a record with its direction and length. */
  function RenderUnit(u: Unit): seq<byte>
  {
    match u
    case Octet(b) => [b]
    case Record(chunk) => [chunk.direction] + Framing.Be32(|chunk.bytes| % Framing.U32) + chunk.bytes
  }

  function Render(units: seq<Unit>): seq<byte>
  {
    if units == [] then [] else RenderUnit(units[0]) + Render(units[1..])
  }

  lemma {:induction false} RenderAppend(a: seq<Unit>, b: seq<Unit>)
    ensures Render(a + b) == Render(a) + Render(b)
  {
    hide RenderUnit;
    if a == [] {
      assert a + b == b;
    } else {
      assert (a + b)[1..] == a[1..] + b;
      RenderAppend(a[1..], b);
    }
  }

  lemma {:induction false} RenderOctets(units: seq<Unit>, bytes: seq<byte>)
    requires |units| == |bytes| && forall i | 0 <= i < |bytes| :: units[i] == Octet(bytes[i])
    ensures Render(units) == bytes
  {
    if bytes != [] {
      RenderOctets(units[1..], bytes[1..]);
      assert bytes == [bytes[0]] + bytes[1..];
    }
  }

  /** A 64-bit count, most significant byte first. */
  function Be64(n: nat): seq<byte>
    requires n < Framing.U32 * Framing.U32
  {
    Framing.Be32(n / Framing.U32) + Framing.Be32(n % Framing.U32)
  }

  function Max(a: int, b: int): int
  {
    if a > b then a else b
  }

  function Clip(a: int, top: nat): nat
    requires a >= 0
  {
    if a < top then a else top
  }

  class History {
    const capacity: nat
    const records: bool
    var chunks: seq<Chunk>
    var base: nat
    var head: nat
    var retained: nat
    /** Everything ever appended. */
    ghost var log: seq<Chunk>

    /** Chunks no longer held. */
    ghost function Gone(): int
      reads this`chunks, this`log
    {
      |log| - |chunks|
    }

    /** Every unit ever appended, in order. */
    ghost function All(): seq<Unit>
      reads this`log
    {
      UnitsOf(records, log)
    }

    /** The books, before the capacity is enforced. */
    ghost predicate Kept()
      reads this
    {
      && 0 <= Gone() && chunks == log[Gone()..]
      && (forall i | 0 <= i < |log| :: log[i].bytes != [])
      && head == |All()|
      && base == |UnitsOf(records, log[..Gone()])|
      && retained == Size(chunks)
    }

    ghost predicate Valid()
      reads this
    {
      Kept() && retained <= capacity
    }

    constructor (capacity: nat, records: bool)
      ensures Valid() && this.capacity == capacity && this.records == records && log == []
    {
      this.capacity, this.records := capacity, records;
      chunks, base, head, retained, log := [], 0, 0, 0, [];
    }

    /** `append`: the log grows by the bytes, and the oldest chunks go as far as the capacity demands. */
    method Append(direction: byte, bytes: seq<byte>)
      requires Valid()
      modifies this`chunks, this`base, this`head, this`retained, this`log
      ensures Valid()
      ensures bytes == [] ==> log == old(log) && base == old(base)
      ensures bytes != [] ==> log == old(log) + [Chunk(direction, bytes)]
      ensures base >= old(base) && All() == old(All()) + (if bytes == [] then [] else UnitsIn(records, Chunk(direction, bytes)))
      ensures Gone() > old(Gone()) ==> Size(log[Gone() - 1..]) > capacity
    {
      hide UnitsOf, Size;
      if bytes == [] {
        return;
      }
      Push(Chunk(direction, bytes));
      while retained > capacity
        invariant Kept() && base >= old(base) && log == old(log) + [Chunk(direction, bytes)]
        invariant Gone() >= old(Gone())
        invariant Gone() > old(Gone()) ==> Size(log[Gone() - 1..]) > capacity
        decreases |chunks|
      {
        Evict();
      }
    }

    method Push(chunk: Chunk)
      requires Valid() && chunk.bytes != []
      modifies this`chunks, this`head, this`retained, this`log
      ensures Kept() && log == old(log) + [chunk] && Gone() == old(Gone())
      ensures All() == old(All()) + UnitsIn(records, chunk)
    {
      hide UnitsOf, Size;
      UnitsAppend(records, log, [chunk]);
      UnitsOfOne(records, chunk);
      SizeSnoc(chunks, chunk);
      PushedSuffix(log, Gone(), chunk);
      head := head + if records then 1 else |chunk.bytes|;
      retained := retained + |chunk.bytes|;
      chunks := chunks + [chunk];
      log := log + [chunk];
    }

    method Evict()
      requires Kept() && retained > 0
      modifies this`chunks, this`base, this`retained
      ensures Kept() && Gone() == old(Gone()) + 1 && base >= old(base)
      ensures Size(log[Gone() - 1..]) == old(retained)
    {
      hide UnitsOf;
      var oldest := chunks[0];
      assert log[..Gone() + 1] == log[..Gone()] + [oldest];
      UnitsAppend(records, log[..Gone()], [oldest]);
      UnitsOfOne(records, oldest);
      retained := retained - |oldest.bytes|;
      base := base + if records then 1 else |oldest.bytes|;
      chunks := chunks[1..];
    }

    /** The unit a read starts from: a negative cursor asks for everything held. */
    ghost function From(cursor: int): nat
      reads this`base
    {
      Max(if cursor < 0 then base else cursor, base)
    }

    /**
      `read`: the head, whether anything at or after the cursor is already
      gone, and every unit of the whole log from the cursor or the oldest one
      held. A cursor past the head reads nothing.
     */
    method Read(cursor: int) returns (output: seq<byte>)
      requires Valid() && head < Framing.U32 * Framing.U32
      ensures output == Be64(head) + [if 0 <= cursor < base then 1 else 0]
                      + Render(All()[Clip(From(cursor), head)..])
    {
      hide UnitsOf, UnitsIn, Render, Piece, Be64, Size;
      var start := if cursor < 0 then base else cursor;
      output := Be64(head);
      output := output + [if start < base then 1 else 0];
      start := Max(start, base);
      ghost var before := output;
      var at := base;
      HeldUnits();
      NothingYet(All(), start, at);
      for i := 0 to |chunks|
        invariant at == base + |UnitsOf(records, chunks[..i])| <= head
        invariant output == before + Render(All()[Clip(start, at)..at])
      {
        var chunk := chunks[i];
        var end := at + if records then 1 else |chunk.bytes|;
        NextChunk(i);
        ChunkRendered(records, All(), start, at, chunk);
        if start < end {
          var piece := Piece(records, chunk, if records then 0 else Max(start - at, 0));
          assert before + Render(All()[Clip(start, at)..at]) + piece
              == before + (Render(All()[Clip(start, at)..at]) + piece);
          output := output + piece;
        } else {
          assert Render(All()[Clip(start, at)..at]) + [] == Render(All()[Clip(start, at)..at]);
        }
        at := end;
      }
      assert chunks[..|chunks|] == chunks;
      assert All()[Clip(start, head)..head] == All()[Clip(start, head)..];
    }

    lemma HeldUnits()
      requires Kept()
      ensures All() == UnitsOf(records, log[..Gone()]) + UnitsOf(records, chunks)
      ensures head == base + |UnitsOf(records, chunks)| && |UnitsOf(records, chunks[..0])| == 0
    {
      hide UnitsIn;
      UnitsAppend(records, log[..Gone()], chunks);
      assert log == log[..Gone()] + chunks;
    }

    lemma Measures()
      requires Valid()
      ensures base <= head == |All()|
    {
      HeldUnits();
    }

    /** Where the units of chunk `i` are in the whole log. */
    lemma NextChunk(i: nat)
      requires Kept() && i < |chunks|
      ensures var at, n := base + |UnitsOf(records, chunks[..i])|, |UnitsIn(records, chunks[i])|;
        && at + n <= head && All()[at..at + n] == UnitsIn(records, chunks[i])
        && at + n == base + |UnitsOf(records, chunks[..i + 1])|
    {
      hide UnitsIn, UnitsOf;
      HeldUnits();
      var before, here, after := chunks[..i], [chunks[i]], chunks[i + 1..];
      assert chunks[..i + 1] == before + here && chunks == before + here + after;
      UnitsAppend(records, before, here);
      UnitsAppend(records, before + here, after);
      UnitsOfOne(records, chunks[i]);
      Middle(UnitsOf(records, log[..Gone()]), UnitsOf(records, before), UnitsIn(records, chunks[i]), UnitsOf(records, after));
    }
  }

  lemma Middle(a: seq<Unit>, b: seq<Unit>, c: seq<Unit>, d: seq<Unit>)
    ensures var at := |a| + |b|; (a + (b + c + d))[at..at + |c|] == c
  {
  }

  lemma NothingYet(units: seq<Unit>, start: nat, at: nat)
    requires at <= |units| && at <= start
    ensures Render(units[Clip(start, at)..at]) == []
  {
  }

  /** What a chunk contributes to a read that starts `skip` units into it. */
  function Piece(records: bool, chunk: Chunk, skip: nat): seq<byte>
    requires skip <= |chunk.bytes|
  {
    if records then RenderUnit(Record(chunk)) else chunk.bytes[skip..]
  }

  lemma ChunkRendered(records: bool, units: seq<Unit>, start: nat, at: nat, chunk: Chunk)
    requires var end := at + |UnitsIn(records, chunk)|;
      end <= |units| && units[at..end] == UnitsIn(records, chunk)
    ensures var end := at + |UnitsIn(records, chunk)|;
      Render(units[Clip(start, end)..end])
        == Render(units[Clip(start, at)..at])
           + if start < end then Piece(records, chunk, if records then 0 else Max(start - at, 0)) else []
  {
    hide RenderUnit, Render;
    var inside := UnitsIn(records, chunk);
    var end := at + |inside|;
    RenderNothing();
    if start >= end {
      assert units[Clip(start, end)..end] == [] && units[Clip(start, at)..at] == [];
    } else if start <= at {
      assert units[start..end] == units[start..at] + inside;
      RenderAppend(units[start..at], inside);
      PieceRendered(records, chunk, 0);
      assert inside[0..] == inside;
    } else {
      assert units[start..end] == inside[start - at..];
      assert units[Clip(start, at)..at] == [];
      PieceRendered(records, chunk, start - at);
    }
  }

  lemma RenderNothing()
    ensures Render([]) == []
  {
  }

  lemma PieceRendered(records: bool, chunk: Chunk, skip: nat)
    requires skip < |UnitsIn(records, chunk)| || skip == 0
    ensures records ==> Render(UnitsIn(records, chunk)) == RenderUnit(Record(chunk))
    ensures !records ==> Render(UnitsIn(records, chunk)[skip..]) == chunk.bytes[skip..]
  {
    hide RenderUnit;
    if records {
      assert Render([Record(chunk)]) == RenderUnit(Record(chunk)) + Render([]);
    } else {
      RenderOctets(UnitsIn(records, chunk)[skip..], chunk.bytes[skip..]);
    }
  }

  lemma PushedSuffix(log: seq<Chunk>, gone: nat, chunk: Chunk)
    requires gone <= |log|
    ensures (log + [chunk])[gone..] == log[gone..] + [chunk] && (log + [chunk])[..gone] == log[..gone]
  {
  }

  // ---------------------------------------------------------------------
  // A reader that feeds back the head it was told.

  function FromBe64(bytes: seq<byte>): nat
    requires |bytes| == 8
  {
    Framing.FromBe32(bytes[..4]) * Framing.U32 + Framing.FromBe32(bytes[4..])
  }

  lemma HeadReadsBack(n: nat)
    requires n < Framing.U32 * Framing.U32
    ensures |Be64(n)| == 8 && FromBe64(Be64(n)) == n
  {
    var high, low := Framing.Be32(n / Framing.U32), Framing.Be32(n % Framing.U32);
    assert (high + low)[..4] == high && (high + low)[4..] == low;
  }

  datatype Event = Appended(direction: byte, bytes: seq<byte>) | Polled

  function Total(events: seq<Event>): nat
  {
    if events == [] then 0
    else (match events[0] case Appended(_, bytes) => |bytes| case Polled => 0) + Total(events[1..])
  }

  /** The units whose flag is set, in order. */
  ghost function Pick(units: seq<Unit>, flags: seq<bool>): seq<Unit>
    requires |units| == |flags|
  {
    if units == [] then [] else
    var n := |units| - 1;
    Pick(units[..n], flags[..n]) + if flags[n] then [units[n]] else []
  }

  ghost function Repeat(flag: bool, n: nat): (flags: seq<bool>)
    ensures |flags| == n && forall i | 0 <= i < n :: flags[i] == flag
  {
    seq(n, _ => flag)
  }

  lemma {:induction false} PickAppend(a: seq<Unit>, fa: seq<bool>, b: seq<Unit>, fb: seq<bool>)
    requires |a| == |fa| && |b| == |fb|
    ensures Pick(a + b, fa + fb) == Pick(a, fa) + Pick(b, fb)
    decreases |b|
  {
    hide Pick;
    if b == [] {
      assert a + b == a && fa + fb == fa;
      PickNone(fb);
    } else {
      var n := |b| - 1;
      PickAppend(a, fa, b[..n], fb[..n]);
      assert a + b == a + b[..n] + [b[n]] && fa + fb == fa + fb[..n] + [fb[n]];
      assert b == b[..n] + [b[n]] && fb == fb[..n] + [fb[n]];
      PickSnoc(a + b[..n], fa + fb[..n], b[n], fb[n]);
      PickSnoc(b[..n], fb[..n], b[n], fb[n]);
    }
  }

  lemma PickNone(flags: seq<bool>)
    requires flags == []
    ensures Pick([], flags) == []
  {
  }

  lemma PickSnoc(units: seq<Unit>, flags: seq<bool>, u: Unit, flag: bool)
    requires |units| == |flags|
    ensures Pick(units + [u], flags + [flag]) == Pick(units, flags) + if flag then [u] else []
  {
    assert (units + [u])[..|units|] == units && (flags + [flag])[..|units|] == flags;
  }

  lemma {:induction false} PickSame(units: seq<Unit>, flag: bool)
    ensures Pick(units, Repeat(flag, |units|)) == if flag then units else []
  {
    if units != [] {
      var n := |units| - 1;
      PickSame(units[..n], flag);
      assert Repeat(flag, |units|)[..n] == Repeat(flag, n);
      assert units == units[..n] + [units[n]];
    }
  }

  /** What one read adds: everything from `from` on, and nothing of what was lost before it. */
  lemma PickRead(units: seq<Unit>, begin: nat, cursor: nat, flags: seq<bool>, from: nat)
    requires begin <= cursor <= from <= |units| && |flags| == cursor - begin
    ensures Pick(units[begin..], flags + Repeat(false, from - cursor) + Repeat(true, |units| - from))
         == Pick(units[begin..cursor], flags) + units[from..]
  {
    hide Pick;
    var seen, gone, fresh_ := units[begin..cursor], units[cursor..from], units[from..];
    PickAppend(seen, flags, gone, Repeat(false, from - cursor));
    PickAppend(seen + gone, flags + Repeat(false, from - cursor), fresh_, Repeat(true, |units| - from));
    PickSame(gone, false);
    PickSame(fresh_, true);
    assert units[begin..] == seen + gone + fresh_;
  }

  /**
    `flags` says for every unit from `begin` on whether the reader saw it: it
    saw the flagged units once and in order, the others are evicted, and it
    knows of a gap exactly when there are such.
   */
  ghost predicate Seen(units: seq<Unit>, base: nat, seen: seq<byte>, gaps: bool, begin: nat, flags: seq<bool>)
  {
    && begin + |flags| <= |units|
    && seen == Render(Pick(units[begin..begin + |flags|], flags))
    && (forall i | 0 <= i < |flags| :: !flags[i] ==> begin + i < base)
    && (gaps <==> false in flags)
  }

  lemma SeenNothing(units: seq<Unit>, base: nat, begin: nat)
    requires begin <= |units|
    ensures Seen(units, base, [], false, begin, [])
  {
  }

  lemma SeenStays(
      units: seq<Unit>, base: nat, more: seq<Unit>, later: nat, seen: seq<byte>, gaps: bool, begin: nat, flags: seq<bool>)
    requires Seen(units, base, seen, gaps, begin, flags) && units <= more && base <= later
    ensures Seen(more, later, seen, gaps, begin, flags)
  {
    hide Render, Pick;
    assert more[begin..begin + |flags|] == units[begin..begin + |flags|];
  }

  lemma SeenMore(
      units: seq<Unit>, base: nat, seen: seq<byte>, gaps: bool, begin: nat, flags: seq<bool>, from: nat)
    requires Seen(units, base, seen, gaps, begin, flags) && begin + |flags| <= from <= |units|
    requires begin + |flags| < from ==> from <= base
    ensures Seen(units, base, seen + Render(units[from..]), gaps || begin + |flags| < from, begin,
                 flags + Repeat(false, from - begin - |flags|) + Repeat(true, |units| - from))
  {
    hide Render, Pick;
    var cursor := begin + |flags|;
    var gone, here := Repeat(false, from - cursor), Repeat(true, |units| - from);
    PickRead(units, begin, cursor, flags, from);
    RenderAppend(Pick(units[begin..cursor], flags), units[from..]);
    assert units[begin..begin + |flags + gone + here|] == units[begin..];
    assert cursor < from ==> (flags + gone + here)[|flags|] == false;
    forall k | 0 <= k < |flags| ensures (flags + gone + here)[k] == flags[k] {
    }
    GapKnown(flags, gone, here);
  }

  lemma GapKnown(flags: seq<bool>, gone: seq<bool>, here: seq<bool>)
    requires false !in here && true !in gone
    ensures false in flags + gone + here <==> false in flags || |gone| > 0
  {
    var all := flags + gone + here;
    if |gone| > 0 {
      assert gone[0] in gone;
      assert all[|flags|] == gone[0];
    }
    if false in flags {
      var k :| 0 <= k < |flags| && flags[k] == false;
      assert all[k] == false;
    }
    if false in all {
      var k :| 0 <= k < |all| && all[k] == false;
      assert k >= |flags| + |gone| ==> here[k - |flags| - |gone|] in here;
      assert |flags| <= k < |flags| + |gone| ==> |gone| > 0;
      assert k < |flags| ==> flags[k] in flags;
    }
  }

  /** What an event adds to the history. */
  ghost function LoggedBy(event: Event): seq<Chunk>
  {
    if event.Appended? && event.bytes != [] then [Chunk(event.direction, event.bytes)] else []
  }

  ghost function Logged(events: seq<Event>): seq<Chunk>
  {
    if events == [] then [] else Logged(events[..|events| - 1]) + LoggedBy(events[|events| - 1])
  }

  lemma NothingLogged()
    ensures LoggedBy(Polled) == []
  {
  }

  lemma LoggedNext(log: seq<Chunk>, events: seq<Event>, i: nat)
    requires i <= |events|
    ensures log + Logged(events[..0]) == log
    ensures i < |events| ==> log + Logged(events[..i + 1]) == log + Logged(events[..i]) + LoggedBy(events[i])
  {
    if i < |events| {
      assert events[..i + 1][..i] == events[..i];
    }
  }

  /** A read shows the reader all that is there from its cursor on; the first one decides where it begins. */
  method PollMore(h: History, cursor: int, seen: seq<byte>, gaps: bool, ghost begin: nat, ghost flags: seq<bool>, ghost started: bool)
    returns (nowSeen: seq<byte>, nowGaps: bool, next: nat, ghost nowBegin: nat, ghost nowFlags: seq<bool>)
    requires h.Valid() && h.base <= h.head == |h.All()| < Framing.U32 * Framing.U32
    requires Seen(h.All(), h.base, seen, gaps, begin, flags)
    requires if started then cursor == begin + |flags| <= h.head else seen == [] && !gaps && flags == []
    ensures Seen(h.All(), h.base, nowSeen, nowGaps, nowBegin, nowFlags) && next == nowBegin + |nowFlags| == h.head
    ensures nowBegin == if started then begin else if cursor < 0 then h.base else Clip(cursor, h.head)
  {
    hide Seen, Repeat, History.Valid, History.Kept, UnitsOf, UnitsIn, Render;
    var data, gap;
    data, gap, next := PollOnce(h, cursor);
    nowBegin := if started then begin else if cursor < 0 then h.base else Clip(cursor, h.head);
    if !started {
      SeenNothing(h.All(), h.base, nowBegin);
    }
    ghost var from := Clip(h.From(cursor), h.head);
    SeenMore(h.All(), h.base, seen, gaps, nowBegin, flags, from);
    nowFlags := flags + Repeat(false, from - nowBegin - |flags|) + Repeat(true, |h.All()| - from);
    nowSeen, nowGaps := seen + data, gaps || gap;
  }

  /** An append only adds to what there is to see. */
  method AppendOne(h: History, direction: byte, bytes: seq<byte>)
    requires h.Valid()
    modifies h
    ensures h.Valid() && old(h.All()) <= h.All() && old(h.base) <= h.base <= h.head == |h.All()|
    ensures old(h.head) <= h.head <= old(h.head) + |bytes|
    ensures h.log == old(h.log) + LoggedBy(Appended(direction, bytes))
  {
    h.Measures();
    h.Append(direction, bytes);
    h.Measures();
  }

  /** Any interleaving of appends and reads, for a reader that starts anywhere and feeds back the head it was told. */
  method Follow(h: History, events: seq<Event>, first: int)
    returns (seen: seq<byte>, gaps: bool, ghost begin: nat, ghost flags: seq<bool>)
    requires h.Valid() && h.head + Total(events) < Framing.U32 * Framing.U32
    modifies h
    ensures h.Valid() && Seen(h.All(), h.base, seen, gaps, begin, flags)
    ensures Polled in events && 0 <= first <= old(h.head) ==> begin == first
    ensures Polled in events && first < 0 ==> old(h.base) <= begin <= h.base
    ensures events != [] && events[|events| - 1] == Polled ==> begin + |flags| == h.head
    ensures h.log == old(h.log) + Logged(events)
  {
    hide Total, Seen, Logged, LoggedBy, Repeat, History.Valid, History.Kept, UnitsOf, UnitsIn, Render;
    var cursor := first;
    seen, gaps := [], false;
    begin, flags := 0, [];
    ghost var started := false;
    SeenNothing(h.All(), h.base, 0);
    h.Measures();
    assert events[0..] == events;
    LoggedNext(h.log, events, 0);
    for i := 0 to |events|
      invariant h.Valid() && h.head + Total(events[i..]) < Framing.U32 * Framing.U32
      invariant Seen(h.All(), h.base, seen, gaps, begin, flags)
      invariant if started then cursor == begin + |flags| <= h.head else cursor == first && seen == [] && !gaps && flags == []
      invariant i > 0 && events[i - 1] == Polled ==> begin + |flags| == h.head
      invariant (Polled in events[..i] ==> started) && old(h.base) <= h.base && old(h.head) <= h.head
      invariant started && 0 <= first <= old(h.head) ==> begin == first
      invariant started && first < 0 ==> old(h.base) <= begin <= h.base
      invariant h.log == old(h.log) + Logged(events[..i])
    {
      TotalStep(events, i);
      LoggedNext(old(h.log), events, i);
      assert events[..i + 1] == events[..i] + [events[i]];
      ghost var units, base := h.All(), h.base;
      h.Measures();
      match events[i]
      case Appended(direction, bytes) =>
        AppendOne(h, direction, bytes);
        SeenStays(units, base, h.All(), h.base, seen, gaps, begin, flags);
      case Polled =>
        NothingLogged();
        seen, gaps, cursor, begin, flags := PollMore(h, cursor, seen, gaps, begin, flags, started);
        started := true;
    }
    assert events[..|events|] == events;
  }

  lemma TotalStep(events: seq<Event>, i: nat)
    requires i < |events|
    ensures Total(events[i..]) == Total(events[i + 1..]) + match events[i] case Appended(_, bytes) => |bytes| case Polled => 0
  {
    assert events[i..][1..] == events[i + 1..];
  }

  /** One request as a client makes it: the head, the gap flag and the rest. */
  method PollOnce(h: History, cursor: int) returns (data: seq<byte>, gap: bool, next: nat)
    requires h.Valid() && h.head < Framing.U32 * Framing.U32
    requires h.head == |h.All()|
    ensures next == h.head && (gap <==> 0 <= cursor < h.base)
    ensures data == Render(h.All()[Clip(h.From(cursor), h.head)..])
  {
    hide Render, Be64, FromBe64, History.Kept;
    var output := h.Read(cursor);
    HeadReadsBack(h.head);
    ghost var rest := Render(h.All()[Clip(h.From(cursor), h.head)..]);
    assert output[..8] == Be64(h.head) && output[9..] == rest;
    next, gap, data := FromBe64(output[..8]), output[8] == 1, output[9..];
  }
}
