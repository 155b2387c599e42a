/** What fits into the first packet of a session (`client_environment.rs`). */
module EnvironmentBudget {
  import opened Bytes
  import opened Protobuf
  import opened EnvironmentGlob

  const MAX_INIT_PACKET_LEN := 64 * 1024
  const MAX_ENVIRONMENT := 128
  const USIZE_MAX := 0xffff_ffff_ffff_ffff
  /** The two bytes in front of every packet's payload. */
  const PACKET_HEADER := 2

  type text = seq<byte>

  function Saturating(n: nat): nat
  {
    if n > USIZE_MAX then USIZE_MAX else n
  }

  // ---------------------------------------------------------------------
  // The packet the server builds, byte by byte.

  function Names(env: seq<Variable>): seq<byte>
  {
    if env == [] then [] else LenField(1, env[0].name) + Names(env[1..])
  }

  function Values(env: seq<Variable>): seq<byte>
  {
    if env == [] then [] else LenField(2, env[0].value) + Values(env[1..])
  }

  /** TERMINAL_INIT for an environment and the fields `base` that follow it. */
  function TerminalInit(env: seq<Variable>, base: seq<byte>): seq<byte>
  {
    Names(env) + Values(env) + base
  }

  function WireLen(payload: seq<byte>): nat
  {
    PACKET_HEADER + |payload|
  }

  /** Bytes of a string field with a one-byte tag. */
  function FieldLen(length: nat): nat
  {
    1 + |Varint(length)| + length
  }

  function Cost(v: Variable): nat
  {
    FieldLen(|v.name|) + FieldLen(|v.value|)
  }

  function Costs(env: seq<Variable>): nat
  {
    if env == [] then 0 else Cost(env[0]) + Costs(env[1..])
  }

  /** The running sum is the true encoded size. */
  lemma {:induction false} CostsAreTrue(env: seq<Variable>, base: seq<byte>)
    ensures |TerminalInit(env, base)| == Costs(env) + |base|
  {
    hide Varint;
    if env != [] {
      LenFieldSize(1, env[0].name);
      LenFieldSize(2, env[0].value);
      CostsAreTrue(env[1..], base);
    }
  }

  lemma {:induction false} CostsAppend(a: seq<Variable>, b: seq<Variable>)
    ensures Costs(a + b) == Costs(a) + Costs(b)
  {
    if a == [] {
      assert a + b == b;
    } else {
      assert (a + b)[1..] == a[1..] + b;
      CostsAppend(a[1..], b);
    }
  }

  lemma CostsSnoc(a: seq<Variable>, v: Variable)
    ensures Costs(a + [v]) == Costs(a) + Cost(v)
  {
    hide FieldLen;
    CostsAppend(a, [v]);
    assert Costs([v]) == Cost(v) + Costs([]);
  }

  // ---------------------------------------------------------------------
  // Names that are already taken, and how long their values may get.

  datatype Reservation = Reservation(name: text, length: nat)

  predicate DistinctReserved(reserved: seq<Reservation>)
  {
    forall i, j | 0 <= i < j < |reserved| :: reserved[i].name != reserved[j].name
  }

  predicate Reserves(reserved: seq<Reservation>, name: text)
  {
    exists i | 0 <= i < |reserved| :: reserved[i].name == name
  }

  function ReservedCost(reserved: seq<Reservation>): nat
  {
    if reserved == [] then 0 else
    var last := reserved[|reserved| - 1];
    ReservedCost(reserved[..|reserved| - 1]) + FieldLen(|last.name|) + FieldLen(last.length)
  }

  /** Values the reservation allows for. */
  ghost predicate Within(env: seq<Variable>, reserved: seq<Reservation>)
  {
    && |env| == |reserved|
    && forall i | 0 <= i < |env| :: env[i].name == reserved[i].name && |env[i].value| <= reserved[i].length
  }

  lemma {:induction false} ReservedIsEnough(env: seq<Variable>, reserved: seq<Reservation>)
    requires Within(env, reserved)
    ensures Costs(env) <= ReservedCost(reserved)
  {
    hide Varint;
    if env != [] {
      var k := |env| - 1;
      assert env == env[..k] + [env[k]];
      CostsSnoc(env[..k], env[k]);
      ReservedIsEnough(env[..k], reserved[..k]);
      VarintGrows(|env[k].value|, reserved[k].length);
    }
  }

  // ---------------------------------------------------------------------
  // Selection.

  predicate NamesDistinct(env: seq<Variable>)
  {
    forall i, j | 0 <= i < j < |env| :: env[i].name != env[j].name
  }

  /** Candidate `i` is the first of its name and the name is free. */
  ghost predicate Eligible(candidates: seq<Variable>, reserved: seq<Reservation>, i: nat)
    requires i < |candidates|
  {
    && (forall j | 0 <= j < i :: candidates[j].name != candidates[i].name)
    && !Reserves(reserved, candidates[i].name)
  }

  /** `picks` are positions in increasing order. */
  ghost predicate Increasing(picks: seq<nat>, n: nat)
  {
    && (forall i, j | 0 <= i < j < |picks| :: picks[i] < picks[j])
    && (forall i | 0 <= i < |picks| :: picks[i] < n)
  }

  ghost function At(candidates: seq<Variable>, picks: seq<nat>): seq<Variable>
    requires forall i | 0 <= i < |picks| :: picks[i] < |candidates|
  {
    seq(|picks|, i requires 0 <= i < |picks| => candidates[picks[i]])
  }

  /** How many of `picks` come before position `i`. */
  ghost function Rank(picks: seq<nat>, i: nat): (r: nat)
    ensures r <= |picks|
  {
    if picks == [] || picks[|picks| - 1] < i then |picks| else Rank(picks[..|picks| - 1], i)
  }

  /** There is room for candidate `i` beside everything picked before it. */
  ghost predicate RoomFor(candidates: seq<Variable>, picks: seq<nat>, i: nat, start: nat, capacity: nat)
    requires i < |candidates| && forall k | 0 <= k < |picks| :: picks[k] < |candidates|
  {
    var before := picks[..Rank(picks, i)];
    && |before| < capacity
    && start + Costs(At(candidates, before)) + Cost(candidates[i]) <= MAX_INIT_PACKET_LEN
  }

  /** Exactly the eligible candidates there was room for when their turn came. */
  ghost predicate Greedy(
      candidates: seq<Variable>, reserved: seq<Reservation>, picks: seq<nat>, n: nat, start: nat, capacity: nat)
    requires n <= |candidates|
  {
    && Increasing(picks, n)
    && forall i | 0 <= i < n ::
         (i in picks <==> Eligible(candidates, reserved, i) && RoomFor(candidates, picks, i, start, capacity))
  }

  /** `chosen` are the candidates a greedy pass picks. */
  ghost predicate GreedyChoice(
      candidates: seq<Variable>, reserved: seq<Reservation>, chosen: seq<Variable>, start: nat, capacity: nat)
  {
    exists picks: seq<nat> ::
      Greedy(candidates, reserved, picks, |candidates|, start, capacity) && chosen == At(candidates, picks)
  }

  function Capacity(reserved: seq<Reservation>): nat
  {
    if |reserved| < MAX_ENVIRONMENT then MAX_ENVIRONMENT - |reserved| else 0
  }

  datatype Outcome = Selected(variables: seq<Variable>) | TooLong(length: nat)

  /** `encoded_string_field_len`. */
  method EncodedStringFieldLen(length: nat) returns (size: nat)
    ensures size == Saturating(FieldLen(length))
  {
    var digits := VarintLen(length);
    size := Saturating(Saturating(1 + digits) + length);
  }

  /** The reserved part of the running length. */
  method ReservedLen(start: nat, reserved: seq<Reservation>) returns (length: nat)
    requires start <= USIZE_MAX
    ensures length == Saturating(start + ReservedCost(reserved))
  {
    hide FieldLen;
    length := start;
    for i := 0 to |reserved|
      invariant length == Saturating(start + ReservedCost(reserved[..i]))
    {
      var name := EncodedStringFieldLen(|reserved[i].name|);
      var value := EncodedStringFieldLen(reserved[i].length);
      assert reserved[..i + 1][..i] == reserved[..i];
      length := Saturating(Saturating(length + name) + value);
    }
    assert reserved[..|reserved|] == reserved;
  }

  /**
    `bounded_locale_environment`. `base` is the packet's encoding without an
    environment. Too long already, or a selection that fits.
   */
  method BoundedLocaleEnvironment(candidates: seq<Variable>, reserved: seq<Reservation>, base: seq<byte>)
    returns (outcome: Outcome)
    requires DistinctReserved(reserved) && WireLen(base) <= USIZE_MAX
    ensures var start := WireLen(base) + ReservedCost(reserved);
      if start > MAX_INIT_PACKET_LEN then outcome == TooLong(Saturating(start))
      else
        && outcome.Selected?
        && GreedyChoice(candidates, reserved, outcome.variables, start, Capacity(reserved))
        && start + Costs(outcome.variables) <= MAX_INIT_PACKET_LEN
        && |outcome.variables| <= Capacity(reserved)
  {
    hide ReservedCost, Greedy, FieldLen, Reserves, At;
    ghost var picks: seq<nat> := [];
    ghost var start := WireLen(base) + ReservedCost(reserved);
    var packetLen := ReservedLen(WireLen(base), reserved);
    if packetLen > MAX_INIT_PACKET_LEN {
      return TooLong(packetLen);
    }
    var capacity := Capacity(reserved);
    var selected: seq<Variable> := [];
    var seen: set<text> := {};
    NothingPicked(candidates, reserved, start, capacity);
    for i := 0 to |candidates|
      invariant Increasing(picks, i) && Greedy(candidates, reserved, picks, i, start, capacity)
      invariant selected == At(candidates, picks) && packetLen == start + Costs(selected) <= MAX_INIT_PACKET_LEN
      invariant |selected| == |picks| <= capacity
      invariant forall name :: name in seen <==> exists j | 0 <= j < i :: candidates[j].name == name
    {
      var candidate := candidates[i];
      var name := EncodedStringFieldLen(|candidate.name|);
      var value := EncodedStringFieldLen(|candidate.value|);
      if candidate.name !in seen && !Reserves(reserved, candidate.name) && |selected| != capacity
         && Saturating(packetLen + (name + value)) <= MAX_INIT_PACKET_LEN {
        Picked(candidates, reserved, picks, i, start, capacity);
        CostsSnoc(selected, candidate);
        picks := picks + [i];
        packetLen := packetLen + (name + value);
        selected := selected + [candidate];
      } else {
        Passed(candidates, reserved, picks, i, start, capacity);
      }
      seen := seen + {candidate.name};
    }
    outcome := Selected(selected);
  }

  lemma NothingPicked(candidates: seq<Variable>, reserved: seq<Reservation>, start: nat, capacity: nat)
    ensures Increasing([], 0) && Greedy(candidates, reserved, [], 0, start, capacity)
    ensures At(candidates, []) == [] && Costs([]) == 0
  {
  }

  lemma RankOfNext(picks: seq<nat>, i: nat)
    requires Increasing(picks, i)
    ensures Rank(picks, i) == |picks| && picks[..|picks|] == picks
    ensures forall k | 0 <= k <= i :: Rank(picks + [i], k) == Rank(picks, k)
  {
    assert (picks + [i])[..|picks|] == picks;
  }

  lemma Picked(
      candidates: seq<Variable>, reserved: seq<Reservation>, picks: seq<nat>, i: nat, start: nat, capacity: nat)
    requires i < |candidates| && Greedy(candidates, reserved, picks, i, start, capacity)
    requires Eligible(candidates, reserved, i) && |picks| < capacity
    requires start + Costs(At(candidates, picks)) + Cost(candidates[i]) <= MAX_INIT_PACKET_LEN
    ensures Increasing(picks + [i], i + 1)
    ensures Greedy(candidates, reserved, picks + [i], i + 1, start, capacity)
    ensures At(candidates, picks + [i]) == At(candidates, picks) + [candidates[i]]
  {
    hide Rank, Eligible, Costs, Cost;
    var more := picks + [i];
    RankOfNext(picks, i);
    forall k | 0 <= k < i + 1
      ensures k in more <==> Eligible(candidates, reserved, k) && RoomFor(candidates, more, k, start, capacity)
    {
      assert more[..Rank(more, k)] == picks[..Rank(picks, k)];
    }
  }

  lemma Passed(
      candidates: seq<Variable>, reserved: seq<Reservation>, picks: seq<nat>, i: nat, start: nat, capacity: nat)
    requires i < |candidates| && Greedy(candidates, reserved, picks, i, start, capacity)
    requires Eligible(candidates, reserved, i) ==>
      || |picks| >= capacity
      || start + Costs(At(candidates, picks)) + Cost(candidates[i]) > MAX_INIT_PACKET_LEN
    ensures Increasing(picks, i + 1) && Greedy(candidates, reserved, picks, i + 1, start, capacity)
  {
    hide Rank, Eligible, Costs, Cost;
    RankOfNext(picks, i);
  }

  /** The rank separates the positions before `i` from the others. */
  lemma {:induction false} RankSplits(picks: seq<nat>, n: nat, i: nat)
    requires Increasing(picks, n)
    ensures forall k | 0 <= k < Rank(picks, i) :: picks[k] < i
    ensures forall k | Rank(picks, i) <= k < |picks| :: picks[k] >= i
    decreases |picks|
  {
    if picks != [] && picks[|picks| - 1] >= i {
      RankSplits(picks[..|picks| - 1], n, i);
    }
  }

  /** Nothing else separates them. */
  lemma {:induction false} RankIs(picks: seq<nat>, i: nat, r: nat)
    requires r <= |picks| && (forall k | 0 <= k < r :: picks[k] < i) && (forall k | r <= k < |picks| :: picks[k] >= i)
    ensures Rank(picks, i) == r
    decreases |picks|
  {
    if r < |picks| {
      RankIs(picks[..|picks| - 1], i, r);
    }
  }

  /** The positions before `i + 1` are the ones before `i` and possibly `i`. */
  lemma RankStep(picks: seq<nat>, n: nat, i: nat)
    requires Increasing(picks, n)
    ensures picks[..Rank(picks, i + 1)] == picks[..Rank(picks, i)] + if i in picks then [i] else []
    ensures Rank(picks, 0) == 0
  {
    hide Rank;
    RankIs(picks, 0, 0);
    if i in picks {
      var m :| 0 <= m < |picks| && picks[m] == i;
      RankIs(picks, i, m);
      RankIs(picks, i + 1, m + 1);
    } else {
      RankSplits(picks, n, i);
      forall k | Rank(picks, i) <= k < |picks| ensures picks[k] >= i + 1 {
        assert picks[k] in picks;
      }
      RankIs(picks, i + 1, Rank(picks, i));
    }
  }

  lemma AllBefore(picks: seq<nat>, i: nat)
    requires picks != [] ==> picks[|picks| - 1] < i
    ensures Rank(picks, i) == |picks|
  {
  }

  /** A greedy pass has one outcome, so the choice determines the result. */
  lemma {:induction false} GreedyAgreesUpTo(
      candidates: seq<Variable>, reserved: seq<Reservation>, p: seq<nat>, q: seq<nat>, start: nat, capacity: nat, n: nat)
    requires Greedy(candidates, reserved, p, |candidates|, start, capacity) && n <= |candidates|
    requires Greedy(candidates, reserved, q, |candidates|, start, capacity)
    ensures p[..Rank(p, n)] == q[..Rank(q, n)]
    decreases n
  {
    hide Rank, Eligible;
    if n == 0 {
      RankStep(p, |candidates|, 0);
      RankStep(q, |candidates|, 0);
      assert p[..0] == q[..0];
    } else {
      GreedyAgreesUpTo(candidates, reserved, p, q, start, capacity, n - 1);
      RankStep(p, |candidates|, n - 1);
      RankStep(q, |candidates|, n - 1);
      assert RoomFor(candidates, p, n - 1, start, capacity) == RoomFor(candidates, q, n - 1, start, capacity);
    }
  }

  lemma GreedyChoiceIsUnique(
      candidates: seq<Variable>, reserved: seq<Reservation>, a: seq<Variable>, b: seq<Variable>, start: nat, capacity: nat)
    requires GreedyChoice(candidates, reserved, a, start, capacity) && GreedyChoice(candidates, reserved, b, start, capacity)
    ensures a == b
  {
    hide Eligible, RoomFor;
    var n := |candidates|;
    var p: seq<nat> :| Greedy(candidates, reserved, p, n, start, capacity) && a == At(candidates, p);
    var q: seq<nat> :| Greedy(candidates, reserved, q, n, start, capacity) && b == At(candidates, q);
    GreedyAgreesUpTo(candidates, reserved, p, q, start, capacity, n);
    AllBefore(p, n);
    AllBefore(q, n);
    assert p[..|p|] == p && q[..|q|] == q;
  }

  /**
    What a selection is good for: its names are free, distinct and first of
    their name, and with every reserved value as long as reserved the packet
    is within the limits of the peer.
   */
  lemma SelectionIsSound(
      candidates: seq<Variable>, reserved: seq<Reservation>, chosen: seq<Variable>, base: seq<byte>, env: seq<Variable>)
    requires DistinctReserved(reserved) && Within(env, reserved)
    requires var start := WireLen(base) + ReservedCost(reserved);
      && GreedyChoice(candidates, reserved, chosen, start, Capacity(reserved))
      && start + Costs(chosen) <= MAX_INIT_PACKET_LEN
      && |chosen| <= Capacity(reserved)
    ensures var all := env + chosen;
      && NamesDistinct(all)
      && WireLen(TerminalInit(all, base)) <= MAX_INIT_PACKET_LEN
      && (|reserved| <= MAX_ENVIRONMENT ==> |all| <= MAX_ENVIRONMENT)
    ensures forall v | v in chosen :: exists i | 0 <= i < |candidates| :: candidates[i] == v && Eligible(candidates, reserved, i)
  {
    hide ReservedCost, Costs, Within, Greedy, TerminalInit, NamesDistinct, DistinctReserved, Eligible, Increasing;
    var start := WireLen(base) + ReservedCost(reserved);
    var picks := PicksOf(candidates, reserved, chosen, start, Capacity(reserved));
    DistinctTogether(candidates, reserved, picks, env);
    PacketFits(reserved, env, chosen, base);
    forall v | v in chosen
      ensures exists i | 0 <= i < |candidates| :: candidates[i] == v && Eligible(candidates, reserved, i)
    {
      var k :| 0 <= k < |chosen| && chosen[k] == v;
      assert candidates[picks[k]] == v && Eligible(candidates, reserved, picks[k]);
    }
  }

  lemma PicksOf(
      candidates: seq<Variable>, reserved: seq<Reservation>, chosen: seq<Variable>, start: nat, capacity: nat)
    returns (picks: seq<nat>)
    requires GreedyChoice(candidates, reserved, chosen, start, capacity)
    ensures Increasing(picks, |candidates|) && forall k | 0 <= k < |picks| :: picks[k] < |candidates|
    ensures chosen == At(candidates, picks)
    ensures forall k | 0 <= k < |picks| :: Eligible(candidates, reserved, picks[k])
  {
    hide Eligible, RoomFor;
    picks :| Greedy(candidates, reserved, picks, |candidates|, start, capacity) && chosen == At(candidates, picks);
    PicksAreEligible(candidates, reserved, picks, start, capacity);
  }

  lemma PicksAreEligible(
      candidates: seq<Variable>, reserved: seq<Reservation>, picks: seq<nat>, start: nat, capacity: nat)
    requires Greedy(candidates, reserved, picks, |candidates|, start, capacity)
    ensures Increasing(picks, |candidates|) && forall k | 0 <= k < |picks| :: picks[k] < |candidates|
    ensures forall k | 0 <= k < |picks| :: Eligible(candidates, reserved, picks[k])
  {
    hide Eligible, RoomFor;
    forall k | 0 <= k < |picks| ensures Eligible(candidates, reserved, picks[k]) {
      assert picks[k] in picks;
    }
  }

  lemma PacketFits(reserved: seq<Reservation>, env: seq<Variable>, chosen: seq<Variable>, base: seq<byte>)
    requires Within(env, reserved) && |chosen| <= Capacity(reserved)
    requires WireLen(base) + ReservedCost(reserved) + Costs(chosen) <= MAX_INIT_PACKET_LEN
    ensures WireLen(TerminalInit(env + chosen, base)) <= MAX_INIT_PACKET_LEN
    ensures |reserved| <= MAX_ENVIRONMENT ==> |env + chosen| <= MAX_ENVIRONMENT
  {
    hide ReservedCost, Costs, TerminalInit;
    CostsAppend(env, chosen);
    CostsAreTrue(env + chosen, base);
    ReservedIsEnough(env, reserved);
  }

  lemma DistinctTogether(candidates: seq<Variable>, reserved: seq<Reservation>, picks: seq<nat>, env: seq<Variable>)
    requires DistinctReserved(reserved) && Within(env, reserved) && Increasing(picks, |candidates|)
    requires forall k | 0 <= k < |picks| :: Eligible(candidates, reserved, picks[k])
    ensures NamesDistinct(env + At(candidates, picks))
  {
    var chosen := At(candidates, picks);
    forall k | 0 <= k < |chosen| ensures !Reserves(reserved, chosen[k].name) {
      assert Eligible(candidates, reserved, picks[k]);
    }
    forall i, j | 0 <= i < j < |chosen| ensures chosen[i].name != chosen[j].name {
      assert Eligible(candidates, reserved, picks[j]);
    }
    forall i | 0 <= i < |env| ensures Reserves(reserved, env[i].name) {
      assert reserved[i].name == env[i].name;
    }
  }

  // ---------------------------------------------------------------------
  // The jumphost packet: the environment is a map field there.

  /** A map entry leaves out an empty key and an empty value. */
  function Entry(v: Variable): seq<byte>
  {
    (if v.name == [] then [] else LenField(1, v.name)) + (if v.value == [] then [] else LenField(2, v.value))
  }

  /** The record with this tag at the front, or its default. */
  function FieldOr(tag: nat, bytes: seq<byte>): (seq<byte>, seq<byte>)
  {
    match ReadLenField(bytes)
    case Some((found, contents, rest)) => if found == tag then (contents, rest) else ([], bytes)
    case None => ([], bytes)
  }

  /** The key and value a decoder finds in a map entry. */
  function ReadEntry(bytes: seq<byte>): Option<(seq<byte>, seq<byte>)>
  {
    var (name, rest) := FieldOr(1, bytes);
    var (value, end) := FieldOr(2, rest);
    if end == [] then Some((name, value)) else None
  }

  lemma EntryReadsBack(v: Variable)
    ensures ReadEntry(Entry(v)) == Some((v.name, v.value))
  {
    hide LenField, ReadLenField;
    var name, value := LenField(1, v.name), if v.value == [] then [] else LenField(2, v.value);
    assert value + [] == value && [] + value == value;
    NoField();
    LenFieldReadsBack(1, v.name, value);
    LenFieldReadsBack(2, v.value, []);
  }

  lemma NoField()
    ensures ReadLenField([]).None?
  {
  }

  function Entries(env: seq<Variable>): seq<byte>
  {
    if env == [] then [] else LenField(3, Entry(env[0])) + Entries(env[1..])
  }

  /** JUMPHOST_INIT on the wire; `others` are the payload's remaining fields, `jumphost` set. */
  function JumphostLen(others: seq<byte>, env: seq<Variable>): nat
  {
    WireLen(others) + |Entries(env)|
  }

  /** Set a variable; a present one keeps its place. */
  function Put(env: seq<Variable>, v: Variable): (r: seq<Variable>)
  {
    if env == [] then [v]
    else if env[0].name == v.name then [v] + env[1..]
    else [env[0]] + Put(env[1..], v)
  }

  function PutAll(env: seq<Variable>, more: seq<Variable>): seq<Variable>
    decreases |more|
  {
    if more == [] then env else Put(PutAll(env, more[..|more| - 1]), more[|more| - 1])
  }

  function Remove(env: seq<Variable>, name: text): seq<Variable>
  {
    if env == [] then [] else
    (if env[0].name == name then [] else [env[0]]) + Remove(env[1..], name)
  }

  /** The names of two environments do not meet. */
  predicate Apart(env: seq<Variable>, more: seq<Variable>)
  {
    forall i, j | 0 <= i < |env| && 0 <= j < |more| :: env[i].name != more[j].name
  }

  predicate Fits(others: seq<byte>, env: seq<Variable>)
  {
    JumphostLen(others, env) <= MAX_INIT_PACKET_LEN
  }

  /** What is left of the locale once its tail is popped, and what the model of the packet then holds. */
  ghost function Modeled(env: seq<Variable>, locale: seq<Variable>, kept: nat): seq<Variable>
    requires kept <= |locale|
    decreases |locale| - kept
  {
    if kept == |locale| then PutAll(env, locale) else Remove(Modeled(env, locale, kept + 1), locale[kept].name)
  }

  /** `bound_jumphost_locale_environment`: pop variables off the end until the modelled packet fits. */
  method BoundJumphostLocale(others: seq<byte>, env: seq<Variable>, locale: seq<Variable>)
    returns (kept: seq<Variable>, tooLong: Option<nat>)
    ensures |kept| <= |locale| && kept == locale[..|kept|]
    ensures forall k | |kept| < k <= |locale| :: !Fits(others, Modeled(env, locale, k))
    ensures tooLong.None? ==> Fits(others, Modeled(env, locale, |kept|))
    ensures tooLong.Some? ==>
      kept == [] && !Fits(others, Modeled(env, locale, 0)) && tooLong.value == JumphostLen(others, Modeled(env, locale, 0))
  {
    hide JumphostLen, PutAll, Remove;
    var modeled := PutAll(env, locale);
    var n := |locale|;
    while true
      invariant 0 <= n <= |locale| && modeled == Modeled(env, locale, n)
      invariant forall k | n < k <= |locale| :: !Fits(others, Modeled(env, locale, k))
      decreases n
    {
      var length := JumphostLen(others, modeled);
      if length <= MAX_INIT_PACKET_LEN {
        return locale[..n], None;
      }
      if n == 0 {
        return [], Some(length);
      }
      n := n - 1;
      modeled := Remove(modeled, locale[n].name);
    }
  }

  predicate Absent(env: seq<Variable>, name: text)
  {
    forall i | 0 <= i < |env| :: env[i].name != name
  }

  lemma {:induction false} PutNew(env: seq<Variable>, v: Variable)
    requires Absent(env, v.name)
    ensures Put(env, v) == env + [v]
  {
    if env != [] {
      PutNew(env[1..], v);
    }
  }

  lemma {:induction false} RemoveLast(env: seq<Variable>, v: Variable)
    requires Absent(env, v.name)
    ensures Remove(env + [v], v.name) == env
  {
    if env == [] {
      assert (env + [v])[1..] == [];
    } else {
      assert (env + [v])[1..] == env[1..] + [v];
      RemoveLast(env[1..], v);
    }
  }

  lemma {:induction false} PutAllNew(env: seq<Variable>, more: seq<Variable>)
    requires NamesDistinct(more) && Apart(env, more)
    ensures PutAll(env, more) == env + more
    decreases |more|
  {
    if more != [] {
      var before, last := more[..|more| - 1], more[|more| - 1];
      PutAllNew(env, before);
      PutNew(env + before, last);
      assert more == before + [last];
    }
  }

  /** With distinct names that the payload does not use, the model of the packet is the packet. */
  lemma {:induction false} ModeledIsPacket(env: seq<Variable>, locale: seq<Variable>, kept: nat)
    requires NamesDistinct(locale) && Apart(env, locale) && kept <= |locale|
    ensures Modeled(env, locale, kept) == env + locale[..kept]
    decreases |locale| - kept
  {
    hide Put, PutAll, Remove;
    if kept == |locale| {
      PutAllNew(env, locale);
      assert locale[..kept] == locale;
    } else {
      ModeledIsPacket(env, locale, kept + 1);
      assert env + locale[..kept + 1] == env + locale[..kept] + [locale[kept]];
      RemoveLast(env + locale[..kept], locale[kept]);
    }
  }

  /**
    The trim keeps the longest prefix of the locale that fits beside the
    payload's own environment, and reports a length only when nothing fits.
   */
  method TrimJumphost(others: seq<byte>, env: seq<Variable>, locale: seq<Variable>)
    returns (kept: seq<Variable>, tooLong: Option<nat>)
    requires NamesDistinct(locale) && Apart(env, locale)
    ensures |kept| <= |locale| && kept == locale[..|kept|]
    ensures tooLong.None? ==> Fits(others, env + kept)
    ensures forall k | |kept| < k <= |locale| :: !Fits(others, env + locale[..k])
    ensures tooLong.Some? <==> !Fits(others, env)
    ensures tooLong.Some? ==> kept == [] && tooLong.value == JumphostLen(others, env)
  {
    hide JumphostLen;
    kept, tooLong := BoundJumphostLocale(others, env, locale);
    forall k | 0 <= k <= |locale| ensures Modeled(env, locale, k) == env + locale[..k] {
      ModeledIsPacket(env, locale, k);
    }
    assert env + locale[..0] == env;
    if tooLong.None? {
      ShorterFits(others, env, kept);
    }
  }

  lemma {:induction false} EntriesAppend(a: seq<Variable>, b: seq<Variable>)
    ensures Entries(a + b) == Entries(a) + Entries(b)
  {
    hide Entry;
    if a == [] {
      assert a + b == b;
    } else {
      assert (a + b)[1..] == a[1..] + b;
      EntriesAppend(a[1..], b);
    }
  }

  lemma ShorterFits(others: seq<byte>, env: seq<Variable>, more: seq<Variable>)
    requires Fits(others, env + more)
    ensures Fits(others, env)
  {
    EntriesAppend(env, more);
  }

  /** What the budget selects is what the trim may be given. */
  lemma SelectionSuitsTrim(
      candidates: seq<Variable>, reserved: seq<Reservation>, chosen: seq<Variable>, start: nat, env: seq<Variable>)
    requires GreedyChoice(candidates, reserved, chosen, start, Capacity(reserved))
    requires forall i | 0 <= i < |env| :: Reserves(reserved, env[i].name)
    ensures NamesDistinct(chosen) && Apart(env, chosen)
  {
    hide RoomFor, Greedy;
    var picks := PicksOf(candidates, reserved, chosen, start, Capacity(reserved));
    forall k | 0 <= k < |chosen| ensures !Reserves(reserved, chosen[k].name) {
      assert Eligible(candidates, reserved, picks[k]);
    }
    forall i, j | 0 <= i < j < |chosen| ensures chosen[i].name != chosen[j].name {
      assert Eligible(candidates, reserved, picks[j]);
    }
  }

  // ---------------------------------------------------------------------
  // Fresh names are exactly the condition.

  ghost predicate Named(env: seq<Variable>, names: seq<text>)
  {
    |env| == |names| && forall i | 0 <= i < |env| :: env[i].name == names[i]
  }

  /** The names are distinct and none is used by the payload. */
  ghost predicate FreshNames(used: seq<text>, names: seq<text>)
  {
    && (forall i, j | 0 <= i < j < |names| :: names[i] != names[j])
    && (forall i, j | 0 <= i < |used| && 0 <= j < |names| :: used[i] != names[j])
  }

  /** What the code keeps: the longest prefix whose modelled packet fits. */
  ghost predicate CodeKeeps(others: seq<byte>, env: seq<Variable>, locale: seq<Variable>, k: nat)
    requires k <= |locale|
  {
    && Fits(others, Modeled(env, locale, k))
    && forall j | k < j <= |locale| :: !Fits(others, Modeled(env, locale, j))
  }

  /** What it should keep: the longest prefix that fits once added to the payload's environment. */
  ghost predicate Longest(others: seq<byte>, env: seq<Variable>, locale: seq<Variable>, k: nat)
    requires k <= |locale|
  {
    && Fits(others, PutAll(env, locale[..k]))
    && forall j | k < j <= |locale| :: !Fits(others, PutAll(env, locale[..j]))
  }

  ghost predicate TrimIsRight(others: seq<byte>, env: seq<Variable>, locale: seq<Variable>)
  {
    forall k | 0 <= k <= |locale| :: CodeKeeps(others, env, locale, k) <==> Longest(others, env, locale, k)
  }

  lemma FreshNamesSuffice(others: seq<byte>, env: seq<Variable>, locale: seq<Variable>)
    requires NamesDistinct(locale) && Apart(env, locale)
    ensures TrimIsRight(others, env, locale)
  {
    hide Fits;
    forall k | 0 <= k <= |locale| ensures Modeled(env, locale, k) == PutAll(env, locale[..k]) {
      ModeledIsPacket(env, locale, k);
      PutAllNew(env, locale[..k]);
    }
  }

  ghost predicate Holds(env: seq<Variable>, v: Variable)
  {
    exists i | 0 <= i < |env| :: env[i] == v
  }

  lemma {:induction false} PutHolds(env: seq<Variable>, v: Variable, w: Variable)
    requires w == v || (w.name != v.name && Holds(env, v))
    ensures Holds(Put(env, w), v)
  {
    if env == [] || env[0].name == w.name {
      assert w == v ==> Put(env, w)[0] == v;
      if w != v {
        var i :| 0 <= i < |env| && env[i] == v;
        assert Put(env, w)[i] == v;
      }
    } else {
      var rest := Put(env[1..], w);
      if w != v {
        var i :| 0 <= i < |env| && env[i] == v;
        if i == 0 {
          assert Put(env, w)[0] == v;
          return;
        }
        assert env[1..][i - 1] == v;
      }
      PutHolds(env[1..], v, w);
      var k :| 0 <= k < |rest| && rest[k] == v;
      assert Put(env, w)[k + 1] == v;
    }
  }

  /** A variable stays as it is unless one of its name is put again with another value. */
  lemma {:induction false} PutAllHolds(env: seq<Variable>, more: seq<Variable>, v: Variable)
    requires Holds(env, v) || exists i | 0 <= i < |more| :: more[i] == v
    requires forall i | 0 <= i < |more| :: more[i] == v || more[i].name != v.name
    ensures Holds(PutAll(env, more), v)
    decreases |more|
  {
    hide Put;
    if more != [] {
      var before, last := more[..|more| - 1], more[|more| - 1];
      if last != v {
        if !Holds(env, v) {
          var i :| 0 <= i < |more| && more[i] == v;
          assert before[i] == v;
        }
        PutAllHolds(env, before, v);
      }
      PutHolds(PutAll(env, before), v, last);
    }
  }

  /** A variable longer than the packet does not fit. */
  lemma TooBig(others: seq<byte>, env: seq<Variable>, v: Variable)
    requires Holds(env, v) && |v.value| > MAX_INIT_PACKET_LEN
    ensures !Fits(others, env)
  {
    hide Varint;
    var i :| 0 <= i < |env| && env[i] == v;
    assert env == env[..i] + [v] + env[i + 1..];
    EntriesAppend(env[..i] + [v], env[i + 1..]);
    EntriesAppend(env[..i], [v]);
    assert Entries([v]) == LenField(3, Entry(v)) + Entries([]);
  }

  /** Bytes of the entries that are not called `x`. */
  ghost function Rest(env: seq<Variable>, x: text): nat
  {
    if env == [] then 0
    else (if env[0].name == x then 0 else |LenField(3, Entry(env[0]))|) + Rest(env[1..], x)
  }

  lemma {:induction false} RestOfPut(env: seq<Variable>, v: Variable, x: text)
    ensures Rest(Put(env, v), x) <= Rest(env, x) + if v.name == x then 0 else |LenField(3, Entry(v))|
  {
    hide Entry, LenField;
    var r := Put(env, v);
    if env == [] {
      assert r == [v] && Rest(r, x) == (if v.name == x then 0 else |LenField(3, Entry(v))|) + Rest([], x);
    } else if env[0].name == v.name {
      assert r[1..] == env[1..];
    } else {
      RestOfPut(env[1..], v, x);
      assert r[1..] == Put(env[1..], v);
    }
  }

  lemma {:induction false} RestOfPutAll(env: seq<Variable>, more: seq<Variable>, x: text)
    ensures Rest(PutAll(env, more), x) <= Rest(env, x) + Rest(more, x)
    decreases |more|
  {
    hide Entry, LenField, Put;
    if more != [] {
      var before, last := more[..|more| - 1], more[|more| - 1];
      RestOfPutAll(env, before, x);
      RestOfPut(PutAll(env, before), last, x);
      RestSnoc(before, last, x);
      assert more == before + [last];
    }
  }

  lemma {:induction false} RestSnoc(env: seq<Variable>, v: Variable, x: text)
    ensures Rest(env + [v], x) == Rest(env, x) + if v.name == x then 0 else |LenField(3, Entry(v))|
  {
    hide Entry, LenField;
    if env == [] {
      assert env + [v] == [v] && Rest([v], x) == (if v.name == x then 0 else |LenField(3, Entry(v))|) + Rest([], x);
    } else {
      assert (env + [v])[1..] == env[1..] + [v];
      RestSnoc(env[1..], v, x);
    }
  }

  lemma {:induction false} RestOfRemove(env: seq<Variable>, name: text, x: text)
    ensures Rest(Remove(env, name), x) <= Rest(env, x)
    ensures Absent(env, x) || name == x ==> Absent(Remove(env, name), x)
  {
    hide Entry, LenField;
    if env != [] {
      RestOfRemove(env[1..], name, x);
      var r := Remove(env, name);
      assert env[0].name != name ==> r[1..] == Remove(env[1..], name);
      assert env[0].name == name ==> r == Remove(env[1..], name);
      assert Absent(env, x) ==> Absent(env[1..], x) && env[0].name != x;
    }
  }

  lemma {:induction false} RestIsAll(env: seq<Variable>, x: text)
    requires Absent(env, x)
    ensures |Entries(env)| == Rest(env, x)
  {
    hide Entry, LenField;
    if env != [] {
      RestIsAll(env[1..], x);
    }
  }

  /** From the place of `x` on, the code's model of the packet has no `x`. */
  lemma {:induction false} ModeledLoses(env: seq<Variable>, locale: seq<Variable>, at: nat, k: nat)
    requires k <= at < |locale|
    ensures Absent(Modeled(env, locale, k), locale[at].name)
    ensures Rest(Modeled(env, locale, k), locale[at].name) <= Rest(PutAll(env, locale), locale[at].name)
    decreases |locale| - k
  {
    hide PutAll, Remove, Rest, Absent;
    var x := locale[at].name;
    ModeledRest(env, locale, k + 1, x);
    RestOfRemove(Modeled(env, locale, k + 1), locale[k].name, x);
    if k < at {
      ModeledLoses(env, locale, at, k + 1);
    }
  }

  lemma {:induction false} ModeledRest(env: seq<Variable>, locale: seq<Variable>, k: nat, x: text)
    requires k <= |locale|
    ensures Rest(Modeled(env, locale, k), x) <= Rest(PutAll(env, locale), x)
    decreases |locale| - k
  {
    hide PutAll, Remove, Rest;
    if k < |locale| {
      ModeledRest(env, locale, k + 1, x);
      RestOfRemove(Modeled(env, locale, k + 1), locale[k].name, x);
    }
  }

  /** Variables of these names: `value` for the ones called `x`, nothing for the others. */
  ghost function Filled(names: seq<text>, x: text, value: text): (env: seq<Variable>)
    ensures Named(env, names)
  {
    seq(|names|, i requires 0 <= i < |names| => Variable(names[i], if names[i] == x then value else []))
  }

  ghost function Blank(names: seq<text>): seq<Variable>
  {
    seq(|names|, i requires 0 <= i < |names| => Variable(names[i], []))
  }

  lemma {:induction false} RestOfFilled(names: seq<text>, x: text, value: text)
    ensures Rest(Filled(names, x, value), x) <= |Entries(Blank(names))|
  {
    hide Entry, LenField;
    if names != [] {
      RestOfFilled(names[1..], x, value);
      assert Filled(names, x, value)[1..] == Filled(names[1..], x, value);
      assert Blank(names)[1..] == Blank(names[1..]);
    }
  }

  lemma {:induction false} RestOfPrefix(env: seq<Variable>, k: nat, x: text)
    requires k <= |env|
    ensures Rest(env[..k], x) <= Rest(env, x)
    decreases |env| - k
  {
    hide Rest;
    if k == |env| {
      assert env[..k] == env;
    } else {
      RestSnoc(env[..k], env[k], x);
      assert env[..k + 1] == env[..k] + [env[k]];
      RestOfPrefix(env, k + 1, x);
    }
  }

  lemma {:induction false} PutAllAbsent(env: seq<Variable>, more: seq<Variable>, x: text)
    requires Absent(env, x) && Absent(more, x)
    ensures Absent(PutAll(env, more), x)
    decreases |more|
  {
    hide Put;
    if more != [] {
      var before, last := more[..|more| - 1], more[|more| - 1];
      PutAllAbsent(env, before, x);
      PutAbsent(PutAll(env, before), last, x);
    }
  }

  lemma {:induction false} PutAbsent(env: seq<Variable>, v: Variable, x: text)
    requires Absent(env, x) && v.name != x
    ensures Absent(Put(env, v), x)
  {
    if env != [] && env[0].name != v.name {
      PutAbsent(env[1..], v, x);
      assert Put(env, v)[1..] == Put(env[1..], v);
    }
  }

  /** Without `x` only blank variables are left, and those fit. */
  lemma BlanksFit(
      others: seq<byte>, used: seq<text>, names: seq<text>, x: text, value: text, env: seq<Variable>)
    requires Fits(others, Blank(used) + Blank(names)) && Absent(env, x)
    requires Rest(env, x) <= Rest(Filled(used, x, value), x) + Rest(Filled(names, x, value), x)
    ensures Fits(others, env)
  {
    hide Entries, Rest, Filled, Blank, Absent;
    RestIsAll(env, x);
    RestOfFilled(used, x, value);
    RestOfFilled(names, x, value);
    EntriesAppend(Blank(used), Blank(names));
  }

  lemma {:induction false} SomethingKept(others: seq<byte>, env: seq<Variable>, locale: seq<Variable>, from: nat) returns (k: nat)
    requires from <= |locale| && Fits(others, Modeled(env, locale, from))
    ensures from <= k <= |locale| && CodeKeeps(others, env, locale, k)
    decreases |locale| - from
  {
    hide Fits, Modeled;
    if j :| from < j <= |locale| && Fits(others, Modeled(env, locale, j)) {
      k := SomethingKept(others, env, locale, j);
    } else {
      k := from;
    }
  }

  /** A name the payload uses: with a value that cannot fit, the trim reports success all the same. */
  lemma UsedNameBreaks(others: seq<byte>, used: seq<text>, names: seq<text>, i: nat, j: nat, value: text)
    requires Fits(others, Blank(used) + Blank(names)) && |value| > MAX_INIT_PACKET_LEN
    requires i < |used| && j < |names| && used[i] == names[j]
    ensures !TrimIsRight(others, Filled(used, names[j], value), Filled(names, names[j], value))
  {
    hide Fits, Modeled, PutAll, Rest, Absent;
    var x := names[j];
    var env, locale, v := Filled(used, x, value), Filled(names, x, value), Variable(x, value);
    assert env[i] == v && Holds(env, v);
    ModeledLoses(env, locale, j, j);
    RestOfPutAll(env, locale, x);
    BlanksFit(others, used, names, x, value, Modeled(env, locale, j));
    var k := SomethingKept(others, env, locale, j);
    PutAllHolds(env, locale[..k], v);
    TooBig(others, PutAll(env, locale[..k]), v);
  }

  /** A name given twice: the trim keeps a prefix that cannot fit. */
  lemma RepeatedNameBreaks(others: seq<byte>, used: seq<text>, names: seq<text>, i: nat, j: nat, value: text)
    requires Fits(others, Blank(used) + Blank(names)) && |value| > MAX_INIT_PACKET_LEN
    requires i < j < |names| && names[i] == names[j] && names[j] !in used && names[j] !in names[..i]
    ensures !TrimIsRight(others, Filled(used, names[j], value), Filled(names, names[j], value))
  {
    hide Fits, Modeled, PutAll, Rest;
    var x := names[j];
    var env, locale, v := Filled(used, x, value), Filled(names, x, value), Variable(x, value);
    assert locale[i] == v;
    forall k | i < k <= |locale| ensures !Fits(others, PutAll(env, locale[..k])) {
      assert locale[..k][i] == v;
      PutAllHolds(env, locale[..k], v);
      TooBig(others, PutAll(env, locale[..k]), v);
    }
    assert Absent(env, x);
    forall k | 0 <= k < i ensures locale[..i][k].name != x {
      assert names[..i][k] in names[..i];
    }
    PutAllAbsent(env, locale[..i], x);
    RestOfPutAll(env, locale[..i], x);
    RestOfPrefix(locale, i, x);
    BlanksFit(others, used, names, x, value, PutAll(env, locale[..i]));
    assert Longest(others, env, locale, i);
    ModeledLoses(env, locale, j, j);
    RestOfPutAll(env, locale, x);
    BlanksFit(others, used, names, x, value, Modeled(env, locale, j));
    assert !CodeKeeps(others, env, locale, i);
  }

  /**
    As long as the names themselves fit, the trim is right for all values if
    and only if the names are distinct and none is used by the payload.
   */
  lemma TrimRightExactlyForFreshNames(others: seq<byte>, used: seq<text>, names: seq<text>)
    requires Fits(others, Blank(used) + Blank(names))
    ensures FreshNames(used, names)
       <==> forall env, locale | Named(env, used) && Named(locale, names) :: TrimIsRight(others, env, locale)
  {
    hide Fits, TrimIsRight, Blank;
    var value: text := seq(MAX_INIT_PACKET_LEN + 1, _ => 0);
    if FreshNames(used, names) {
      forall env, locale | Named(env, used) && Named(locale, names) ensures TrimIsRight(others, env, locale) {
        FreshNamesSuffice(others, env, locale);
      }
    } else if i, j :| 0 <= i < |used| && 0 <= j < |names| && used[i] == names[j] {
      UsedNameBreaks(others, used, names, i, j, value);
    } else {
      var i, j :| 0 <= i < j < |names| && names[i] == names[j];
      var first := FirstOf(names, names[j], i);
      RepeatedNameBreaks(others, used, names, first, j, value);
    }
  }

  lemma {:induction false} FirstOf(names: seq<text>, x: text, i: nat) returns (first: nat)
    requires i < |names| && names[i] == x
    ensures first <= i && names[first] == x && x !in names[..first]
  {
    if k :| 0 <= k < i && names[k] == x {
      first := FirstOf(names, x, k);
    } else {
      first := i;
    }
  }
}
