/** SendEnv pattern matching (`client_environment.rs`). */
module EnvironmentGlob {
  import opened Bytes

  // ---------------------------------------------------------------------
  // Reference semantics: `*` stands for any run of bytes, `?` for one byte.

  predicate Matches(pattern: seq<byte>, name: seq<byte>)
    decreases |pattern| + |name|
  {
    if pattern == [] then
      name == []
    else if pattern[0] == STAR then
      Matches(pattern[1..], name) || (name != [] && Matches(pattern, name[1..]))
    else
      name != [] && (pattern[0] == QUESTION || pattern[0] == name[0]) && Matches(pattern[1..], name[1..])
  }

  /** The matcher's resumable position: where it is, and where the last star lets it resume. */
  datatype Cursor = Cursor(p: nat, n: nat, star: Option<nat>, retry: nat)

  predicate ValidCursor(pattern: seq<byte>, name: seq<byte>, c: Cursor)
  {
    && c.p <= |pattern|
    && c.retry <= c.n <= |name|
    && (c.star.Some? ==> c.star.value < c.p)
  }

  /** One turn of the scanning loop; `None` when it gives up. */
  function Advance(pattern: seq<byte>, name: seq<byte>, c: Cursor): Option<Cursor>
    requires ValidCursor(pattern, name, c) && c.n < |name|
  {
    if c.p < |pattern| && (pattern[c.p] == QUESTION || pattern[c.p] == name[c.n]) then
      Some(c.(p := c.p + 1, n := c.n + 1))
    else if c.p < |pattern| && pattern[c.p] == STAR then
      Some(Cursor(c.p + 1, c.n, Some(c.p), c.n))
    else if c.star.Some? then
      Some(Cursor(c.star.value + 1, c.retry + 1, c.star, c.retry + 1))
    else
      None
  }

  predicate AllStars(pattern: seq<byte>)
  {
    forall i | 0 <= i < |pattern| :: pattern[i] == STAR
  }

  lemma NoMoreStars(pattern: seq<byte>, p: nat)
    requires p <= |pattern| && (p < |pattern| ==> pattern[p] != STAR)
    ensures AllStars(pattern[p..]) <==> p == |pattern|
  {
    if p < |pattern| {
      assert pattern[p..][0] == pattern[p];
    }
  }

  lemma AllStarsCons(pattern: seq<byte>)
    requires pattern != []
    ensures AllStars(pattern) <==> pattern[0] == STAR && AllStars(pattern[1..])
  {
    assert pattern == [pattern[0]] + pattern[1..];
  }

  /** How much of the pattern lies behind the last recorded star: recording another star lowers it. */
  function StarRank(pattern: seq<byte>, c: Cursor): nat
    requires c.star.Some? ==> c.star.value < |pattern|
  {
    if c.star.Some? then |pattern| - c.star.value - 1 else |pattern|
  }

  /** What the scanning loop answers from cursor `c`, on every pattern and every name. */
  predicate Scan(pattern: seq<byte>, name: seq<byte>, c: Cursor)
    requires ValidCursor(pattern, name, c)
    decreases StarRank(pattern, c), |name| - c.retry, |name| - c.n
  {
    if c.n == |name| then
      AllStars(pattern[c.p..])
    else
      match Advance(pattern, name, c)
      case None => false
      case Some(next) => Scan(pattern, name, next)
  }

  const START := Cursor(0, 0, None, 0)

  /** `environment_pattern_matches`. */
  method PatternMatches(pattern: seq<byte>, name: seq<byte>) returns (matched: bool)
    ensures matched == Scan(pattern, name, START)
    ensures STAR !in name ==> matched == Matches(pattern, name)
  {
    hide Matches, AllStars;
    var p: nat, n: nat, retry: nat := 0, 0, 0;
    var star: Option<nat> := None;
    while n < |name|
      invariant ValidCursor(pattern, name, Cursor(p, n, star, retry))
      invariant Scan(pattern, name, Cursor(p, n, star, retry)) == Scan(pattern, name, START)
      decreases StarRank(pattern, Cursor(p, n, star, retry)), |name| - retry, |name| - n
    {
      if p < |pattern| && (pattern[p] == QUESTION || pattern[p] == name[n]) {
        p := p + 1;
        n := n + 1;
      } else if p < |pattern| && pattern[p] == STAR {
        star := Some(p);
        p := p + 1;
        retry := n;
      } else if star.Some? {
        p := star.value + 1;
        retry := retry + 1;
        n := retry;
      } else {
        if STAR !in name { ScanDecidesMatches(pattern, name); }
        return false;
      }
    }
    ghost var rest := pattern[p..];
    while p < |pattern| && pattern[p] == STAR
      invariant p <= |pattern|
      invariant AllStars(rest) == AllStars(pattern[p..])
    {
      AllStarsCons(pattern[p..]);
      assert pattern[p..][1..] == pattern[p + 1..];
      p := p + 1;
    }
    matched := p == |pattern|;
    NoMoreStars(pattern, p);
    if STAR !in name { ScanDecidesMatches(pattern, name); }
  }

  // ---------------------------------------------------------------------
  // Backtracking to the last star alone loses nothing, on names free of `*`.

  /** Some later alignment of what follows the last star still matches. */
  ghost predicate LaterRetryMatches(pattern: seq<byte>, name: seq<byte>, c: Cursor)
    requires ValidCursor(pattern, name, c)
  {
    c.star.Some? && exists k | c.retry < k <= |name| :: Matches(pattern[c.star.value + 1..], name[k..])
  }

  /** Since the last star every pattern byte consumed exactly one name byte. */
  ghost predicate Aligned(pattern: seq<byte>, name: seq<byte>, c: Cursor)
    requires ValidCursor(pattern, name, c)
  {
    c.star.Some? ==>
      && c.n - c.retry == c.p - c.star.value - 1
      && forall i | c.star.value < i < c.p :: pattern[i] != STAR
  }

  /** A star absorbs any prefix of the name. */
  lemma {:induction false} StarAbsorbs(pattern: seq<byte>, name: seq<byte>, k: nat)
    requires pattern != [] && pattern[0] == STAR && k <= |name|
    requires Matches(pattern, name[k..])
    ensures Matches(pattern, name)
    decreases k
  {
    if k == 0 {
      assert name[0..] == name;
    } else {
      assert name[k..] == name[1..][k - 1..];
      StarAbsorbs(pattern, name[1..], k - 1);
    }
  }

  /** A star followed by `rest` matches exactly when `rest` matches some suffix. */
  lemma {:induction false} StarChooses(pattern: seq<byte>, name: seq<byte>)
    requires pattern != [] && pattern[0] == STAR
    ensures Matches(pattern, name) <==> exists k | 0 <= k <= |name| :: Matches(pattern[1..], name[k..])
    decreases |name|
  {
    assert name[0..] == name;
    if name != [] {
      StarChooses(pattern, name[1..]);
      forall k | 1 <= k <= |name| ensures name[k..] == name[1..][k - 1..] {}
      if Matches(pattern, name[1..]) {
        var k :| 0 <= k <= |name[1..]| && Matches(pattern[1..], name[1..][k..]);
        assert name[1..][k..] == name[k + 1..];
      }
      if exists k | 0 <= k <= |name| :: Matches(pattern[1..], name[k..]) {
        var k :| 0 <= k <= |name| && Matches(pattern[1..], name[k..]);
        if k > 0 {
          assert Matches(pattern[1..], name[1..][k - 1..]);
        }
      }
    }
  }

  /** A star-free stretch of the pattern consumes exactly as many name bytes. */
  lemma {:induction false} StarFreeConsumes(pattern: seq<byte>, count: nat, name: seq<byte>)
    requires count <= |pattern|
    requires forall i | 0 <= i < count :: pattern[i] != STAR
    requires Matches(pattern, name)
    ensures count <= |name| && Matches(pattern[count..], name[count..])
    decreases count
  {
    if count == 0 {
      assert pattern[0..] == pattern && name[0..] == name;
    } else {
      StarFreeConsumes(pattern[1..], count - 1, name[1..]);
      assert pattern[1..][count - 1..] == pattern[count..];
      assert name[1..][count - 1..] == name[count..];
    }
  }

  lemma {:induction false} AllStarsMatchEmpty(pattern: seq<byte>)
    ensures Matches(pattern, []) == AllStars(pattern)
  {
    if pattern != [] {
      AllStarsMatchEmpty(pattern[1..]);
      AllStarsCons(pattern);
    }
  }

  /** A later retry would have to start the unread rest of the pattern strictly after `c.n`. */
  lemma LaterRetryStartsLater(pattern: seq<byte>, name: seq<byte>, c: Cursor) returns (j: nat)
    requires ValidCursor(pattern, name, c) && Aligned(pattern, name, c)
    requires LaterRetryMatches(pattern, name, c)
    ensures c.n < j <= |name| && Matches(pattern[c.p..], name[j..])
  {
    var k :| c.retry < k <= |name| && Matches(pattern[c.star.value + 1..], name[k..]);
    var count := c.p - c.star.value - 1;
    StarFreeConsumes(pattern[c.star.value + 1..], count, name[k..]);
    j := k + count;
    assert pattern[c.star.value + 1..][count..] == pattern[c.p..];
    assert name[k..][count..] == name[j..];
  }

  /** The scan from any aligned cursor answers whether this or a later retry matches. */
  lemma {:induction false} ScanDecides(pattern: seq<byte>, name: seq<byte>, c: Cursor)
    requires STAR !in name
    requires ValidCursor(pattern, name, c) && Aligned(pattern, name, c)
    ensures Scan(pattern, name, c)
       <==> Matches(pattern[c.p..], name[c.n..]) || LaterRetryMatches(pattern, name, c)
    decreases StarRank(pattern, c), |name| - c.retry, |name| - c.n
  {
    hide Matches, LaterRetryMatches, AllStars, Aligned;
    if c.n == |name| {
      ScanAtEnd(pattern, name, c);
    } else if c.p < |pattern| && (pattern[c.p] == QUESTION || pattern[c.p] == name[c.n]) {
      ScanAtLiteral(pattern, name, c);
      ScanDecides(pattern, name, c.(p := c.p + 1, n := c.n + 1));
    } else if c.p < |pattern| && pattern[c.p] == STAR {
      ScanAtStar(pattern, name, c);
      ScanDecides(pattern, name, Cursor(c.p + 1, c.n, Some(c.p), c.n));
    } else {
      ScanAtMismatch(pattern, name, c);
      if c.star.Some? {
        ScanAtRetry(pattern, name, c);
        ScanDecides(pattern, name, Cursor(c.star.value + 1, c.retry + 1, c.star, c.retry + 1));
      }
    }
  }

  /** With the name used up only stars may remain, and no later retry can do better. */
  lemma ScanAtEnd(pattern: seq<byte>, name: seq<byte>, c: Cursor)
    requires ValidCursor(pattern, name, c) && Aligned(pattern, name, c) && c.n == |name|
    ensures AllStars(pattern[c.p..]) <==> Matches(pattern[c.p..], name[c.n..]) || LaterRetryMatches(pattern, name, c)
  {
    hide Matches, AllStars;
    assert name[c.n..] == [];
    AllStarsMatchEmpty(pattern[c.p..]);
    if LaterRetryMatches(pattern, name, c) {
      var j := LaterRetryStartsLater(pattern, name, c);
      assert false;
    }
  }

  /** A byte that matches moves both sides; the retries stay what they are. */
  lemma ScanAtLiteral(pattern: seq<byte>, name: seq<byte>, c: Cursor)
    requires STAR !in name && ValidCursor(pattern, name, c) && Aligned(pattern, name, c)
    requires c.n < |name| && c.p < |pattern| && (pattern[c.p] == QUESTION || pattern[c.p] == name[c.n])
    ensures var next := c.(p := c.p + 1, n := c.n + 1);
      && Aligned(pattern, name, next)
      && (Matches(pattern[c.p..], name[c.n..]) <==> Matches(pattern[next.p..], name[next.n..]))
      && (LaterRetryMatches(pattern, name, c) <==> LaterRetryMatches(pattern, name, next))
  {
    assert name[c.n] in name;
    assert pattern[c.p..][1..] == pattern[c.p + 1..] && name[c.n..][1..] == name[c.n + 1..];
  }

  /** A byte that does not match, where the pattern has no star: only a later retry can. */
  lemma ScanAtMismatch(pattern: seq<byte>, name: seq<byte>, c: Cursor)
    requires ValidCursor(pattern, name, c) && c.n < |name|
    requires c.p < |pattern| ==> pattern[c.p] != QUESTION && pattern[c.p] != name[c.n] && pattern[c.p] != STAR
    ensures !Matches(pattern[c.p..], name[c.n..])
    ensures c.star.None? ==> !LaterRetryMatches(pattern, name, c)
  {
  }

  /** Recording a new star subsumes every alignment of the old one. */
  lemma ScanAtStar(pattern: seq<byte>, name: seq<byte>, c: Cursor)
    requires ValidCursor(pattern, name, c) && Aligned(pattern, name, c)
    requires c.n < |name| && c.p < |pattern| && pattern[c.p] == STAR
    ensures var next := Cursor(c.p + 1, c.n, Some(c.p), c.n);
      (Matches(pattern[c.p..], name[c.n..]) || LaterRetryMatches(pattern, name, c))
      <==> (Matches(pattern[next.p..], name[next.n..]) || LaterRetryMatches(pattern, name, next))
    ensures Aligned(pattern, name, Cursor(c.p + 1, c.n, Some(c.p), c.n))
  {
    var next := Cursor(c.p + 1, c.n, Some(c.p), c.n);
    if LaterRetryMatches(pattern, name, c) {
      var j := LaterRetryStartsLater(pattern, name, c);
      assert name[j..] == name[c.n..][j - c.n..];
      StarAbsorbs(pattern[c.p..], name[c.n..], j - c.n);
    }
    StarChooses(pattern[c.p..], name[c.n..]);
    assert pattern[c.p..][1..] == pattern[next.p..];
    forall k | 0 <= k <= |name[c.n..]| ensures name[c.n..][k..] == name[c.n + k..] {}
    if Matches(pattern[c.p..], name[c.n..]) {
      var k :| 0 <= k <= |name[c.n..]| && Matches(pattern[next.p..], name[c.n..][k..]);
      assert Matches(pattern[next.p..], name[c.n + k..]);
    }
    if Matches(pattern[next.p..], name[next.n..]) {
      assert Matches(pattern[c.p..][1..], name[c.n..][0..]);
    }
    if LaterRetryMatches(pattern, name, next) {
      var k :| c.n < k <= |name| && Matches(pattern[next.p..], name[k..]);
      assert name[c.n..][k - c.n..] == name[k..];
    }
  }

  /** Resuming one byte later splits the remaining retries into the first and the rest. */
  lemma ScanAtRetry(pattern: seq<byte>, name: seq<byte>, c: Cursor)
    requires ValidCursor(pattern, name, c) && c.star.Some? && c.n < |name|
    ensures var next := Cursor(c.star.value + 1, c.retry + 1, c.star, c.retry + 1);
      && Aligned(pattern, name, next)
      && (LaterRetryMatches(pattern, name, c)
          <==> (Matches(pattern[next.p..], name[next.n..]) || LaterRetryMatches(pattern, name, next)))
  {
  }

  /** On a name free of `*` the loop computes the reference semantics, for every pattern. */
  lemma ScanDecidesMatches(pattern: seq<byte>, name: seq<byte>)
    requires STAR !in name
    ensures Scan(pattern, name, START) == Matches(pattern, name)
  {
    hide Matches, Scan;
    ScanDecides(pattern, name, START);
    assert pattern[0..] == pattern && name[0..] == name;
  }

  // ---------------------------------------------------------------------
  // Freedom from `*` is exactly the condition.

  function Questions(count: nat): seq<byte>
  {
    seq(count, _ => QUESTION)
  }

  lemma {:induction false} QuestionsMatch(name: seq<byte>)
    ensures Matches(Questions(|name|), name)
  {
    if name != [] {
      assert Questions(|name|)[1..] == Questions(|name[1..]|);
      QuestionsMatch(name[1..]);
    }
  }

  /** The pattern that tells a name holding `*` at `i` apart: `?`*i, `*`, then one `?` per remaining byte. */
  function Separator(name: seq<byte>, i: nat): seq<byte>
    requires i <= |name|
  {
    Questions(i) + [STAR] + Questions(|name| - i)
  }

  lemma {:induction false} SeparatorMatches(name: seq<byte>, i: nat)
    requires i <= |name|
    ensures Matches(Separator(name, i), name)
    decreases i
  {
    var pattern := Separator(name, i);
    if i == 0 {
      assert pattern[1..] == Questions(|name|);
      QuestionsMatch(name);
    } else {
      assert pattern[1..] == Separator(name[1..], i - 1);
      SeparatorMatches(name[1..], i - 1);
    }
  }

  /** Without a recorded star, the separator walks in step with the name and keeps one `?` too many. */
  lemma {:induction false} SeparatorScanFails(name: seq<byte>, i: nat, n: nat)
    requires i < |name| && name[i] == STAR && n <= |name|
    ensures !Scan(Separator(name, i), name, Cursor(n, n, None, 0))
    decreases |name| - n
  {
    var pattern := Separator(name, i);
    if n == |name| {
      assert pattern[n..][0] == QUESTION;
    } else {
      assert pattern[n] == QUESTION || (n == i && pattern[n] == name[n]);
      SeparatorScanFails(name, i, n + 1);
    }
  }

  /** The matcher is right for every pattern exactly on names without `*`. */
  lemma MatcherCorrectExactlyOnStarFreeNames(name: seq<byte>)
    ensures STAR !in name <==> forall pattern: seq<byte> :: Scan(pattern, name, START) == Matches(pattern, name)
  {
    if STAR !in name {
      forall pattern: seq<byte> ensures Scan(pattern, name, START) == Matches(pattern, name) {
        ScanDecidesMatches(pattern, name);
      }
    } else {
      var i :| 0 <= i < |name| && name[i] == STAR;
      SeparatorMatches(name, i);
      SeparatorScanFails(name, i, 0);
      var pattern := Separator(name, i);
      assert Scan(pattern, name, START) != Matches(pattern, name);
    }
  }

  // ---------------------------------------------------------------------
  // The only caller establishes that condition.

  const MAX_ENV_VALUE := 4096

  datatype Variable = Variable(name: seq<byte>, value: seq<byte>)

  predicate IsLetter(b: byte)
  {
    65 <= b <= 90 || 97 <= b <= 122
  }

  predicate IsDigit(b: byte)
  {
    48 <= b <= 57
  }

  /** `portable_environment_name`. */
  predicate PortableName(name: seq<byte>)
  {
    && name != []
    && (IsLetter(name[0]) || name[0] == 95)
    && forall i | 1 <= i < |name| :: IsLetter(name[i]) || IsDigit(name[i]) || name[i] == 95
  }

  /** A portable name, read as text: letters, digits and underscores, no digit first. */
  lemma PortableNameReads(name: seq<byte>)
    ensures PortableName(name) <==>
      && name != [] && !('0' <= name[0] as char <= '9')
      && forall i | 0 <= i < |name| ::
           var c := name[i] as char; 'A' <= c <= 'Z' || 'a' <= c <= 'z' || '0' <= c <= '9' || c == '_'
  {
  }

  /** A variable SendEnv forwards: portable, bounded, and matched by a pattern's meaning. */
  ghost predicate Eligible(patterns: seq<seq<byte>>, v: Variable)
  {
    && PortableName(v.name)
    && |v.value| <= MAX_ENV_VALUE
    && 0 !in v.value
    && exists i | 0 <= i < |patterns| :: Matches(patterns[i], v.name)
  }

  /** The eligible variables, in their original order. */
  ghost function EligibleOf(patterns: seq<seq<byte>>, environment: seq<Variable>): seq<Variable>
  {
    if environment == [] then []
    else
      var rest := EligibleOf(patterns, environment[..|environment| - 1]);
      var last := environment[|environment| - 1];
      if Eligible(patterns, last) then rest + [last] else rest
  }

  method AnyPatternMatches(patterns: seq<seq<byte>>, name: seq<byte>) returns (any: bool)
    requires PortableName(name)
    ensures any <==> exists i | 0 <= i < |patterns| :: Matches(patterns[i], name)
  {
    any := false;
    for i := 0 to |patterns|
      invariant !any
      invariant forall j | 0 <= j < i :: !Matches(patterns[j], name)
    {
      var matched := PatternMatches(patterns[i], name);
      if matched {
        return true;
      }
    }
  }

  // ---------------------------------------------------------------------
  // The order in which variables compete for room.

  const LC_ALL: seq<byte> := Ascii("LC_ALL")
  const LC_CTYPE: seq<byte> := Ascii("LC_CTYPE")
  const LANG: seq<byte> := Ascii("LANG")

  /** `locale_priority`: what decides the effective locale goes first. */
  function LocalePriority(name: seq<byte>): nat
  {
    if name == LC_ALL then 0 else if name == LC_CTYPE then 1 else if name == LANG then 2 else 3
  }

  /** Names in byte order. */
  predicate NameAtMost(a: seq<byte>, b: seq<byte>)
  {
    a == [] || (b != [] && (a[0] < b[0] || (a[0] == b[0] && NameAtMost(a[1..], b[1..]))))
  }

  predicate AtMost(a: Variable, b: Variable)
  {
    var i, j := LocalePriority(a.name), LocalePriority(b.name);
    i < j || (i == j && NameAtMost(a.name, b.name))
  }

  /** The variable that decides the locale is ahead of all others. */
  lemma EffectiveLocaleFirst(value: seq<byte>, v: Variable)
    ensures AtMost(Variable(LC_ALL, value), v) && (AtMost(v, Variable(LC_ALL, value)) ==> v.name == LC_ALL)
    ensures v.name != LC_ALL ==> AtMost(Variable(LC_CTYPE, value), v) && (AtMost(v, Variable(LC_CTYPE, value)) ==> v.name == LC_CTYPE)
    ensures v.name != LC_ALL && v.name != LC_CTYPE ==>
      AtMost(Variable(LANG, value), v) && (AtMost(v, Variable(LANG, value)) ==> v.name == LANG)
  {
    hide NameAtMost;
    NameOrderIsTotal(LC_ALL, LC_ALL);
    NameOrderIsTotal(LC_CTYPE, LC_CTYPE);
    NameOrderIsTotal(LANG, LANG);
    assert LC_ALL[3] != LC_CTYPE[3] && LC_ALL[0] == LANG[0] && LC_ALL[1] != LANG[1] && LC_CTYPE[1] != LANG[1];
  }

  lemma {:induction false} NameOrderIsTotal(a: seq<byte>, b: seq<byte>)
    ensures NameAtMost(a, b) || NameAtMost(b, a)
  {
    if a != [] && b != [] {
      NameOrderIsTotal(a[1..], b[1..]);
    }
  }

  /** The other variables compete by name, the first difference deciding, a shorter name first. */
  lemma OthersByName(a: Variable, b: Variable, i: nat)
    requires LocalePriority(a.name) == 3 && LocalePriority(b.name) == 3
    requires i < |b.name| && i <= |a.name| && a.name[..i] == b.name[..i] && (i < |a.name| ==> a.name[i] < b.name[i])
    ensures AtMost(a, b) && !AtMost(b, a)
  {
    FirstDifference(a.name, b.name, i);
  }

  lemma {:induction false} FirstDifference(a: seq<byte>, b: seq<byte>, i: nat)
    requires i < |b| && i <= |a| && a[..i] == b[..i] && (i < |a| ==> a[i] < b[i])
    ensures NameAtMost(a, b) && !NameAtMost(b, a)
    decreases i
  {
    if i > 0 {
      assert a[0] == a[..i][0] == b[..i][0] == b[0];
      assert a[1..][..i - 1] == a[..i][1..] == b[..i][1..] == b[1..][..i - 1];
      FirstDifference(a[1..], b[1..], i - 1);
    }
  }

  lemma {:induction false} NameOrderIsTransitive(a: seq<byte>, b: seq<byte>, c: seq<byte>)
    requires NameAtMost(a, b) && NameAtMost(b, c)
    ensures NameAtMost(a, c)
  {
    if a != [] && a[0] == b[0] == c[0] {
      NameOrderIsTransitive(a[1..], b[1..], c[1..]);
    }
  }

  ghost predicate Ordered(s: seq<Variable>)
  {
    forall i, j | 0 <= i < j < |s| :: AtMost(s[i], s[j])
  }

  /** Put `v` behind everything that is at most `v`: equal variables keep their order. */
  function Insert(s: seq<Variable>, v: Variable): seq<Variable>
  {
    if s == [] || AtMost(s[|s| - 1], v) then s + [v]
    else Insert(s[..|s| - 1], v) + [s[|s| - 1]]
  }

  /** The stable sort by priority, then name. */
  function Sorted(s: seq<Variable>): seq<Variable>
  {
    if s == [] then [] else Insert(Sorted(s[..|s| - 1]), s[|s| - 1])
  }

  lemma {:induction false} InsertKeepsOrder(s: seq<Variable>, v: Variable)
    requires Ordered(s)
    ensures Ordered(Insert(s, v)) && multiset(Insert(s, v)) == multiset(s) + multiset{v}
    decreases |s|
  {
    hide AtMost;
    if s == [] {
    } else {
      var before, last := s[..|s| - 1], s[|s| - 1];
      assert s == before + [last];
      if AtMost(last, v) {
        forall i | 0 <= i < |s| ensures AtMost(s[i], v) {
          OrderIsTransitive(s[i], last, v);
        }
      } else {
        InsertKeepsOrder(before, v);
        OrderIsTotal(last, v);
        var inserted := Insert(before, v);
        forall i | 0 <= i < |inserted| ensures AtMost(inserted[i], last) {
          assert inserted[i] in multiset(inserted);
          if inserted[i] != v {
            assert inserted[i] in multiset(before);
            var k :| 0 <= k < |before| && before[k] == inserted[i];
            assert AtMost(s[k], s[|s| - 1]);
          }
        }
      }
    }
  }

  lemma OrderIsTotal(a: Variable, b: Variable)
    ensures AtMost(a, b) || AtMost(b, a)
  {
    hide LocalePriority;
    NameOrderIsTotal(a.name, b.name);
  }

  lemma OrderIsTransitive(a: Variable, b: Variable, c: Variable)
    ensures AtMost(a, b) && AtMost(b, c) ==> AtMost(a, c)
    ensures AtMost(a, a)
  {
    hide LocalePriority;
    NameOrderIsTotal(a.name, a.name);
    if NameAtMost(a.name, b.name) && NameAtMost(b.name, c.name) {
      NameOrderIsTransitive(a.name, b.name, c.name);
    }
  }

  lemma {:induction false} SortedIsSorted(s: seq<Variable>)
    ensures Ordered(Sorted(s)) && multiset(Sorted(s)) == multiset(s)
  {
    hide AtMost, Insert;
    if s != [] {
      var before, last := s[..|s| - 1], s[|s| - 1];
      assert s == before + [last];
      SortedIsSorted(before);
      InsertKeepsOrder(Sorted(before), last);
    }
  }

  /**
    `select_send_environment`: exactly the eligible variables under the
    reference semantics, the effective locale first, then by name.
   */
  method SelectSendEnvironment(patterns: seq<seq<byte>>, environment: seq<Variable>) returns (selected: seq<Variable>)
    ensures selected == Sorted(EligibleOf(patterns, environment))
    ensures multiset(selected) == multiset(EligibleOf(patterns, environment)) && Ordered(selected)
  {
    hide Sorted, Matches;
    var eligible: seq<Variable> := [];
    for i := 0 to |environment|
      invariant eligible == EligibleOf(patterns, environment[..i])
    {
      var v := environment[i];
      assert environment[..i + 1][..i] == environment[..i];
      if PortableName(v.name) && |v.value| <= MAX_ENV_VALUE && 0 !in v.value {
        var any := AnyPatternMatches(patterns, v.name);
        if any {
          eligible := eligible + [v];
        }
      }
    }
    assert environment[..|environment|] == environment;
    SortedIsSorted(eligible);
    selected := Sorted(eligible);
  }
}
