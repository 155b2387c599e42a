/**
  The tmux-aware view of output already handed to the console, and the filter
  an interrupt applies to output that is not (`output_interrupt.rs`).
 */
module TerminalStreams {
  import opened Bytes

  const PERCENT: byte := 37
  const SPACE: byte := 32
  const BACKSLASH: byte := 92
  const TOKEN_LIMIT := 32

  const DCS: seq<byte> := [27, 80, 49, 48, 48, 48, 112] // ESC P 1 0 0 0 p

  predicate IsLower(b: byte)
  {
    97 <= b <= 122
  }

  /** `u8::is_ascii_whitespace`. */
  predicate IsSpace(b: byte)
  {
    b == 32 || b == 9 || b == 10 || b == 12 || b == 13
  }

  function StripDcs(token: seq<byte>): seq<byte>
  {
    if DCS <= token then token[|DCS|..] else token
  }

  /** The control-mode words that matter: all of them, and the ones with a role of their own. */
  datatype Vocabulary = Vocabulary(
    notifications: set<seq<byte>>, begin: seq<byte>, ends: set<seq<byte>>, goodbye: seq<byte>, panes: set<seq<byte>>)

  predicate NotificationLike(token: seq<byte>)
  {
    4 <= |token| <= 24 && token[0] == PERCENT && IsLower(token[1])
  }

  ghost predicate ValidVocabulary(v: Vocabulary)
  {
    && (forall token | token in v.notifications :: NotificationLike(token))
    && v.begin in v.notifications && v.ends <= v.notifications && v.panes <= v.notifications
    && v.goodbye != v.begin && v.goodbye !in v.ends
  }

  type Words = v: Vocabulary | ValidVocabulary(v)
    ghost witness Vocabulary({[37, 97, 97, 97]}, [37, 97, 97, 97], {}, [], {})

  lemma NameIsNotificationLike(text: string)
    requires 4 <= |text| <= 24 && text[0] == '%' && 'a' <= text[1] <= 'z'
    ensures NotificationLike(Ascii(text))
  {
  }

  /** `is_tmux_control_token`. */
  predicate IsControlToken(v: Words, token: seq<byte>)
  {
    StripDcs(token) in v.notifications
  }

  /** `arms_control_mode`: every notification but tmux's goodbye. */
  predicate Arms(v: Words, token: seq<byte>)
  {
    StripDcs(token) != v.goodbye && IsControlToken(v, StripDcs(token))
  }

  /** `token_may_be_control`. */
  predicate MayBeControl(token: seq<byte>)
  {
    && token != []
    && (token <= DCS ||
        var bare := StripDcs(token);
        bare == [PERCENT] || (|bare| >= 2 && bare[0] == PERCENT && IsLower(bare[1])))
  }

  // ---------------------------------------------------------------------
  // The recogniser, byte by byte.

  datatype Stream = Stream(
    token: seq<byte>, tokenDone: bool, midline: bool, control: bool, block: bool, escape: bool)

  const FRESH := Stream([], false, false, false, false, false)

  function AfterNewline(v: Words, s: Stream): Stream
  {
    var bare := StripDcs(s.token);
    Stream([], false, false,
           s.control || Arms(v, bare),
           if bare == v.begin then true
           else if bare in v.ends then false
           else s.block,
           false)
  }

  function AfterByte(v: Words, s: Stream, b: byte): Stream
  {
    var control := s.control || (IsSpace(b) && !s.tokenDone && Arms(v, s.token));
    var tokenDone := s.tokenDone || IsSpace(b);
    var marked := s.(tokenDone := tokenDone, midline := true, control := control, escape := b == ESC);
    if tokenDone || |s.token| >= TOKEN_LIMIT then marked
    else if s.token + [b] == DCS then marked.(control := true, token := [], midline := false)
    else marked.(token := s.token + [b])
  }

  function Step(v: Words, s: Stream, b: byte): Stream
  {
    if s.control && !s.block && s.escape && b == BACKSLASH then
      Stream([], false, false, false, s.block, false)
    else if b == NEWLINE then
      AfterNewline(v, s)
    else
      AfterByte(v, s, b)
  }

  function Run(v: Words, s: Stream, bytes: seq<byte>): Stream
    decreases |bytes|
  {
    if bytes == [] then s else Run(v, Step(v, s, bytes[0]), bytes[1..])
  }

  lemma {:induction false} RunAppend(v: Words, s: Stream, a: seq<byte>, b: seq<byte>)
    ensures Run(v, s, a + b) == Run(v, Run(v, s, a), b)
    decreases |a|
  {
    if a == [] {
      assert a + b == b;
    } else {
      assert (a + b)[1..] == a[1..] + b;
      RunAppend(v, Step(v, s, a[0]), a[1..], b);
    }
  }

  /** A full token buffer is as good as a finished token. */
  function Norm(s: Stream): Stream
  {
    if |s.token| >= TOKEN_LIMIT then s.(tokenDone := true) else s
  }

  ghost predicate Same(a: Stream, b: Stream)
  {
    Norm(a) == Norm(b)
  }

  ghost predicate ValidStream(v: Words, s: Stream)
  {
    && |s.token| <= TOKEN_LIMIT
    && !(DCS <= s.token)
    && (s.tokenDone && Arms(v, s.token) ==> s.control)
  }

  /** An arming token looks like one. */
  lemma ArmingShape(v: Words, token: seq<byte>)
    requires !(DCS <= token) && Arms(v, token)
    ensures 4 <= |token| <= 24 && MayBeControl(token)
  {
    assert NotificationLike(token);
  }

  lemma StepKeepsValid(v: Words, s: Stream, b: byte)
    requires ValidStream(v, s)
    ensures ValidStream(v, Step(v, s, b))
  {
    assert DCS <= s.token + [b] ==> DCS <= s.token || s.token + [b] == DCS;
    if Arms(v, []) {
      ArmingShape(v, []);
    }
  }

  /** Unarmed line ends only start a new line. */
  lemma QuietNewline(v: Words, s: Stream)
    requires ValidStream(v, s) && !Arms(v, s.token)
    ensures AfterNewline(v, s) == Stream([], false, false, s.control, s.block, false)
  {
  }

  /** Equal up to `Norm`, byte after byte. */
  lemma SameStep(v: Words, s: Stream, t: Stream, b: byte)
    requires ValidStream(v, s) && ValidStream(v, t) && Same(s, t)
    ensures Same(Step(v, s, b), Step(v, t, b))
  {
    if |s.token| == TOKEN_LIMIT && Arms(v, s.token) {
      ArmingShape(v, s.token);
    }
  }

  lemma {:induction false} SameRun(v: Words, s: Stream, t: Stream, bytes: seq<byte>)
    requires ValidStream(v, s) && ValidStream(v, t) && Same(s, t)
    ensures ValidStream(v, Run(v, s, bytes)) && ValidStream(v, Run(v, t, bytes))
    ensures Same(Run(v, s, bytes), Run(v, t, bytes))
    decreases |bytes|
  {
    if bytes != [] {
      StepKeepsValid(v, s, bytes[0]);
      StepKeepsValid(v, t, bytes[0]);
      SameStep(v, s, t, bytes[0]);
      SameRun(v, Step(v, s, bytes[0]), Step(v, t, bytes[0]), bytes[1..]);
    }
  }

  // ---------------------------------------------------------------------
  // Why whole stretches may be skipped.

  /** Nothing on the current line can arm control mode without a `%` or an ESC. */
  ghost predicate Calm(v: Words, s: Stream)
  {
    ValidStream(v, s) && !s.control && (s.tokenDone || !MayBeControl(s.token))
  }

  lemma CalmDoesNotArm(v: Words, s: Stream)
    requires Calm(v, s)
    ensures !Arms(v, s.token)
  {
    if Arms(v, s.token) {
      ArmingShape(v, s.token);
    }
  }

  lemma CalmStep(v: Words, s: Stream, b: byte)
    requires Calm(v, s) && b != PERCENT && b != ESC
    ensures Calm(v, Step(v, s, b)) && Step(v, s, b).block == s.block && !Step(v, s, b).escape
    ensures b == NEWLINE ==> Step(v, s, b) == Stream([], false, false, false, s.block, false)
  {
    CalmDoesNotArm(v, s);
    StepKeepsValid(v, s, b);
    if b == NEWLINE {
      QuietNewline(v, s);
    } else if !Step(v, s, b).tokenDone && |s.token| < TOKEN_LIMIT {
      var token := s.token + [b];
      assert s.token == token[..|s.token|];
      assert token[0] == if s.token == [] then b else s.token[0];
      assert token <= DCS ==> s.token <= DCS;
      assert !MayBeControl(token);
    }
  }

  /** Plain text, however long, only matters after its last newline. */
  lemma {:induction false} CalmRun(v: Words, s: Stream, bytes: seq<byte>)
    requires Calm(v, s) && PERCENT !in bytes && ESC !in bytes
    ensures Calm(v, Run(v, s, bytes)) && Run(v, s, bytes).block == s.block
    ensures bytes != [] && bytes[|bytes| - 1] == NEWLINE ==>
      Run(v, s, bytes) == Stream([], false, false, false, s.block, false)
    decreases |bytes|
  {
    if bytes != [] {
      var before, b := bytes[..|bytes| - 1], bytes[|bytes| - 1];
      assert bytes == before + [b];
      CalmRun(v, s, before);
      CalmStep(v, Run(v, s, before), b);
      RunAppend(v, s, before, [b]);
      assert Run(v, Run(v, s, before), [b]) == Step(v, Run(v, s, before), b);
    }
  }

  /** The rest of a line whose first token is settled. */
  lemma {:induction false} SettledRun(v: Words, s: Stream, bytes: seq<byte>)
    requires ValidStream(v, s) && !s.control && (s.tokenDone || |s.token| == TOKEN_LIMIT)
    requires bytes != [] && NEWLINE !in bytes
    ensures Same(Run(v, s, bytes), s.(midline := true, escape := bytes[|bytes| - 1] == ESC))
    decreases |bytes|
  {
    var next := Step(v, s, bytes[0]);
    if |s.token| == TOKEN_LIMIT && Arms(v, s.token) {
      ArmingShape(v, s.token);
    }
    StepKeepsValid(v, s, bytes[0]);
    if |bytes| > 1 {
      SettledRun(v, next, bytes[1..]);
    } else {
      assert Run(v, s, bytes) == next;
    }
  }

  lemma RunSnoc(v: Words, s: Stream, a: seq<byte>, b: byte)
    ensures Run(v, s, a + [b]) == Step(v, Run(v, s, a), b)
  {
    RunAppend(v, s, a, [b]);
    var t := Run(v, s, a);
    assert Run(v, t, [b]) == Run(v, Step(v, t, b), [b][1..]);
  }

  /** Taking byte `i`. */
  lemma ByteTaken(v: Words, start: Stream, here: Stream, bytes: seq<byte>, i: nat)
    requires ValidStream(v, start) && ValidStream(v, here)
    requires i < |bytes| && Same(here, Run(v, start, bytes[..i]))
    ensures ValidStream(v, Step(v, here, bytes[i]))
    ensures Same(Step(v, here, bytes[i]), Run(v, start, bytes[..i + 1]))
  {
    SameRun(v, start, start, bytes[..i]);
    SameStep(v, here, Run(v, start, bytes[..i]), bytes[i]);
    StepKeepsValid(v, here, bytes[i]);
    RunSnoc(v, start, bytes[..i], bytes[i]);
    assert bytes[..i] + [bytes[i]] == bytes[..i + 1];
  }

  /** A newline forgets what the rest of a settled line did. */
  lemma SettledNewline(v: Words, here: Stream, skipped: seq<byte>)
    requires ValidStream(v, here) && !here.control && (here.tokenDone || |here.token| == TOKEN_LIMIT)
    requires NEWLINE !in skipped
    ensures Step(v, here, NEWLINE) == Step(v, Run(v, here, skipped), NEWLINE)
  {
    if skipped != [] {
      SettledRun(v, here, skipped);
    }
  }

  /** Skipping to the newline at `j` and taking it. */
  lemma LineSkipped(v: Words, start: Stream, here: Stream, bytes: seq<byte>, i: nat, j: nat)
    requires ValidStream(v, start) && ValidStream(v, here)
    requires i <= j < |bytes| && Same(here, Run(v, start, bytes[..i]))
    requires !here.control && (here.tokenDone || |here.token| == TOKEN_LIMIT)
    requires NEWLINE !in bytes[i..j] && bytes[j] == NEWLINE
    ensures ValidStream(v, Step(v, here, bytes[j]))
    ensures Same(Step(v, here, bytes[j]), Run(v, start, bytes[..j + 1]))
  {
    var skipped := bytes[i..j];
    SameRun(v, start, start, bytes[..i]);
    SameRun(v, here, Run(v, start, bytes[..i]), skipped);
    RunAppend(v, start, bytes[..i], skipped);
    assert bytes[..i] + skipped == bytes[..j];
    ByteTaken(v, start, Run(v, here, skipped), bytes, j);
    SettledNewline(v, here, skipped);
  }

  /** The rest of a settled line with no newline. */
  lemma TailSkipped(v: Words, start: Stream, here: Stream, bytes: seq<byte>, i: nat)
    requires ValidStream(v, start) && ValidStream(v, here)
    requires i < |bytes| && Same(here, Run(v, start, bytes[..i]))
    requires !here.control && (here.tokenDone || |here.token| == TOKEN_LIMIT) && NEWLINE !in bytes[i..]
    ensures Same(here.(midline := true, escape := bytes[|bytes| - 1] == ESC), Run(v, start, bytes))
  {
    SameRun(v, start, start, bytes[..i]);
    SameRun(v, here, Run(v, start, bytes[..i]), bytes[i..]);
    RunAppend(v, start, bytes[..i], bytes[i..]);
    assert bytes[..i] + bytes[i..] == bytes;
    SettledRun(v, here, bytes[i..]);
  }

  // ---------------------------------------------------------------------
  // Which unsent lines an interrupt keeps.

  /** The bytes up to and including the first newline. */
  function FirstLine(bytes: seq<byte>): (line: seq<byte>)
    requires bytes != []
    ensures 0 < |line| <= |bytes| && line == bytes[..|line|]
  {
    var k := IndexOf(bytes, NEWLINE);
    if k < |bytes| then bytes[..k + 1] else bytes[..k]
  }

  lemma FirstLineEnds(bytes: seq<byte>)
    requires bytes != [] && |FirstLine(bytes)| < |bytes|
    ensures FirstLine(bytes)[|FirstLine(bytes)| - 1] == NEWLINE
  {
  }

  /** `split_inclusive` at newlines. */
  function Lines(bytes: seq<byte>): (lines: seq<seq<byte>>)
    ensures forall i | 0 <= i < |lines| :: lines[i] != []
    ensures bytes != [] ==> lines != []
    decreases |bytes|
  {
    if bytes == [] then [] else
    var line := FirstLine(bytes);
    [line] + Lines(bytes[|line|..])
  }

  lemma {:induction false} LinesRejoin(bytes: seq<byte>)
    ensures Flatten(Lines(bytes)) == bytes
    decreases |bytes|
  {
    hide FirstLine;
    if bytes != [] {
      var line := FirstLine(bytes);
      var rest := Lines(bytes[|line|..]);
      LinesRejoin(bytes[|line|..]);
      assert Lines(bytes) == [line] + rest;
      FlattenAppend([line], rest);
      FlattenOne(line);
      assert line + bytes[|line|..] == bytes;
    }
  }

  /** `line_first_token`. */
  function FirstToken(line: seq<byte>): seq<byte>
  {
    if line == [] || IsSpace(line[0]) then []
    else [line[0]] + FirstToken(line[1..])
  }

  /** The first token is what stands before the first whitespace. */
  lemma {:induction false} FirstTokenEnds(line: seq<byte>)
    ensures FirstToken(line) <= line
    ensures forall i | 0 <= i < |FirstToken(line)| :: !IsSpace(line[i])
    ensures |FirstToken(line)| < |line| ==> IsSpace(line[|FirstToken(line)|])
  {
    if line != [] && !IsSpace(line[0]) {
      FirstTokenEnds(line[1..]);
      assert line == [line[0]] + line[1..];
    }
  }

  lemma {:induction false} FirstTokenIs(token: seq<byte>, rest: seq<byte>)
    requires forall i | 0 <= i < |token| :: !IsSpace(token[i])
    requires rest != [] && IsSpace(rest[0])
    ensures FirstToken(token + rest) == token
  {
    if token == [] {
      assert token + rest == rest;
    } else {
      FirstTokenIs(token[1..], rest);
      assert (token + rest)[1..] == token[1..] + rest;
    }
  }

  function LineToken(line: seq<byte>): seq<byte>
  {
    StripDcs(FirstToken(line))
  }

  predicate IsPane(v: Words, line: seq<byte>)
  {
    LineToken(line) in v.panes
  }

  /** The decision for a line met in state `s`. */
  predicate KeepsLine(v: Words, s: Stream, line: seq<byte>)
    requires line != []
  {
    var token := LineToken(line);
    var controlToken := IsControlToken(v, token) || (s.control && token != [] && token[0] == PERCENT);
    var terminator := s.control && !s.block
                      && ([ESC, BACKSLASH] <= token || (s.escape && line[0] == BACKSLASH));
    || s.block
    || (s.control && s.midline)
    || (controlToken && !IsPane(v, line))
    || terminator
    || (s.control && token == [])
  }

  /** A partly sent control line and the plain lines right behind it are finished unseen. */
  predicate Finishes(finishing: bool, line: seq<byte>)
    requires line != []
  {
    finishing && line[0] != PERCENT && line[0] != NEWLINE
  }

  /** For each line, whether it is kept. */
  function Mask(v: Words, s: Stream, lines: seq<seq<byte>>, finishing: bool): (mask: seq<bool>)
    requires forall i | 0 <= i < |lines| :: lines[i] != []
    ensures |mask| == |lines|
    decreases |lines|
  {
    if lines == [] then [] else
    var finishes := Finishes(finishing, lines[0]);
    [finishes || KeepsLine(v, s, lines[0])] + Mask(v, Run(v, s, lines[0]), lines[1..], finishes)
  }

  function Selected(lines: seq<seq<byte>>, mask: seq<bool>): seq<byte>
    requires |mask| == |lines|
  {
    if lines == [] then []
    else (if mask[0] then lines[0] else []) + Selected(lines[1..], mask[1..])
  }

  /** The selected lines come whole and in their order. */
  lemma {:induction false} SelectedAppend(lines: seq<seq<byte>>, mask: seq<bool>, line: seq<byte>, keep: bool)
    requires |mask| == |lines|
    ensures Selected(lines + [line], mask + [keep]) == Selected(lines, mask) + if keep then line else []
  {
    if lines == [] {
      assert lines + [line] == [line] && mask + [keep] == [keep];
      assert Selected([line], [keep]) == (if keep then line else []) + Selected([line][1..], [keep][1..]);
    } else {
      assert (lines + [line])[1..] == lines[1..] + [line] && (mask + [keep])[1..] == mask[1..] + [keep];
      SelectedAppend(lines[1..], mask[1..], line, keep);
    }
  }

  /** The lines an interrupt keeps of unsent `bytes` behind state `s`. */
  function InterruptMask(v: Words, s: Stream, bytes: seq<byte>): (mask: seq<bool>)
    ensures |mask| == |Lines(bytes)|
  {
    Mask(v, s, Lines(bytes), s.control && s.midline)
  }

  function Kept(v: Words, s: Stream, bytes: seq<byte>): seq<byte>
  {
    Selected(Lines(bytes), InterruptMask(v, s, bytes))
  }

  /** Pane output whose line is not complete yet. */
  predicate Unfinished(v: Words, line: seq<byte>)
    requires line != []
  {
    IsPane(v, line) && line[|line| - 1] != NEWLINE
  }

  /** The last line was pane output, dropped, and is not complete yet. */
  predicate CutsLine(v: Words, s: Stream, bytes: seq<byte>)
  {
    var lines := Lines(bytes);
    var last := |lines| - 1;
    lines != [] && !InterruptMask(v, s, bytes)[last] && Unfinished(v, lines[last])
  }

  lemma {:induction false} SelectedIsShorter(lines: seq<seq<byte>>, mask: seq<bool>)
    requires |mask| == |lines|
    ensures |Selected(lines, mask)| <= |Flatten(lines)|
  {
    if lines != [] {
      SelectedIsShorter(lines[1..], mask[1..]);
    }
  }

  /**
    What a line is to tmux: pane output, another notification, some other `%`
    line, nothing, or text. Pane output behind two introducers is no longer
    taken for such.
   */
  datatype Kind = Pane | Notice | Percent | Blank | Text

  function KindOf(v: Words, line: seq<byte>): Kind
  {
    var token := LineToken(line);
    if token in v.panes then Pane
    else if IsControlToken(v, token) then Notice
    else if token == [] then Blank
    else if token[0] == PERCENT then Percent
    else Text
  }

  /** The line ends control mode. */
  predicate EndsControl(s: Stream, line: seq<byte>)
    requires line != []
  {
    [ESC, BACKSLASH] <= LineToken(line) || (s.escape && line[0] == BACKSLASH)
  }

  /** Every line up to `i` finishes the control line the terminal has partly received. */
  ghost predicate FinishesTo(finishing: bool, lines: seq<seq<byte>>, i: nat)
    requires i < |lines| && forall j | 0 <= j < |lines| :: lines[j] != []
  {
    finishing && forall j | 0 <= j <= i :: lines[j][0] != PERCENT && lines[j][0] != NEWLINE
  }

  lemma {:induction false} MaskFinishes(v: Words, s: Stream, lines: seq<seq<byte>>, finishing: bool, i: nat)
    requires forall j | 0 <= j < |lines| :: lines[j] != []
    requires i < |lines|
    ensures Mask(v, s, lines, finishing)[i]
       <==> FinishesTo(finishing, lines, i) || KeepsLine(v, Run(v, s, Flatten(lines[..i])), lines[i])
    decreases i
  {
    hide KeepsLine, Step;
    if i == 0 {
      assert lines[..0] == [];
    } else {
      var rest, finishes := lines[1..], Finishes(finishing, lines[0]);
      MaskFinishes(v, Run(v, s, lines[0]), rest, finishes, i - 1);
      assert rest[..i - 1] == lines[..i][1..];
      RunAppend(v, s, lines[0], Flatten(rest[..i - 1]));
      assert FinishesTo(finishing, lines, i) ==> FinishesTo(finishes, rest, i - 1);
      assert FinishesTo(finishes, rest, i - 1) ==> FinishesTo(finishing, lines, i) by {
        if FinishesTo(finishes, rest, i - 1) {
          forall j | 0 <= j <= i ensures lines[j][0] != PERCENT && lines[j][0] != NEWLINE {
            assert j > 0 ==> lines[j] == rest[j - 1];
          }
        }
      }
    }
  }

  /** A pane line opens with `%` or with the control-mode introducer. */
  lemma PaneShape(v: Words, line: seq<byte>)
    requires line != [] && LineToken(line) in v.panes
    ensures LineToken(line) != [] && LineToken(line)[0] == PERCENT && line[0] != BACKSLASH
  {
    var token := FirstToken(line);
    assert LineToken(line) in v.notifications;
    assert token != [] && line[0] == token[0];
  }

  /**
    What an interrupt keeps, line by line, and drops: all of a partly received
    control line and of an open response block; otherwise pane output never,
    other notifications always, and in control mode also every other `%` line,
    every blank one and the end of control mode. Lines are never cut.
   */
  lemma InterruptDecides(v: Words, s: Stream, bytes: seq<byte>, i: nat)
    requires i < |Lines(bytes)|
    ensures var line := Lines(bytes)[i];
      var before := Run(v, s, Flatten(Lines(bytes)[..i]));
      InterruptMask(v, s, bytes)[i] <==>
        || FinishesTo(s.control && s.midline, Lines(bytes), i)
        || before.block || (before.control && before.midline)
        || match KindOf(v, line)
           case Pane => false
           case Notice => true
           case Percent => before.control
           case Blank => before.control
           case Text => before.control && EndsControl(before, line)
  {
    var line := Lines(bytes)[i];
    MaskFinishes(v, s, Lines(bytes), s.control && s.midline, i);
    if LineToken(line) in v.panes {
      PaneShape(v, line);
    }
  }

  /** What comes next up to a newline is to be skipped exactly when the backlog ends inside pane output that is dropped. */
  lemma SkipsExactly(v: Words, s: Stream, bytes: seq<byte>)
    ensures CutsLine(v, s, bytes) <==>
      && bytes != [] && bytes[|bytes| - 1] != NEWLINE
      && var last := |Lines(bytes)| - 1;
      && var before := Run(v, s, Flatten(Lines(bytes)[..last]));
      && KindOf(v, Lines(bytes)[last]) == Pane && !FinishesTo(s.control && s.midline, Lines(bytes), last)
      && !before.block && !(before.control && before.midline)
  {
    hide InterruptMask, Lines, Run, KindOf, FinishesTo, Flatten;
    LinesRejoin(bytes);
    if bytes != [] {
      var last := |Lines(bytes)| - 1;
      InterruptDecides(v, s, bytes, last);
      LastByte(Lines(bytes));
      PaneIsPane(v, Lines(bytes)[last]);
    } else {
      NoLines();
    }
  }

  lemma PaneIsPane(v: Words, line: seq<byte>)
    ensures IsPane(v, line) <==> KindOf(v, line) == Pane
  {
  }

  lemma NoLines()
    ensures Lines([]) == []
  {
  }

  lemma LastByte(lines: seq<seq<byte>>)
    requires lines != [] && lines[|lines| - 1] != []
    ensures var last := lines[|lines| - 1]; Flatten(lines) != [] && Flatten(lines)[|Flatten(lines)| - 1] == last[|last| - 1]
  {
    var before, last := lines[..|lines| - 1], lines[|lines| - 1];
    assert lines == before + [last];
    FlattenAppend(before, [last]);
    FlattenOne(last);
  }

  /** One line of pane output, alone in the backlog, is dropped unless it belongs to a response or a line begun. */
  lemma PaneLineIsDropped(v: Words, s: Stream, name: seq<byte>, rest: seq<byte>)
    requires name in v.panes && (forall i | 0 <= i < |name| :: !IsSpace(name[i])) && NEWLINE !in rest
    requires !s.block && !(s.control && s.midline)
    ensures Kept(v, s, name + [SPACE] + rest + [NEWLINE]) == []
  {
    var line := name + [SPACE] + rest + [NEWLINE];
    assert NEWLINE !in line[..|line| - 1];
    OneLine(line);
    assert line == name + ([SPACE] + rest + [NEWLINE]);
    FirstTokenIs(name, [SPACE] + rest + [NEWLINE]);
    assert NotificationLike(name) && LineToken(line) == name;
    assert Lines(line)[..0] == [] && Run(v, s, Flatten([])) == s;
    InterruptDecides(v, s, line, 0);
    assert InterruptMask(v, s, line) == [false];
    assert Lines(line)[1..] == [] && [false][1..] == [];
    assert Selected(Lines(line), [false]) == [] + Selected(Lines(line)[1..], [false][1..]);
  }

  /** Behind two introducers it is taken for another notification and kept, though the line means the same. */
  lemma TwiceIntroducedIsKept(v: Words, s: Stream, name: seq<byte>, rest: seq<byte>)
    requires name in v.panes && (forall i | 0 <= i < |name| :: !IsSpace(name[i])) && NEWLINE !in rest
    ensures var line := DCS + DCS + name + [SPACE] + rest + [NEWLINE]; KindOf(v, line) == Notice && Kept(v, s, line) == line
  {
    hide InterruptMask, Run, Lines, KindOf;
    var token := DCS + DCS + name;
    var line := token + [SPACE] + rest + [NEWLINE];
    assert line == token + ([SPACE] + rest + [NEWLINE]);
    TwiceIntroducedIsNotice(v, name, [SPACE] + rest + [NEWLINE]);
    assert NEWLINE !in DCS && NEWLINE !in name && NEWLINE !in line[..|line| - 1];
    OneLine(line);
    InterruptDecides(v, s, line, 0);
    assert InterruptMask(v, s, line) == [true];
    assert Lines(line)[1..] == [] && [true][1..] == [];
    assert Selected(Lines(line), [true]) == line + Selected(Lines(line)[1..], [true][1..]);
  }

  lemma TwiceIntroducedIsNotice(v: Words, name: seq<byte>, rest: seq<byte>)
    requires name in v.panes && (forall i | 0 <= i < |name| :: !IsSpace(name[i])) && rest != [] && IsSpace(rest[0])
    ensures KindOf(v, DCS + DCS + name + rest) == Notice
  {
    var token := DCS + DCS + name;
    assert forall i | 0 <= i < |DCS| :: !IsSpace(DCS[i]);
    FirstTokenIs(token, rest);
    assert token == DCS + (DCS + name) && LineToken(token + rest) == DCS + name;
    assert (DCS + name)[0] == ESC && StripDcs(DCS + name) == name;
    NoWordStartsWithEscape(v, DCS + name);
  }

  lemma NoWordStartsWithEscape(v: Words, token: seq<byte>)
    requires token != [] && token[0] == ESC
    ensures token !in v.notifications && token !in v.panes
  {
    assert forall word | word in v.notifications :: NotificationLike(word);
  }

  lemma OneLine(line: seq<byte>)
    requires line != [] && line[|line| - 1] == NEWLINE && NEWLINE !in line[..|line| - 1]
    ensures Lines(line) == [line]
  {
    assert forall i | 0 <= i < |line| - 1 :: line[i] == line[..|line| - 1][i];
    assert IndexOf(line, NEWLINE) == |line| - 1;
    assert FirstLine(line) == line;
  }

  datatype Filtered = Filtered(kept: seq<byte>, skip: bool)

  /** The walk over the backlog, line by line. */
  function Walk(v: Words, s: Stream, bytes: seq<byte>, finishing: bool): Filtered
    decreases |bytes|
  {
    if bytes == [] then Filtered([], false) else
    var line := FirstLine(bytes);
    var finishes := Finishes(finishing, line);
    var keep := finishes || KeepsLine(v, s, line);
    var rest := Walk(v, Run(v, s, line), bytes[|line|..], finishes);
    if keep then rest.(kept := line + rest.kept) else rest.(skip := rest.skip || Unfinished(v, line))
  }

  /** The walk keeps exactly the masked lines and reports exactly a cut last line. */
  lemma {:induction false} WalkSelects(v: Words, s: Stream, bytes: seq<byte>, finishing: bool)
    ensures var lines := Lines(bytes);
      var mask := Mask(v, s, lines, finishing);
      && Walk(v, s, bytes, finishing).kept == Selected(lines, mask)
      && (Walk(v, s, bytes, finishing).skip <==> lines != [] && !mask[|lines| - 1] && Unfinished(v, lines[|lines| - 1]))
    decreases |bytes|
  {
    hide Run, KeepsLine, FirstLine;
    if bytes != [] {
      var line := FirstLine(bytes);
      if bytes[|line|..] != [] {
        FirstLineEnds(bytes);
      }
      WalkSelects(v, Run(v, s, line), bytes[|line|..], Finishes(finishing, line));
      assert Lines(bytes)[1..] == Lines(bytes[|line|..]);
      if bytes[|line|..] == [] {
        assert Lines(bytes) == [line];
      }
    }
  }

  lemma {:induction false} WalkSame(v: Words, s: Stream, t: Stream, bytes: seq<byte>, finishing: bool)
    requires ValidStream(v, s) && ValidStream(v, t) && Same(s, t)
    ensures Walk(v, s, bytes, finishing) == Walk(v, t, bytes, finishing)
    decreases |bytes|
  {
    if bytes != [] {
      var line := FirstLine(bytes);
      SameRun(v, s, t, line);
      WalkSame(v, Run(v, s, line), Run(v, t, line), bytes[|line|..], Finishes(finishing, line));
    }
  }

  lemma WalkIsShorter(v: Words, s: Stream, bytes: seq<byte>, finishing: bool)
    ensures |Walk(v, s, bytes, finishing).kept| <= |bytes|
  {
    WalkSelects(v, s, bytes, finishing);
    LinesRejoin(bytes);
    SelectedIsShorter(Lines(bytes), Mask(v, s, Lines(bytes), finishing));
  }

  /** The filter's answer depends on the bytes observed, not on how they were chunked. */
  lemma FilterSame(v: Words, s: Stream, t: Stream, bytes: seq<byte>)
    requires ValidStream(v, s) && ValidStream(v, t) && Same(s, t)
    ensures Kept(v, s, bytes) == Kept(v, t, bytes) && CutsLine(v, s, bytes) == CutsLine(v, t, bytes)
  {
    WalkSame(v, s, t, bytes, s.control && s.midline);
    WalkSelects(v, s, bytes, s.control && s.midline);
    WalkSelects(v, t, bytes, s.control && s.midline);
  }

  lemma FreshIsValid(v: Words)
    ensures ValidStream(v, FRESH)
  {
  }

  class TerminalStream {
    const v: Words
    var token: seq<byte>
    var tokenDone: bool
    var midline: bool
    var control: bool
    var block: bool
    var escape: bool

    function View(): Stream
      reads this
    {
      Stream(token, tokenDone, midline, control, block, escape)
    }

    constructor (v: Words)
      ensures this.v == v && View() == FRESH && ValidStream(v, View())
    {
      this.v := v;
      token, tokenDone, midline, control, block, escape := [], false, false, false, false, false;
      new;
      FreshIsValid(v);
    }

    constructor Clone(other: TerminalStream)
      ensures v == other.v && View() == other.View()
    {
      v := other.v;
      token, tokenDone, midline := other.token, other.tokenDone, other.midline;
      control, block, escape := other.control, other.block, other.escape;
    }

    /** The body of the byte loop. */
    method Take(b: byte)
      modifies this
      ensures View() == Step(v, old(View()), b)
    {
      if control && !block && escape && b == BACKSLASH {
        control := false;
        token, tokenDone, midline, escape := [], false, false, false;
        return;
      }
      escape := b == ESC;
      if b == NEWLINE {
        var bare := StripDcs(token);
        if Arms(v, bare) {
          control := true;
        }
        if bare == v.begin {
          block := true;
        } else if bare in v.ends {
          block := false;
        }
        token, tokenDone, midline := [], false, false;
      } else {
        midline := true;
        if IsSpace(b) {
          if !tokenDone && Arms(v, token) {
            control := true;
          }
          tokenDone := true;
        }
        if !tokenDone && |token| < TOKEN_LIMIT {
          token := token + [b];
          if token == DCS {
            control := true;
            token, midline := [], false;
          }
        }
      }
    }

    /** The shortcut for plain text: how much of `bytes` it accounted for. */
    method SkipPlain(bytes: seq<byte>) returns (i: nat)
      requires ValidStream(v, View())
      modifies this
      ensures i <= |bytes| && ValidStream(v, View()) && Same(View(), Run(v, old(View()), bytes[..i]))
    {
      ghost var start := View();
      i := 0;
      assert bytes[..0] == [] && bytes[..|bytes|] == bytes;
      if !control && (tokenDone || !MayBeControl(token)) && PERCENT !in bytes && ESC !in bytes {
        var after := AfterLast(bytes, NEWLINE);
        if after > 0 {
          CalmRun(v, start, bytes[..after]);
          token, tokenDone, midline, escape := [], false, false, false;
          i := after;
        } else if tokenDone || |token| >= TOKEN_LIMIT {
          if bytes != [] {
            SettledRun(v, start, bytes);
            midline, escape := true, false;
          }
          i := |bytes|;
        }
      }
    }

    /** One turn of the scanning loop: finish a settled line at once, else take one byte. */
    method Turn(bytes: seq<byte>, i: nat, ghost start: Stream) returns (next: nat)
      requires i < |bytes| && ValidStream(v, start)
      requires ValidStream(v, View()) && Same(View(), Run(v, start, bytes[..i]))
      modifies this
      ensures i < next <= |bytes|
      ensures ValidStream(v, View()) && Same(View(), Run(v, start, bytes[..next]))
    {
      if !control && (tokenDone || |token| >= TOKEN_LIMIT) {
        var skip := IndexOf(bytes[i..], NEWLINE);
        if skip == |bytes| - i {
          assert bytes[i..][..skip] == bytes[i..] && bytes[..|bytes|] == bytes;
          TailSkipped(v, start, View(), bytes, i);
          midline, escape := true, bytes[|bytes| - 1] == ESC;
          return |bytes|;
        }
        assert bytes[i..][..skip] == bytes[i..i + skip];
        LineSkipped(v, start, View(), bytes, i, i + skip);
        next := i + skip;
      } else {
        ByteTaken(v, start, View(), bytes, i);
        next := i;
      }
      Take(bytes[next]);
      next := next + 1;
    }

    /** `observe`: both skips leave the recogniser where every byte would have. */
    method Observe(bytes: seq<byte>)
      requires ValidStream(v, View())
      modifies this
      ensures ValidStream(v, View()) && Same(View(), Run(v, old(View()), bytes))
    {
      ghost var start := View();
      var i := SkipPlain(bytes);
      while i < |bytes|
        invariant 0 <= i <= |bytes|
        invariant ValidStream(v, View()) && Same(View(), Run(v, start, bytes[..i]))
      {
        i := Turn(bytes, i, start);
      }
      assert bytes[..|bytes|] == bytes;
    }

    /** `filter`: what an interrupt keeps of the unsent `bytes`. */
    method Filter(bytes: seq<byte>) returns (kept: seq<byte>, skip: bool)
      requires ValidStream(v, View())
      ensures kept == Kept(v, View(), bytes) && |kept| <= |bytes|
      ensures skip == CutsLine(v, View(), bytes)
    {
      ghost var whole := Walk(v, View(), bytes, control && midline);
      WalkSelects(v, View(), bytes, control && midline);
      WalkIsShorter(v, View(), bytes, control && midline);
      kept, skip := FilterWalk(bytes);
    }

    method FilterWalk(bytes: seq<byte>) returns (kept: seq<byte>, skip: bool)
      requires ValidStream(v, View())
      ensures Filtered(kept, skip) == Walk(v, View(), bytes, control && midline)
    {
      hide Run, KeepsLine, IsPane, FirstLine;
      var state := new TerminalStream.Clone(this);
      kept, skip := [], false;
      var rest, finishing := bytes, control && midline;
      ghost var whole := Walk(v, View(), bytes, finishing);
      while rest != []
        invariant fresh(state) && state.v == v && ValidStream(v, state.View())
        invariant kept + Walk(v, state.View(), rest, finishing).kept == whole.kept
        invariant (skip || Walk(v, state.View(), rest, finishing).skip) == whole.skip
        decreases |rest|
      {
        var line := FirstLine(rest);
        var finishes := Finishes(finishing, line);
        ghost var before := state.View();
        if finishes || KeepsLine(v, state.View(), line) {
          kept := kept + line;
        } else if Unfinished(v, line) {
          skip := true;
        }
        state.Observe(line);
        SameRun(v, before, before, line);
        WalkSame(v, state.View(), Run(v, before, line), rest[|line|..], finishes);
        rest, finishing := rest[|line|..], finishes;
      }
    }
  }

  // ---------------------------------------------------------------------
  // What the recogniser knows, in terms of the lines seen.

  /** The line's first token is followed by whitespace. */
  predicate TokenComplete(line: seq<byte>)
  {
    |FirstToken(line)| < |line|
  }

  /** A word of tmux's other than its goodbye, which a plain line may well read. */
  predicate Announces(v: Words, token: seq<byte>)
  {
    token in v.notifications && token != v.goodbye
  }

  /** Some line announced control mode. */
  ghost predicate Announced(v: Words, lines: seq<seq<byte>>)
  {
    exists i | 0 <= i < |lines| :: TokenComplete(lines[i]) && Announces(v, FirstToken(lines[i]))
  }

  predicate Finished(line: seq<byte>)
  {
    line != [] && line[|line| - 1] == NEWLINE
  }

  /** A response was begun and not ended since. */
  ghost predicate Responding(v: Words, lines: seq<seq<byte>>)
  {
    exists i | 0 <= i < |lines| ::
      && Finished(lines[i]) && FirstToken(lines[i]) == v.begin
      && forall j | i < j < |lines| && Finished(lines[j]) :: FirstToken(lines[j]) !in v.ends
  }

  function Short(token: seq<byte>): seq<byte>
  {
    if |token| <= TOKEN_LIMIT then token else token[..TOKEN_LIMIT]
  }

  /** Where an unfinished line leaves the recogniser. */
  lemma {:induction false} InLine(v: Words, s: Stream, line: seq<byte>)
    requires s.token == [] && !s.tokenDone && !s.escape && NEWLINE !in line && ESC !in line
    ensures var t := Run(v, s, line);
      && t.token == Short(FirstToken(line)) && t.tokenDone == TokenComplete(line)
      && t.control == (s.control || (TokenComplete(line) && Announces(v, FirstToken(line))))
      && t.block == s.block && !t.escape
    decreases |line|
  {
    hide Announces, Step, FirstToken;
    NoToken();
    if line != [] {
      var before, b := line[..|line| - 1], line[|line| - 1];
      assert line == before + [b];
      InLine(v, s, before);
      RunSnoc(v, s, before, b);
      TokenGrows(before, b);
      FirstTokenEnds(before);
      InLineStep(v, Run(v, s, before), before, b);
    }
  }

  lemma NoToken()
    ensures FirstToken([]) == []
  {
  }

  lemma InLineStep(v: Words, t: Stream, before: seq<byte>, b: byte)
    requires ESC !in before && b != ESC && b != NEWLINE && !t.escape
    requires t.token == Short(FirstToken(before)) && t.tokenDone == TokenComplete(before)
    ensures var next := Step(v, t, b);
      && next.tokenDone == (t.tokenDone || IsSpace(b)) && next.block == t.block && !next.escape
      && next.control == (t.control || (!t.tokenDone && IsSpace(b) && Announces(v, FirstToken(before))))
      && next.token == if t.tokenDone || IsSpace(b) then t.token else Short(before + [b])
  {
    hide Arms, Announces, FirstToken;
    FirstTokenEnds(before);
    TokenGrows(before, b);
    ArmsShort(v, FirstToken(before));
    NotIntroduced(t.token, b);
    ShortGrows(before, b);
  }

  lemma NotIntroduced(token: seq<byte>, b: byte)
    requires ESC !in token && b != ESC
    ensures token + [b] != DCS
  {
    assert (token + [b])[0] != ESC;
  }

  lemma ShortGrows(token: seq<byte>, b: byte)
    ensures Short(token + [b]) == if |Short(token)| < TOKEN_LIMIT then Short(token) + [b] else Short(token)
  {
  }

  lemma ArmsShort(v: Words, token: seq<byte>)
    requires ESC !in token
    ensures Arms(v, Short(token)) <==> Announces(v, token)
  {
    LongTokens(v, token);
  }

  lemma TokenGrows(line: seq<byte>, b: byte)
    ensures FirstToken(line + [b])
         == if TokenComplete(line) then FirstToken(line) else if IsSpace(b) then line else line + [b]
    ensures !TokenComplete(line) ==> FirstToken(line) == line
    ensures TokenComplete(line + [b]) <==> TokenComplete(line) || IsSpace(b)
  {
    FirstTokenEnds(line);
    FirstTokenEnds(line + [b]);
    var all := line + [b];
    var n, m := |FirstToken(line)|, |FirstToken(all)|;
    assert forall i | 0 <= i < |line| :: all[i] == line[i];
    assert FirstToken(line) == line[..n] && FirstToken(all) == all[..m];
    if n < |line| {
      assert m == n && all[..n] == line[..n];
    } else if IsSpace(b) {
      assert all[|line|] == b;
      assert m == |line| && all[..|line|] == line && line[..n] == line;
    } else {
      assert m == |all| && line[..n] == line;
    }
  }

  /** A whole line: its token arms control mode or opens and closes responses. */
  lemma WholeLine(v: Words, s: Stream, line: seq<byte>)
    requires s.token == [] && !s.tokenDone && !s.escape && Finished(line) && NEWLINE !in line[..|line| - 1] && ESC !in line
    ensures var token := FirstToken(line);
      && Run(v, s, line) == Stream([], false, false, s.control || Announces(v, token),
                                   if token == v.begin then true else if token in v.ends then false else s.block, false)
      && TokenComplete(line)
  {
    var before := line[..|line| - 1];
    assert line == before + [NEWLINE];
    InLine(v, s, before);
    RunSnoc(v, s, before, NEWLINE);
    TokenGrows(before, NEWLINE);
    FirstTokenEnds(before);
    LongTokens(v, FirstToken(before));
  }

  /** A token too long to be remembered is no word. */
  lemma LongTokens(v: Words, token: seq<byte>)
    requires ESC !in token
    ensures StripDcs(token) == token && StripDcs(Short(token)) == Short(token)
    ensures |token| > 24 ==> token !in v.notifications && Short(token) !in v.notifications
  {
    if token in v.notifications {
      assert NotificationLike(token);
    }
    if Short(token) in v.notifications {
      assert NotificationLike(Short(token));
    }
  }

  /** Lines as `Lines` yields them: all but the last are finished, and no newline is inside one. */
  ghost predicate WellSplit(lines: seq<seq<byte>>)
  {
    forall i | 0 <= i < |lines| ::
      lines[i] != [] && NEWLINE !in lines[i][..|lines[i]| - 1] && (i < |lines| - 1 ==> Finished(lines[i]))
  }

  lemma {:induction false} LinesWellSplit(bytes: seq<byte>)
    ensures WellSplit(Lines(bytes))
    decreases |bytes|
  {
    if bytes != [] {
      var line := FirstLine(bytes);
      LinesWellSplit(bytes[|line|..]);
      assert Lines(bytes)[1..] == Lines(bytes[|line|..]);
      if |line| < |bytes| {
        FirstLineEnds(bytes);
      }
      FirstLineInside(bytes);
    }
  }

  lemma FirstLineInside(bytes: seq<byte>)
    requires bytes != []
    ensures var line := FirstLine(bytes); NEWLINE !in line[..|line| - 1]
  {
    var k := IndexOf(bytes, NEWLINE);
    var line := FirstLine(bytes);
    assert line[..|line| - 1] <= bytes[..k];
  }

  /** After finished lines the recogniser stands at the start of a line, with what they announced. */
  lemma {:induction false} FinishedLines(v: Words, lines: seq<seq<byte>>)
    requires WellSplit(lines) && (forall i | 0 <= i < |lines| :: Finished(lines[i]) && ESC !in lines[i])
    ensures Run(v, FRESH, Flatten(lines)) == Stream([], false, false, Announced(v, lines), Responding(v, lines), false)
    decreases |lines|
  {
    hide Announces, FirstToken;
    if lines != [] {
      var before, line := lines[..|lines| - 1], lines[|lines| - 1];
      assert lines == before + [line];
      FinishedLines(v, before);
      FlattenAppend(before, [line]);
      FlattenOne(line);
      RunAppend(v, FRESH, Flatten(before), line);
      WholeLine(v, Run(v, FRESH, Flatten(before)), line);
      OneMoreLine(v, before, line);
    }
  }

  lemma OneMoreLine(v: Words, lines: seq<seq<byte>>, line: seq<byte>)
    ensures Announced(v, lines + [line]) <==> Announced(v, lines) || (TokenComplete(line) && Announces(v, FirstToken(line)))
    ensures Responding(v, lines + [line]) <==>
      if Finished(line) && FirstToken(line) == v.begin then true
      else Responding(v, lines) && !(Finished(line) && FirstToken(line) in v.ends)
  {
    hide Announces, FirstToken, Finished, TokenComplete;
    var all := lines + [line];
    assert forall i | 0 <= i < |lines| :: all[i] == lines[i];
    assert all[|lines|] == line;
    if Responding(v, lines) && !(Finished(line) && FirstToken(line) in v.ends) {
      var i :| 0 <= i < |lines| && Finished(lines[i]) && FirstToken(lines[i]) == v.begin
        && forall j | i < j < |lines| && Finished(lines[j]) :: FirstToken(lines[j]) !in v.ends;
      assert Finished(all[i]) && FirstToken(all[i]) == v.begin;
    }
    if Announced(v, lines) {
      var i :| 0 <= i < |lines| && TokenComplete(lines[i]) && Announces(v, FirstToken(lines[i]));
      assert TokenComplete(all[i]);
    }
  }

  /**
    What the recogniser answers about a whole stream, escapes aside: it is in
    control mode exactly if some line's complete first token announced it, and
    in a response exactly if a finished line began one and none ended it since.
   */
  lemma StreamKnows(v: Words, bytes: seq<byte>)
    requires ESC !in bytes
    ensures Run(v, FRESH, bytes).control <==> Announced(v, Lines(bytes))
    ensures Run(v, FRESH, bytes).block <==> Responding(v, Lines(bytes))
  {
    hide Announced, Responding, Run, Lines, Flatten;
    var lines := Lines(bytes);
    LinesRejoin(bytes);
    LinesWellSplit(bytes);
    NoEscapes(lines);
    if lines == [] || Finished(lines[|lines| - 1]) {
      FinishedLines(v, lines);
    } else {
      var before, line := lines[..|lines| - 1], lines[|lines| - 1];
      assert lines == before + [line] && line == line[..|line| - 1] + [line[|line| - 1]];
      LastLine(v, before, line);
    }
  }

  lemma LastLine(v: Words, before: seq<seq<byte>>, line: seq<byte>)
    requires WellSplit(before) && (forall i | 0 <= i < |before| :: Finished(before[i]) && ESC !in before[i])
    requires ESC !in line && NEWLINE !in line
    ensures var t := Run(v, FRESH, Flatten(before + [line]));
      && (t.control <==> Announced(v, before + [line]))
      && (t.block <==> Responding(v, before + [line]))
  {
    hide Announced, Responding, Run, Flatten, Announces, FirstToken;
    FinishedLines(v, before);
    FlattenAppend(before, [line]);
    FlattenOne(line);
    RunAppend(v, FRESH, Flatten(before), line);
    InLine(v, Run(v, FRESH, Flatten(before)), line);
    OneMoreLine(v, before, line);
  }

  lemma {:induction false} NoEscapes(lines: seq<seq<byte>>)
    requires ESC !in Flatten(lines)
    ensures forall i | 0 <= i < |lines| :: ESC !in lines[i]
  {
    if lines != [] {
      assert Flatten(lines) == lines[0] + Flatten(lines[1..]);
      NoEscapes(lines[1..]);
    }
  }

  /** tmux's introducer at the start of a line enters control mode and leaves the line's token still to come. */
  lemma IntroducerEnters(v: Words, s: Stream)
    requires s.token == [] && !s.tokenDone
    ensures Run(v, s, DCS) == Stream([], false, false, true, s.block, false)
  {
    for i := 0 to 6
      invariant Run(v, s, DCS[..i]) == if i == 0 then s else s.(token := DCS[..i], midline := true, escape := i == 1)
    {
      IntroducerStep(v, s, i);
    }
    RunSnoc(v, s, DCS[..6], DCS[6]);
    assert DCS[..6] + [DCS[6]] == DCS;
  }

  lemma IntroducerStep(v: Words, s: Stream, i: nat)
    requires i < 6 && s.token == [] && !s.tokenDone
    requires Run(v, s, DCS[..i]) == if i == 0 then s else s.(token := DCS[..i], midline := true, escape := i == 1)
    ensures Run(v, s, DCS[..i + 1]) == s.(token := DCS[..i + 1], midline := true, escape := i == 0)
  {
    hide Run;
    RunSnoc(v, s, DCS[..i], DCS[i]);
    assert DCS[..i] + [DCS[i]] == DCS[..i + 1] && |DCS[..i + 1]| < |DCS|;
    assert DCS[i] == ESC <==> i == 0;
    assert i == 0 ==> DCS[..i] == [];
  }

  /** The string terminator leaves control mode, unless it is inside a response. */
  lemma TerminatorLeaves(v: Words, s: Stream)
    requires s.control && !s.block
    ensures Run(v, s, [ESC, BACKSLASH]) == FRESH
  {
    var t := Step(v, s, ESC);
    assert (s.token + [ESC])[|s.token|] == ESC && DCS[6] != ESC;
    assert [ESC, BACKSLASH][1..] == [BACKSLASH];
    assert Run(v, t, [BACKSLASH]) == Run(v, Step(v, t, BACKSLASH), [BACKSLASH][1..]);
  }

  // ---------------------------------------------------------------------
  // tmux's own words.

  const TMUX_NAMES: seq<string> := [
    "%begin", "%end", "%error", "%output", "%extended-output", "%exit", "%layout-change", "%window-add",
    "%window-close", "%window-renamed", "%pane-mode-changed", "%window-pane-changed", "%unlinked-window-add",
    "%unlinked-window-close", "%unlinked-window-renamed", "%session-changed", "%session-renamed",
    "%session-window-changed", "%sessions-changed", "%client-detached", "%client-session-changed",
    "%subscription-changed", "%message", "%config-error", "%continue", "%pause", "%paste-buffer-changed",
    "%paste-buffer-deleted"]

  const TMUX := Vocabulary(
    set i | 0 <= i < |TMUX_NAMES| :: Ascii(TMUX_NAMES[i]),
    Ascii("%begin"), {Ascii("%end"), Ascii("%error")}, Ascii("%exit"),
    {Ascii("%output"), Ascii("%extended-output")})

  lemma TmuxNamesShape(i: nat)
    requires i < |TMUX_NAMES|
    ensures var name := TMUX_NAMES[i]; 4 <= |name| <= 24 && name[0] == '%' && 'a' <= name[1] <= 'z'
  {
  }

  lemma TmuxIsValid()
    ensures ValidVocabulary(TMUX)
  {
    forall token | token in TMUX.notifications ensures NotificationLike(token) {
      var i :| 0 <= i < |TMUX_NAMES| && token == Ascii(TMUX_NAMES[i]);
      TmuxNamesShape(i);
      NameIsNotificationLike(TMUX_NAMES[i]);
    }
    assert TMUX_NAMES[0] == "%begin" && TMUX_NAMES[1] == "%end" && TMUX_NAMES[2] == "%error";
    assert TMUX_NAMES[3] == "%output" && TMUX_NAMES[4] == "%extended-output";
    assert |Ascii("%exit")| != |Ascii("%begin")| && |Ascii("%exit")| != |Ascii("%end")|;
    assert |Ascii("%exit")| != |Ascii("%error")|;
  }
}
