# A verified model of the et.rs client

et.rs is a reconnecting remote shell. Its client consists of small state
machines that have to behave the same however the kernel, the network or the
peer splits, delays or breaks the traffic. This project models those machines
in Dafny and proves what they keep over every run. The kernel, the network,
the helper process, the other thread and the clock are adversaries: their
answers are unconstrained except for what their interface promises. Each
records what it was asked and answered, and the contracts say what the code
makes of exactly those answers.

| file | component |
|---|---|
| `Bytes.dfy`, `Protobuf.dfy` | byte strings; varints and length-delimited fields |
| `Tty.dfy`, `ConsoleQueue.dfy`, `DirectConsole.dfy` | the console, and the output queue the session loop writes to it itself |
| `ConsoleWorker.dfy`, `ConsoleHelper.dfy`, `StaleOutput.dfy` | the console worker thread, the helper process, output queued before an interrupt |
| `TerminalModes.dfy`, `TerminalStream.dfy`, `ExitMarker.dfy` | streaming recognisers: alternate screen, tmux control mode, status sentinel |
| `Replay.dfy`, `Reconnect.dfy`, `OwnedWrite.dfy` | the backed-up writer, the nonce-synchronised reader, submission across reconnects |
| `LocalQueue.dfy`, `Passenger.dfy`, `LocalSession.dfy` | the packets of a local session, the shared shell, its peers |
| `Framing.dfy`, `MuxCodec.dfy`, `History.dfy` | local frames, port-forward requests, the bounded output history |
| `EnvironmentGlob.dfy`, `EnvironmentBudget.dfy` | SendEnv patterns, the size budget of the first packet |
| `Keepalive.dfy`, `DeliveryGate.dfy` | dead-link detection, the bound on unacknowledged output |

`dafny verify dfyconfig.toml` checks everything.

The main results, hardest first:

- **The reconnecting stream** (`Reconnect.Run`, `Reconnect.RunRecovered`). The
  network may lose, repeat, reorder and damage frames, transports may break
  anywhere and catchups may be cut short or fail on one side only. What the
  reads gave out is always a prefix of what the writes took, and a handshake can
  complete it whenever at most 64 MiB and 262144 packets are unread. Once it has,
  and what is sent from then on arrives once and in order, as many reads as
  there are packets give out everything that was ever written.
- **Console conservation** (`DirectConsoles.RunSession`,
  `ConsoleWorkers.ConsoleWorker.RunWriter`). For every short write, EAGAIN,
  error and readiness event, the bytes on the console followed by the unsent
  ones are the packets answered with admission, in order. Output is given up
  exactly when the console refused bytes or took none. Eviction, interrupts
  and errors take exactly what they say; discarding leaves out whole packets no
  byte of which was shown. The worker does the same with another thread
  interleaved, and the two consoles agree.
- **Packetisation invariance** of the status sentinel, the alternate-screen
  tracker and the tmux control-mode tracker: each answers a question about the
  whole stream, independent of how it was split. What an interrupt keeps and
  drops is decided for every line of every backlog
  (`TerminalStreams.InterruptDecides`).
- **Exactly once** (`OwnedWrite.WriteOwnedWithPolicy`, `LocalQueue.Run`):
  packets enter the replay log once and in order across any failures, and a call
  fails exactly when the connection refused a packet for another reason than its
  own end or a reconnect could not succeed.
- **The shared shell** (`LocalSessions.RunLocal`): every run is a run of a
  seven-event automaton that never shares the shell and never gives it up before
  a command's own status line. A passenger that ends well was given exactly
  what the scan shows of what was printed since its admission. The bytes a peer
  gets are its answers, and an EXIT among them carries the status of that
  peer's own session, 255 exactly if it failed.
- **Dead links** (`Keepalive.Run`): the link is declared dead exactly when a
  probe has gone unanswered for its reply window, which is never within two
  intervals of a packet read. Probes go out exactly when they are called for, so
  held output never turns into a verdict.

Some properties one might expect are false of the code. They are stated with
the exact condition under which they hold, or with a counterexample:

- The glob matcher compares a literal before it looks for a star. It computes
  the usual semantics on every pattern exactly for names without `*`
  (`EnvironmentGlob.MatcherCorrectExactlyOnStarFreeNames`). Its caller only
  passes such names.
- A keep-alive verdict comes two intervals after every packet read and every
  recovery that followed a verdict (`Keepalive.NoFalseVerdict`), but not after
  every recovery. A probe whose own write recovers the transport is noted right
  after that recovery, so a silent peer is declared dead one reply window after
  it (`Keepalive.VerdictAfterRecoveringProbe`). Two intervals are guaranteed
  exactly when the probe was not sent early
  (`Keepalive.KeepaliveClock.EarliestVerdict`).
- `forward` inverts `forward_body` exactly on normal requests
  (`MuxCodec.ForwardRoundTrip`). Port -2 comes back as no port
  (`MuxCodec.MinusTwoIsNoPort`).
- The comment at `unacknowledged_bytes` says it includes frames the hard cap
  dropped. It does exactly when the backup still reached down to the acknowledged
  position (`Replay.BackedWriter.BacklogAfter`), and one packet beyond the hard
  cap is enough for it not to (`Replay.BacklogFallsShort`).
- The jumphost trim keeps the longest prefix that fits, for all values, exactly
  when the names are distinct and unused by the payload
  (`EnvironmentBudget.TrimRightExactlyForFreshNames`). With a name the payload
  uses it drops the payload's own variable and reports success. Its caller only
  passes fresh names (`EnvironmentBudget.SelectionSuitsTrim`).
- A passenger is not always kept from what the shell prints after its status
  line: what follows in the same packet is withheld, a later packet is shown
  while the passenger is still there (`Passengers.LatePacketIsShown`). Up to and
  including the packet of the status line it is shown exactly the bytes before
  that line (`ExitMarkers.ShownUpToStatus`), and after it exactly what a new scan
  of the later packets shows (`ExitMarkers.ScanRestarts`).
- Pane output is not dropped by an interrupt behind two of tmux's introducers,
  because the vocabulary test strips one more of them than the pane test
  (`TerminalStreams.TwiceIntroducedIsKept`). Which lines are dropped is exact in
  `TerminalStreams.InterruptDecides`.
- With no patience at all the delivery gate still pauses producers for a single
  answer (`DeliveryGates.PauseWithoutPatience`); with any, `DeliveryGates.Run`
  bounds the pause.

## Model

| member | source | states |
|---|---|---|
| `ConsoleQueue.Conservation` | crates/et-bin/src/client_output.rs:77-106 | Whenever the queue mirrors the ledger of packets, the console's bytes followed by the queue's unsent bytes are all packets, in order. |
| `ConsoleQueue.AdvanceFront` | crates/et-bin/src/client_output.rs:1045-1059 | Writing part of the front entry keeps the mirror: only the front is partly sent and no entry is fully sent. |
| `ConsoleQueue.PushBack` | crates/et-bin/src/client_output.rs:990-997 | Queueing what the console did not take keeps the mirror and adds exactly the unsent rest. |
| `ConsoleQueue.EvictOldest` | crates/et-bin/src/client_output.rs:375-384 | Evicting the oldest entry that is not on the console removes one whole packet and its bytes, nothing else. |
| `ConsoleQueue.RedistributedUnsent` | crates/et-bin/src/client_output_interrupt.rs:23-32 | Spreading the kept bytes over the entries leaves exactly those bytes unsent, in order, in no more entries. |
| `ConsoleQueue.InterruptMirrors` | crates/et-bin/src/client_output_interrupt.rs:23-36 | After an interrupt the mirror holds again, the unsent bytes are the kept ones, and what is on the console is untouched. |
| `ConsoleQueue.BoundsAreReal` | crates/et-bin/src/client_output.rs:364-388 | Within the bounds of its mode the queue holds less than twice `OUTPUT_BYTES`. |
| `ConsoleQueue.InterruptBounds` | crates/et-bin/src/client_output_interrupt.rs:23-36 | An interrupt never breaks the bounds. |
| `Ttys.Tty.Write` | crates/et-bin/src/client_output.rs:1095-1102 | The console takes some prefix of what it is offered and remembers what it was asked and answered; everything else about it is open. |
| `Ttys.Tty.WriteVectored` | crates/et-bin/src/client_output.rs:1014-1019 | A vectored write offers the slices one after another. |
| `DirectConsoles.DirectConsole.Fail` | crates/et-bin/src/client_output.rs:1086-1091 | A write error stops admission, drops the queue and is remembered. |
| `DirectConsoles.DirectConsole.RetireDelivered` | crates/et-bin/src/client_output.rs:1063-1081 | A fully written front entry leaves the queue once, counts its cursor request once and leaves a spare buffer while there are fewer than four. |
| `DirectConsoles.DirectConsole.Delivered` | crates/et-bin/src/client_output.rs:1045-1059 | The first `count` unsent bytes move to the console, across entries; the books and both observers stay exact. |
| `DirectConsoles.DirectConsole.WriteSlices` | crates/et-bin/src/client_output.rs:1002-1042 | One write offers a non-empty beginning of the unsent bytes; what it takes moves to the console, and the console is broken exactly if it refused them or took none. |
| `DirectConsoles.DirectConsole.WriteQueued` | crates/et-bin/src/client_output.rs:1002-1042 | Vectored writes only move bytes from the queue to the console; the console is asked exactly when something is queued and asked again exactly while it takes all of what it is offered; it breaks exactly on a refusal or an empty write; progress is reported exactly when a byte moved. |
| `DirectConsoles.DirectConsole.WritePacket` | crates/et-bin/src/client_output.rs:960-998 | A packet is appended to the packets whatever the console takes of it, and never overtakes queued output: the console is asked, once and for all of it, exactly when nothing is queued; it breaks exactly on a refusal or an empty write, and the queue stays empty exactly if it took all or broke. |
| `DirectConsoles.DirectConsole.MakeRoom` | crates/et-bin/src/client_output.rs:374-386 | Discard mode drops the oldest unstarted packets, no more than it must. |
| `DirectConsoles.DirectConsole.Admit` | crates/et-bin/src/client_output.rs:364-393 | Refusal leaves everything alone; admission is eviction of oldest packets plus the new packet. |
| `DirectConsoles.DirectConsole.TryWrite` | crates/et-bin/src/client_output.rs:324-407 | Each of the answers (refused, swallowed, held, admitted) comes exactly in the state that calls for it, with the matching effect. |
| `DirectConsoles.TailIsTheEnd` | crates/et-bin/src/client_output.rs:343-347 | What discard mode keeps of a packet is its end, all of it up to `OUTPUT_BYTES`. |
| `DirectConsoles.SkipEndsAtNewline` | crates/et-bin/src/client_output.rs:358-363 | After a cut line a packet is swallowed exactly if it has no newline, and otherwise starts behind its first one. |
| `DirectConsoles.DirectConsole.Redistribute` | crates/et-bin/src/client_output_interrupt.rs:23-32 | The in-place rewrite of the queue is the redistribution of the kept bytes. |
| `DirectConsoles.DirectConsole.Interrupt` | crates/et-bin/src/client_output_interrupt.rs:8-41 | The unsent bytes become what the filter keeps of them, seen from the bytes on the console; lengths add up and a cut line is remembered. |
| `DirectConsoles.DirectConsole.FilterSeesConsole` | crates/et-bin/src/client_output_interrupt.rs:19-22 | The stream's filter answers as if it had read the console from its beginning. |
| `DirectConsoles.DirectConsole.TakeCursorReports` | crates/et-bin/src/client_output.rs:435-441 | The count is handed over once; handed over plus kept is the number of delivered requests. |
| `DirectConsoles.DirectConsole.CheckError` | crates/et-bin/src/client_output.rs:523-531 | An error is reported once. |
| `DirectConsoles.DirectConsole.Conserved` | crates/et-bin/src/client_output.rs:957-1092 | In every reachable state: conservation, a prefix after an error, exact trackers and counts, real bounds. |
| `DirectConsoles.DirectConsole.Finish` | crates/et-bin/src/client_output.rs:1116-1151 | A finish that starts with no error pending succeeds exactly if every packet is on the console; otherwise the failure is the waiting error, the write that ended it, or a broken pipe after as many writes as there were wakeups. |
| `DirectConsoles.RunSession` | crates/et-bin/src/client_output.rs:324-407 | Over every run console plus unsent bytes are the packets kept, and after an error the console holds a prefix of them; the console is broken exactly if it refused bytes or took none; without interrupts the packets are those answered with admission, in order, of which discard mode leaves some out whole and unstarted, and none while all would fit. |
| `DirectConsoles.HandleEvent` | crates/et-bin/src/client_output.rs:324-407 | Each event keeps the invariant, only grows the console and, interrupts aside, adds exactly the packet it admits behind what eviction left. |
| `ConsoleWorkers.WriteWithDelivery` | crates/et-bin/src/client_output.rs:46-75 | A console writer confirms no more than the console took, and on success exactly that; its outcome is remembered. |
| `ConsoleWorkers.ConsoleWorker.Leave` | crates/et-bin/src/client_output.rs:719-731 | A write error ends the worker and admission; the batch in hand stays accounted for. |
| `ConsoleWorkers.CompleteExactly` | crates/et-bin/src/client_output.rs:689-702 | The packets passed by the confirmation loop are exactly those whose end is within the delivered total. |
| `ConsoleWorkers.ConsoleWorker.MakeRoom` | crates/et-bin/src/client_output.rs:374-386 | Eviction drops the oldest packets of the queue, no more than needed. |
| `ConsoleWorkers.ConsoleWorker.TryWrite` | crates/et-bin/src/client_output.rs:324-407 | Each answer is tied to the state that calls for it; a reported error is reported once; an admitted packet, less a line an interrupt cut short, joins the queue behind exactly what eviction left, and nothing else changes. |
| `ConsoleWorkers.ConsoleWorker.Interrupt` | crates/et-bin/src/client_output_interrupt.rs:8-42 | Only what the filter keeps of the queued bytes is still to be written, as seen after the packets the writer owns, and the line to skip is remembered. |
| `ConsoleWorkers.RegroupedBytes` | crates/et-bin/src/client_output_interrupt.rs:22-32 | The kept bytes handed back to whole packets are exactly the queue afterwards, in no more packets. |
| `ConsoleWorkers.ConsoleWorker.CheckError` | crates/et-bin/src/client_output.rs:523-533 | An error is reported once. |
| `ConsoleWorkers.ConsoleWorker.TakeCursorReports` | crates/et-bin/src/client_output.rs:435-441 | The other thread may collect the count at any time without losing or repeating one. |
| `ConsoleWorkers.ConsoleWorker.SessionLoop` | crates/et-bin/src/client_output.rs:324-407 | Whatever the session loop does between two lock sections keeps the shared invariant, which ties the packets in line to the answers given, and takes back no answer. |
| `ConsoleWorkers.ConsoleWorker.Serve` | crates/et-bin/src/client_output.rs:324-407 | One request of the session is answered as the state calls for: an offer as its decision says, an interrupt by the filter, a collection and an error check by handing over; until an interrupt, the packets in line are those answered with admission, less whole ones discard mode evicted. |
| `ConsoleWorkers.ConsoleWorker.TakeBatch` | crates/et-bin/src/client_output.rs:643-672 | The whole queue becomes the batch and the stream has observed every packet of it. |
| `ConsoleWorkers.ConsoleWorker.Delivered` | crates/et-bin/src/client_output.rs:687-711 | Any sequence of delivery counts confirms exactly the packets complete so far, each once and in order. |
| `ConsoleWorkers.ConsoleWorker.ConfirmNext` | crates/et-bin/src/client_output.rs:695-701 | One packet is tracked and its request counted. |
| `ConsoleWorkers.ConsoleWorker.WriteAll` | crates/et-bin/src/client_output.rs:734-751 | It fails exactly when a write fails or brings nothing, with the error of that write, and otherwise delivers every byte of the batch. |
| `ConsoleWorkers.ConsoleWorker.FinishBatch` | crates/et-bin/src/client_output.rs:684-733 | A delivered batch leaves no packet unconfirmed. |
| `ConsoleWorkers.ConsoleWorker.Turn` | crates/et-bin/src/client_output.rs:635-732 | One turn writes at least what was queued when it began and wakes whoever waits for room, or ends the worker: exactly when it finds nothing queued or a write fails, and then with that error. |
| `ConsoleWorkers.ConsoleWorker.RunWriter` | crates/et-bin/src/client_output.rs:635-732 | Over every run beside the session loop and until an interrupt, console, batch in hand and queue are the packets the session was told are admitted, in order; discard mode leaves some out whole, and none while all would fit. A write that fails ends the worker; a session that asks for nothing more finds everything written after one turn, and the worker gone after two when it was stopped. |
| `ConsoleWorkers.ConsoleWorker.Conserved` | crates/et-bin/src/client_output.rs:635-732 | In every reachable state of the worker console, batch in hand and queue are the packets in line, and these are the ones answered with admission. |
| `ConsoleWorkers.ConsoleWorker.Drained` | crates/et-bin/src/client_output.rs:687-711 | With no batch in hand, mode tracker and request count are those of the written packets. |
| `ConsoleWorkers.ConsolesAgree` | crates/et-bin/src/client_output.rs:635-751 | A drained worker and a drained direct console given the same packets show the same bytes, modes and request count. |
| `ConsoleHelper.Protocol.Begin` | crates/et-bin/src/client_output.rs:821-823 | A frame too long for its length field is an input error; otherwise the exchange starts in step. |
| `ConsoleHelper.Protocol.Push` | crates/et-bin/src/client_output.rs:823-825 | The frame goes down the pipe in any pieces. |
| `ConsoleHelper.Protocol.ReadAck` | crates/et-bin/src/client_output.rs:826-850 | An acknowledgement of this helper is never invalid; the closing one comes with the whole frame on the console. |
| `ConsoleHelper.Protocol.ReadEof` | crates/et-bin/src/client_output.rs:828-830 | A dead helper is an error, never a success. |
| `ConsoleHelper.Protocol.Die` | crates/et-bin/src/client_output.rs:886-934 | The helper may end at any point without breaking what was acknowledged. |
| `ConsoleHelper.Protocol.ReadLength` | crates/et-bin/src/client_output.rs:892-898 | The helper reads the length the writer sent. |
| `ConsoleHelper.Protocol.ReadBody` | crates/et-bin/src/client_output.rs:899-901 | The helper has the frame the writer sent. |
| `ConsoleHelper.Protocol.Accept` | crates/et-bin/src/client_output.rs:902-910 | The console's buffer takes a piece of the next chunk. |
| `ConsoleHelper.Protocol.Flush` | crates/et-bin/src/client_output.rs:911-916 | Everything accepted is on the console before it is acknowledged. |
| `ConsoleHelper.Protocol.SendAck` | crates/et-bin/src/client_output.rs:917-923 | The count just flushed is acknowledged. |
| `ConsoleHelper.Protocol.SendFinal` | crates/et-bin/src/client_output.rs:925-931 | The frame is closed only when all of it was acknowledged. |
| `ConsoleHelper.Protocol.AckedIsFlushed` | crates/et-bin/src/client_output.rs:813-852 | In every reachable state acknowledged bytes are on the console. |
| `ConsoleHelper.Protocol.NeverStuck` | crates/et-bin/src/client_output.rs:813-852 | In every reachable state a writer in the middle of a frame waits for something that can happen. |
| `ConsoleHelper.Take` | crates/et-bin/src/client_output.rs:813-934 | Each step that can happen takes the two processes to the one next state, and one that cannot happens not. |
| `ConsoleHelper.Deliver` | crates/et-bin/src/client_output.rs:813-934 | With a helper that lives, a frame of any length ends up whole on the console and is reported written. |
| `ConsoleHelper.Run` | crates/et-bin/src/client_output.rs:886-934 | Over every schedule of the two processes the state is the one the schedule determines, reported frames and counted bytes are on the console, and no acknowledgement is ever found invalid. |
| `StaleOutputs.FilterAfterInterrupt` | crates/et-bin/src/client_output_interrupt.rs:60-88 | A packet is filtered exactly when it is terminal output that begins within the bytes queued at the interrupt. |
| `TerminalModes.TrackAppend` | crates/et-bin/src/client_terminal.rs:807-840 | Observing chunks one after another is observing their concatenation. |
| `TerminalModes.SkipToEscape` | crates/et-bin/src/client_terminal.rs:808-840 | Bytes without an escape change nothing outside a sequence, so skipping them is sound. |
| `TerminalModes.TerminalModeState.Observe` | crates/et-bin/src/client_terminal.rs:808-840 | The skipping scan computes the byte-by-byte automaton. |
| `TerminalModes.TrackFindsLastSwitch` | crates/et-bin/src/client_terminal.rs:807-845 | The flag is the direction of the last complete switch of the whole stream; the state is its longest unfinished switch. |
| `TerminalModes.CursorRequestFound` | crates/et-bin/src/client_terminal.rs:477-482 | A request is reported exactly when the packet contains one. |
| `TerminalStreams.RunAppend` | crates/et-core/src/output_interrupt.rs:179-251 | The byte automaton does not depend on chunk boundaries. |
| `TerminalStreams.SameRun` | crates/et-core/src/output_interrupt.rs:179-251 | States the shortcuts may confuse stay indistinguishable for ever. |
| `TerminalStreams.TerminalStream.Observe` | crates/et-core/src/output_interrupt.rs:179-251 | The scan with its shortcuts ends where the byte automaton does, up to indistinguishable states. |
| `TerminalStreams.StreamKnows` | crates/et-core/src/output_interrupt.rs:179-251 | About a whole stream without escapes: control mode exactly if some complete first token announced it, tmux's goodbye apart, and a response exactly if a finished line began one and none ended it since. |
| `TerminalStreams.IntroducerEnters` | crates/et-core/src/output_interrupt.rs:240-246 | The introducer at the start of a line enters control mode and is not part of the line. |
| `TerminalStreams.TerminatorLeaves` | crates/et-core/src/output_interrupt.rs:213-221 | The string terminator leaves control mode outside a response. |
| `TerminalStreams.FilterSame` | crates/et-core/src/output_interrupt.rs:287-350 | Indistinguishable states filter alike. |
| `TerminalStreams.TerminalStream.Filter` | crates/et-core/src/output_interrupt.rs:254-256 | What is kept are the lines `InterruptDecides` says, whole and in order; a cut pane line is reported exactly as `SkipsExactly` says. |
| `TerminalStreams.TerminalStream.FilterWalk` | crates/et-core/src/output_interrupt.rs:287-350 | The walk over the backlog computes the line-by-line selection. |
| `TerminalStreams.InterruptDecides` | crates/et-core/src/output_interrupt.rs:287-350 | For every line of every backlog whether an interrupt keeps it: lines of a started control line and of a response always; otherwise pane output never, other notifications always, and in control mode also other `%` lines, blank ones and the end of control mode. |
| `TerminalStreams.SkipsExactly` | crates/et-core/src/output_interrupt.rs:331-338 | The rest of a line is to be skipped if and only if the backlog ends inside pane output that is dropped. |
| `TerminalStreams.PaneLineIsDropped` | crates/et-core/src/output_interrupt.rs:319-340 | A line of pane output is dropped outside a response and a started control line. |
| `TerminalStreams.TwiceIntroducedIsKept` | crates/et-core/src/output_interrupt.rs:82-133 | Pane output behind two introducers is kept. |
| `TerminalStreams.SelectedAppend` | crates/et-core/src/output_interrupt.rs:319-340 | The lines kept come whole and in their order. |
| `TerminalStreams.LinesRejoin` | crates/et-core/src/output_interrupt.rs:319-319 | Splitting into lines loses nothing. |
| `TerminalStreams.TmuxIsValid` | crates/et-core/src/output_interrupt.rs:82-124 | The tmux vocabulary satisfies everything the proofs ask of it. |
| `ExitMarkers.StatusVerdictIsStatusLine` | crates/et-bin/src/local_mux.rs:271-284 | The local test at a position accepts exactly the status lines. |
| `ExitMarkers.VerdictIsFinal` | crates/et-bin/src/local_mux.rs:271-292 | Later bytes never change a decided candidate. |
| `ExitMarkers.UndecidedIsLast` | crates/et-bin/src/local_mux.rs:286-290 | No status line begins inside an undecided candidate, because the marker has no border. |
| `ExitMarkers.HeldBackStream` | crates/et-bin/src/local_mux.rs:286-300 | What is withheld holds no status line and is at most the marker and four bytes. |
| `ExitMarkers.ScanCarry` | crates/et-bin/src/local_mux.rs:258-300 | The scan over the carried bytes finds the first status line, or the first undecided candidate. |
| `ExitMarkers.ExitMarker.Consume` | crates/et-bin/src/local_mux.rs:258-303 | After every packet the outputs are the stream up to its first undecided candidate, or up to its first status line with that line's status. |
| `ExitMarkers.ConsumeAll` | crates/et-bin/src/local_mux.rs:258-303 | The outcome of any packets is the outcome of their concatenation. |
| `ExitMarkers.ShownUpToStatus` | crates/et-bin/src/local_mux.rs:258-303 | Up to the packet that brings the first status, what is shown is every byte before the first status line. |
| `ExitMarkers.ScanRestarts` | crates/et-bin/src/local_mux.rs:281-284 | What later packets show is what a new scan of them shows. |
| `ExitMarkers.OutcomeUnique` | crates/et-bin/src/local_mux.rs:258-303 | A stream has one outcome, so any two packetisations agree byte for byte. |
| `ExitMarkers.FirstStatusExtends` | crates/et-bin/src/local_mux.rs:271-284 | More output never unmakes the first status line. |
| `ExitMarkers.MarkerIsBorderless` | crates/et-bin/src/local_mux.rs:243-251 | The generated marker has no border whatever key it carries. |
| `ExitMarkers.QuotedCommandReadsBack` | crates/et-bin/src/local_mux.rs:252-257 | A shell reads the quoted command back unchanged. |
| `ExitMarkers.PrintedStatusIsRead` | crates/et-bin/src/local_mux.rs:252-257 | Every status a shell can print behind the marker is read as that status. |
| `ExitMarkers.EchoIsNoStatus` | crates/et-bin/src/local_mux.rs:261-262 | The echoed `printf` line is never taken for a status. |
| `Replay.BackedWriter.TrimConnected` | crates/et-core/src/backed_writer.rs:192-215 | A connected write drops a frame only if it is acknowledged and past the connected cap, or past the hard cap. |
| `Replay.BackedWriter.WritePacket` | crates/et-core/src/backed_writer.rs:145-230 | A packet is skipped exactly when a disconnected writer has no room, sent exactly when connected, and otherwise buffered; unless skipped it is the next frame of the log. |
| `Replay.BackedWriter.Recover` | crates/et-core/src/backed_writer.rs:231-249 | The answer to a peer is exactly the log from its position on, or which of the two errors applies. |
| `Replay.BackedWriter.RecoveryAlwaysPossible` | crates/et-core/src/backed_writer.rs:8-16 | A peer within the hard cap that lacks nothing it acknowledged can always recover. |
| `Replay.BackedWriter.Acknowledge` | crates/et-core/src/backed_writer.rs:261-296 | The position moves exactly to a plausible one; only acknowledged frames are dropped, down to the slack and no further; the counted backlog is every byte after the position if and only if the backup reached down to it. |
| `Replay.BackedWriter.CountNewest` | crates/et-core/src/backed_writer.rs:267-272 | The unacknowledged bytes are the true sizes of the frames after the position. |
| `Replay.BackedWriter.BacklogAfter` | crates/et-core/src/backed_writer.rs:261-303 | After an acknowledgement and any later packets the reported backlog is every byte after that position if and only if the backup still reached down to it when it was acknowledged. |
| `Replay.BacklogFallsShort` | crates/et-core/src/backed_writer.rs:176-229 | It does fall short: one packet beyond the hard cap, then an acknowledgement of nothing. |
| `Replay.BackedWriter.SlackKeep` | crates/et-core/src/backed_writer.rs:273-289 | The slack is at least the floor, within the packet and byte limits, and as large as they allow. |
| `Replay.BackedWriter.Revive` | crates/et-core/src/backed_writer.rs:313-329 | Reviving keeps the log and drops only what exceeds the byte cap. |
| `Replay.BackedWriter.Invalidate` | crates/et-core/src/backed_writer.rs:345-347 | Losing the transport loses no frame. |
| `Reconnect.BackedReader.PopLive` | crates/et-core/src/backed_reader.rs:227-269 | A frame is accepted exactly when it opens under the next nonce; a failure leaves the nonce alone. |
| `Reconnect.BackedReader.Pop` | crates/et-core/src/backed_reader.rs:217-225 | What is due comes out: the first replayed packet; else, of what arrived, the next frame if it opens, an error if it does not, nothing if nothing arrived or the transport is down. |
| `Reconnect.BackedReader.Revive` | crates/et-core/src/backed_reader.rs:284-304 | A catchup is taken whole exactly when all of it opens in turn; otherwise nothing happens. |
| `Reconnect.BackedReader.Invalidate` | crates/et-core/src/backed_reader.rs:315-320 | A lost transport drops undecoded bytes and keeps what was accepted. |
| `Reconnect.BackedReader.AuthenticatePeer` | crates/et-net/src/connection_recovery.rs:204-209 | The peer is proved exactly if what arrived, read by read, begins with the next frame; that packet and the rest of its read are put behind the catchup, not lost and not reordered. |
| `Reconnect.AcceptedNext` | crates/et-core/src/crypto.rs:350-363 | The only frame that opens next is the next frame written. |
| `Reconnect.CatchupInStep` | crates/et-core/src/backed_reader.rs:284-304 | A catchup that opens continues the written packets exactly. |
| `Reconnect.Session.WriteOne` | crates/et-net/src/connection.rs:250-281 | Writing extends the log by the packet or not at all. |
| `Reconnect.Session.ReadOne` | crates/et-net/src/connection.rs:116-123 | Reading gives exactly what is due, which is the next packet written or nothing. |
| `Reconnect.Session.TakeAck` | crates/et-core/src/backed_writer.rs:261-296 | An acknowledgement moves nothing but what the writer still backs up. |
| `Reconnect.Session.ArriveSome` | crates/et-core/src/backed_reader.rs:106-114 | What arrives is what the network made of the frames on the wire, behind what arrived before. |
| `Reconnect.Session.Prove` | crates/et-net/src/connection_recovery.rs:204-209 | Proving the peer succeeds exactly if what arrived begins with the next frame, and delivers nothing by itself. |
| `Reconnect.Session.TakeCatchup` | crates/et-net/src/connection_recovery.rs:116-143 | Any catchup the network presents is taken in step or not at all. |
| `Reconnect.Session.RunHandshake` | crates/et-net/src/connection_recovery.rs:116-305 | A handshake both ends finish succeeds exactly when the position fits its field and the frames are held; then everything written has arrived. |
| `Reconnect.Session.SendCatchup` | crates/et-net/src/connection_recovery.rs:116-305 | A handshake that fails on the writer's side after its catchup puts exactly the frames from the position on the wire. |
| `Reconnect.Session.HandshakeAlwaysPossible` | crates/et-core/src/backed_writer.rs:8-16 | However the session went, the frames a reader within the hard cap needs are held. |
| `Reconnect.Session.DeliveredIsPrefix` | crates/et-core/src/backed_reader.rs:217-257 | Delivered packets are a prefix of the written ones. |
| `Reconnect.Session.DrainReplay` | crates/et-core/src/backed_reader.rs:217-225 | Reading on after a handshake hands out all that was written. |
| `Reconnect.Step` | crates/et-net/src/connection_recovery.rs:56-209 | Every event keeps the session invariant and moves log, wire, replay and delivered packets exactly as its answer says; a handshake's answer is decided by position and backup. |
| `Reconnect.FlowMoves` | crates/et-core/src/backed_reader.rs:217-257 | While frames arrive once and in order each write, arrival and read moves the counts of written, arrived and read by exactly what it carries. |
| `Reconnect.EnoughReads` | crates/et-core/src/backed_reader.rs:217-225 | Further reads give out one packet each until all that waited or arrived is given out. |
| `Reconnect.RunOn` | crates/et-net/src/connection.rs:116-281 | Any events from any state grow log and delivered packets by what the answers say; from a state in which the reader has accepted all that was written, on a transport that stays up and carries frames once and in order, as many packets are given out as the arrivals and reads allow. |
| `Reconnect.Run` | crates/et-net/src/connection_recovery.rs:56-209 | Over every run: what the reads gave out is a prefix of what the writes took, answer by answer, and recovery stays possible within the hard cap; on a transport that never broke and carries frames once and in order, enough reads give out all of it. |
| `Reconnect.RunRecovered` | crates/et-net/src/connection_recovery.rs:56-209 | Nothing is lost: after any run, a handshake that succeeds and an orderly transport from then on, enough reads give out everything ever written; within 64 MiB and 262144 packets the handshake succeeds. |
| `OwnedWrite.Connection.Prepare` | crates/et-net/src/connection.rs:250-305 | A refusal means the log is unchanged, otherwise it has the packet exactly once. It is refused exactly while a frame is unfinished, when a disconnected writer has no room, or when a probe finds the peer gone on Windows; elsewhere such a probe only disconnects. |
| `OwnedWrite.Connection.WritePacketOwned` | crates/et-net/src/connection.rs:222-248 | `Ok` and `ReplayOwned` mean the log took the packet, `BeforeReplay` that it did not; which of them is decided by the probe, the room and the write, as answered. |
| `OwnedWrite.Connection.StartWritePacketOwned` | crates/et-net/src/connection_pending.rs:157-175 | The same contract when the frame is only started; it stays unfinished exactly if the kernel took part of it. |
| `OwnedWrite.Connection.AdvanceWrite` | crates/et-net/src/connection_pending.rs:242-271 | The kernel is asked exactly while a frame is unfinished; what it answers decides whether the frame is out, still unfinished, or the transport gone. The log is untouched. |
| `OwnedWrite.Connection.Reconnect` | crates/et-net/src/connection_recovery.rs:68-79 | A reconnect leaves the log alone. |
| `OwnedWrite.RecoverTransport` | crates/et-bin/src/client_terminal.rs:739-773 | One call submits only size reports, admits at most one, and none unless asked and recovered. It attempts, asks for the size and reports it in that order; it fails exactly on a fatal attempt or a refusal no reconnect mends, is over exactly when the session ended, and tries again exactly when the transport was lost. |
| `OwnedWrite.RecoverOnce` | crates/et-bin/src/client_terminal.rs:739-773 | The same for a single attempt. |
| `OwnedWrite.WriteOwnedWithPolicy` | crates/et-bin/src/client_terminal.rs:614-656 | `ExactPlaintext` is in the log exactly once on success and at most once otherwise; after its first submission a replaceable size is never submitted again; each recovered transport admits at most one size report. It fails exactly when the last thing done was a refusal no reconnect mends or a fatal attempt, and is over exactly when the session ended; nothing is done after either. |
| `OwnedWrite.TryOnce` | crates/et-bin/src/client_terminal.rs:614-656 | One submission and the recovery it calls for, with the same verdicts. |
| `LocalQueue.Chunks` | crates/et-bin/src/local_session.rs:301-312 | Input is cut into non-empty chunks of at most 16 KiB that concatenate to it. |
| `LocalQueue.Outbound.PushBack` | crates/et-bin/src/local_session.rs:415-417 | A produced packet is queued last. |
| `LocalQueue.Outbound.Input` | crates/et-bin/src/local_session.rs:301-312 | Input becomes the packets of its chunks, in order, behind what is queued. |
| `LocalQueue.Outbound.PushProbe` | crates/et-bin/src/local_session.rs:949-962 | A keep-alive goes first and disturbs no data. |
| `LocalQueue.Outbound.Stop` | crates/et-bin/src/local_session.rs:527-537 | Stopping drops the queue, once. |
| `LocalQueue.Outbound.Send` | crates/et-bin/src/local_session.rs:1157-1179 | The packet is in the log, or handed back with the transport down and the log unchanged, or the session fails, each exactly as the connection answered; forwarded data and terminal output are sent unprobed, everything else probed. |
| `LocalQueue.Outbound.DrainPending` | crates/et-bin/src/local_session.rs:963-975 | What is submitted is the queue, front first; what the transport took is off it and a packet it never took is back at its head; a free transport afterwards means the queue is empty, and it fails exactly on a refusal for good. |
| `LocalQueue.Outbound.ForwardOne` | crates/et-bin/src/local_session.rs:976-1001 | A packet of the forwarder is submitted next, and waits first in the queue exactly if the transport never took it. |
| `LocalQueue.Outbound.DrainForwarder` | crates/et-bin/src/local_session.rs:976-1001 | Forwarding packets are taken only when nothing waits, at most as many as allowed and until the forwarder has no more; each is submitted in turn, and one that could not be sent goes first. |
| `LocalQueue.Outbound.Begin` | crates/et-bin/src/local_session.rs:943-975 | A started frame is finished first; on a free transport a wanted probe goes ahead of the queue, but not once the session is stopping. |
| `LocalQueue.Outbound.Pump` | crates/et-bin/src/local_session.rs:943-1021 | What a turn submits is the front of one queue in this order: the probe, what was queued, what the forwarder handed out, the acknowledgement; what is left of that queue is pending afterwards, and on a free transport nothing is. A stopping session neither probes, forwards nor acknowledges. |
| `LocalQueue.Outbound.SendAck` | crates/et-bin/src/local_session.rs:1002-1021 | A volume acknowledgement disturbs no data; it waits first exactly if the transport never took it. |
| `LocalQueue.Handle` | crates/et-bin/src/local_session.rs:943-1021 | Each event produces what it should and nothing else; a turn submits the front of that one queue. |
| `LocalQueue.Run` | crates/et-bin/src/local_session.rs:943-1021 | Over every run until it stops or fails, the data of log and queue are what the events produced and the forwarder handed out, in that order; it fails exactly when the connection refuses a packet for another reason than its own end. |
| `Passengers.NoneAdmittedBeforeOwnStatus` | crates/et-bin/src/local_session.rs:446-459 | In every run of the shell automaton, between the admission of a marked command and the next admission, that command's own status line was printed. |
| `Passengers.EveryEndIsEarned` | crates/et-bin/src/local_session.rs:581-599 | In every run of the shell automaton each end belongs to the admission before it; its status is 255 exactly if a failure came in between and otherwise that of the command's own line printed since, and then everything shown since was flushed. |
| `Passengers.Passenger.Receive` | crates/et-bin/src/local_session.rs:154-170 | Output is scanned for the status even when nobody reads it. What was flushed and is queued is exactly what the scan shows of all that was printed; an overflow queues nothing and is reported exactly when that does not fit. |
| `Passengers.LatePacketIsShown` | crates/et-bin/src/local_session.rs:154-170 | A packet printed after the status line's own is shown. |
| `Passengers.Passenger.Scan` | crates/et-bin/src/local_session.rs:155-162 | The marker gives out what the scan shows of this packet, and its status when it ends. |
| `Passengers.Passenger.Fail` | crates/et-bin/src/local_session.rs:171-181 | A failed command keeps the shell until its status; a failed terminal is over with 255. |
| `Passengers.Passenger.Orphan` | crates/et-bin/src/local_session.rs:449-454 | An orphaned command is still awaited. |
| `LocalSessions.Runtime.Accept` | crates/et-bin/src/local_session.rs:313-334 | A new peer gets the next number, which no peer or passenger ever had, and is greeted unless it is a control peer; it is turned away exactly when there are too many peers or no number is left. |
| `LocalSessions.Runtime.FlushPeer` | crates/et-bin/src/local_session.rs:347-349 | Flushing moves bytes from the front of a peer's replies to its socket. |
| `LocalSessions.Runtime.Tell` | crates/et-bin/src/local_session.rs:84-95 | An answer is queued whole behind the others, or the peer that does not read is lost. |
| `LocalSessions.AnswersAsBytes` | crates/et-bin/src/local_mux.rs:10-41 | The four answers on the wire: length, opcode and words in order. |
| `LocalSessions.Runtime.RequestSession` | crates/et-bin/src/local_session.rs:498-522 | A request is noted exactly when the input queue has room, and otherwise refused. |
| `LocalSessions.Runtime.OpenSession` | crates/et-bin/src/local_session.rs:365-398 | The shell goes to a peer if and only if it is free, there is a shell, the queue has room and so has the peer for its answer; a command is then produced wrapped in a fresh marker; otherwise the peer is refused or lost. |
| `LocalSessions.Runtime.Stop` | crates/et-bin/src/local_session.rs:527-537 | Stopping reads no more input and leaves the shell with its passenger. |
| `LocalSessions.Runtime.LosePeer` | crates/et-bin/src/local_session.rs:446-459 | A lost peer's command keeps the shell, a lost peer's terminal frees it. |
| `LocalSessions.Runtime.Unseat` | crates/et-bin/src/local_session.rs:446-459 | A passenger that loses its peer: a command stays as an orphan, a terminal leaves. |
| `LocalSessions.Runtime.Output` | crates/et-bin/src/local_session.rs:608-615 | What the shell prints reaches the passenger whole and in order; the passenger fails exactly when what it is to be shown does not fit. |
| `LocalSessions.Runtime.PumpPassenger` | crates/et-bin/src/local_session.rs:538-602 | One exchange: what the peer takes is flushed, the size and the input it gives are produced, and the shell is freed if and only if then the status is known and all output is out; the status is 255 exactly if the passenger failed, and its peer is told exactly that. |
| `LocalSessions.Runtime.Serve` | crates/et-bin/src/local_session.rs:542-580 | The exchange with the passenger that has the shell, and the events it adds to the run. |
| `LocalSessions.Runtime.Finish` | crates/et-bin/src/local_session.rs:581-599 | The EXIT sent carries the peer's number and its own command's status, and 255 exactly if it failed. |
| `LocalSessions.Runtime.CloseWith` | crates/et-bin/src/local_session.rs:589-599 | The EXIT is the last answer of the peer and names its own session; a peer without room for it is closed without one. |
| `LocalSessions.StatusEarned` | crates/et-bin/src/local_session.rs:582-588 | A known status is at most 255 and backed by the passenger's own status line, or by its failure. |
| `LocalSessions.Exchange` | crates/et-bin/src/local_session.rs:542-580 | Input is read only before the status is known; the passenger fails exactly when due output could not be written or due input not read, and then a terminal is over and a command is not. |
| `LocalSessions.Act` | crates/et-bin/src/local_session.rs:335-602 | Each action has its effect exactly when the state lets it happen. |
| `LocalSessions.RunLocal` | crates/et-bin/src/local_session.rs:335-602 | Over every run: one open attached peer at most; no admission after a marked command before its own status; everything printed is heard in order; every session that ends has the status it earned and, unless it failed or lost its reader, was given exactly what the scan shows of what was printed since its admission; so far has the one that has the shell; what a peer received and has queued are its answers, and an EXIT among them is the last and carries the status its own session earned, 255 exactly if it failed. |
| `Framing.Be32` | crates/et-bin/src/local_ipc.rs:430-435 | A word reads back. |
| `Framing.BuiltFramesAreLegal` | crates/et-bin/src/local_ipc.rs:309-320 | The builders make frames the reader accepts exactly for payloads of legal length. |
| `Framing.FrameReader.Poll` | crates/et-bin/src/local_ipc.rs:274-306 | A frame comes out whole, or stays in progress with nothing lost; no byte past it is taken, and only an illegal length is invalid data. A poll ends exactly on the read that calls for it: the end of the stream, an error, nothing to read; a begun frame times out when five seconds have passed since the frame before it. |
| `Framing.FrameReader.Fill` | crates/et-bin/src/local_ipc.rs:290-294 | A read never asks past the current frame. |
| `Framing.FirstFrame` | crates/et-bin/src/local_ipc.rs:258-306 | A stream of legal frames has one first frame. |
| `Framing.ReadFrames` | crates/et-bin/src/local_ipc.rs:258-306 | For every split of a stream of legal frames the reader yields exactly those frames, one a poll as long as every read brings bytes; it fails only as its last read says, never on their contents, and holds less than a header and `MAX_FRAME`. |
| `MuxCodec.Decoder.ReadWord` | crates/et-bin/src/local_ipc.rs:409-416 | A word is taken off the front, or nothing is. |
| `MuxCodec.Decoder.ReadString` | crates/et-bin/src/local_ipc.rs:417-425 | A string is its length and exactly that many bytes. |
| `MuxCodec.Decoder.ReadEndpoint` | crates/et-bin/src/local_mux.rs:46-62 | An endpoint is a UTF-8 name and a port word that is a port or "none". |
| `MuxCodec.ValidUtf8Exactly` | crates/et-bin/src/local_mux.rs:46-62 | A name passes the UTF-8 test if and only if it is the encoding of a sequence of Unicode scalar values. |
| `MuxCodec.Forward` | crates/et-bin/src/local_mux.rs:42-73 | The decoder accepts exactly the well-formed bodies and yields what they denote. |
| `MuxCodec.ForwardBody` | crates/et-bin/src/local_mux.rs:74-89 | A request without both endpoints has no body; otherwise the body is the documented layout. |
| `MuxCodec.ForwardRoundTrip` | crates/et-bin/src/local_mux.rs:42-89 | Decoding an encoded request gives it back if and only if it is normal. |
| `MuxCodec.ParsedEndpointIsNormal` | crates/et-bin/src/local_mux.rs:46-62 | Everything decoded is normal. |
| `MuxCodec.MinusTwoIsNoPort` | crates/et-bin/src/local_mux.rs:81-86 | Port -2 collides with the word for no port. |
| `History.History.Append` | crates/et-bin/src/local_control.rs:39-51 | The log grows by the bytes; the oldest chunks go exactly as far as the capacity demands, and base plus what is held is the head. |
| `History.History.Read` | crates/et-bin/src/local_control.rs:52-73 | The reply is the head, the gap flag and the units of the unbounded log from the cursor or the oldest one held. |
| `History.PollOnce` | crates/et-bin/src/local_control.rs:52-73 | A client reads head, flag and data back from the reply. |
| `History.Follow` | crates/et-bin/src/local_control.rs:39-73 | Under any interleaving of appends and reads the log is what was appended, and a reader that feeds back the head sees every surviving unit from its start once and in order, and is told of a gap exactly when units were lost. |
| `EnvironmentGlob.PatternMatches` | crates/et-bin/src/client_environment.rs:83-105 | The backtracking loop terminates and, on names without `*`, computes the recursive semantics for every pattern. |
| `EnvironmentGlob.ScanDecidesMatches` | crates/et-bin/src/client_environment.rs:83-105 | Backtracking to the last star alone loses no match. |
| `EnvironmentGlob.MatcherCorrectExactlyOnStarFreeNames` | crates/et-bin/src/client_environment.rs:86-92 | The matcher is right on every pattern if and only if the name has no `*`. |
| `EnvironmentGlob.AnyPatternMatches` | crates/et-bin/src/client_environment.rs:70-72 | Some pattern matches under the reference semantics. |
| `EnvironmentGlob.PortableNameReads` | crates/et-bin/src/client_environment.rs:27-31 | A name is portable exactly if it consists of letters, digits and underscores and does not start with a digit. |
| `EnvironmentGlob.SortedIsSorted` | crates/et-bin/src/client_environment.rs:75-79 | The order is by locale priority, then name, and drops and repeats nothing. |
| `EnvironmentGlob.EffectiveLocaleFirst` | crates/et-bin/src/client_environment.rs:40-47 | `LC_ALL`, then `LC_CTYPE`, then `LANG` are ahead of every other variable. |
| `EnvironmentGlob.OthersByName` | crates/et-bin/src/client_environment.rs:75-79 | The others compete by name, the first difference deciding. |
| `EnvironmentGlob.SelectSendEnvironment` | crates/et-bin/src/client_environment.rs:60-81 | Exactly the portable, bounded variables some pattern means, the effective locale first. |
| `Protobuf.VarintLen` | crates/et-bin/src/client_environment.rs:203-210 | The shift loop counts the bytes of the varint. |
| `Protobuf.VarintReadsBack` | crates/et-bin/src/client_environment.rs:197-210 | The varint encoding whose bytes are counted is a real one: it reads back. |
| `Protobuf.LenFieldReadsBack` | crates/et-bin/src/client_environment.rs:197-201 | A length-delimited field reads back with its tag and contents. |
| `EnvironmentBudget.CostsAreTrue` | crates/et-bin/src/client_environment.rs:133-153 | The running length is the size of the encoded packet. |
| `EnvironmentBudget.ReservedIsEnough` | crates/et-bin/src/client_environment.rs:147-151 | Reserved lengths cover every value up to them. |
| `EnvironmentBudget.EncodedStringFieldLen` | crates/et-bin/src/client_environment.rs:197-201 | The field length saturates instead of wrapping. |
| `EnvironmentBudget.BoundedLocaleEnvironment` | crates/et-bin/src/client_environment.rs:127-172 | Too long already reports the length; otherwise exactly the first-of-name, unreserved candidates there was room for when their turn came. |
| `EnvironmentBudget.GreedyChoiceIsUnique` | crates/et-bin/src/client_environment.rs:157-171 | The rules of the selection have one outcome, so they determine the result. |
| `EnvironmentBudget.SelectionIsSound` | crates/et-bin/src/client_environment.rs:127-172 | With the reserved variables the packet is at most 64 KiB and 128 names, all names distinct. |
| `EnvironmentBudget.BoundJumphostLocale` | crates/et-bin/src/client_environment.rs:174-195 | For all inputs: the longest prefix whose modelled packet fits, or the length when none does. |
| `EnvironmentBudget.ModeledIsPacket` | crates/et-bin/src/client_environment.rs:178-194 | For distinct names the payload does not use, the modelled packet is the packet of the prefix. |
| `EnvironmentBudget.EntryReadsBack` | crates/et-bin/src/client_environment.rs:174-195 | A decoder finds the variable in the map entry whose size is counted. |
| `EnvironmentBudget.TrimJumphost` | crates/et-bin/src/client_environment.rs:174-195 | For such names: the longest prefix that fits beside the payload, an error exactly when the payload alone does not fit. |
| `EnvironmentBudget.SelectionSuitsTrim` | crates/et-bin/src/client.rs:243-258 | What the budget selects is what the trim may be given. |
| `EnvironmentBudget.FreshNamesSuffice` | crates/et-bin/src/client_environment.rs:174-195 | For distinct, unused names the code keeps exactly the longest prefix that fits. |
| `EnvironmentBudget.UsedNameBreaks` | crates/et-bin/src/client_environment.rs:190-193 | With a name the payload uses the trim reports success for a payload that does not fit. |
| `EnvironmentBudget.RepeatedNameBreaks` | crates/et-bin/src/client_environment.rs:190-193 | With a name given twice the trim keeps a prefix that does not fit. |
| `EnvironmentBudget.TrimRightExactlyForFreshNames` | crates/et-bin/src/client_environment.rs:174-195 | When the names themselves fit, the trim is right for all values if and only if the names are distinct and unused. |
| `Keepalive.ProbeAfter` | crates/et-bin/src/keepalive_clock.rs:56-67 | The delay before a probe is one interval and a second, but leaves a second of two intervals for the reply, and is never less than one interval. |
| `Keepalive.KeepaliveClock.constructor` | crates/et-bin/src/keepalive_clock.rs:56-67 | Probe delay and reply window add up to two intervals. |
| `Keepalive.KeepaliveClock.Alive` | crates/et-bin/src/keepalive_clock.rs:70-73 | A sign of life restarts the interval. |
| `Keepalive.KeepaliveClock.ProbeSent` | crates/et-bin/src/keepalive_clock.rs:76-79 | A probe opens its reply window and is no sign of life. |
| `Keepalive.KeepaliveClock.EarliestVerdict` | crates/et-bin/src/keepalive_clock.rs:82-90 | The earliest verdict is one reply window after the probe; two intervals are guaranteed if and only if the probe was not sent early. |
| `Keepalive.KeepaliveClock.WakesExactly` | crates/et-bin/src/keepalive_clock.rs:97-104 | The loop is woken from exactly the first moment on at which it could give a verdict or, if it may write, send a probe. |
| `Keepalive.PumpClock.Turn` | crates/et-bin/src/client_terminal_loop.rs:902-917 | A verdict comes exactly when nothing was read, the clock says dead and no data waits; one turn of the deadline clock is one beat of last sign of life and outstanding probe. |
| `Keepalive.PumpClock.Listen` | crates/et-bin/src/client_terminal_loop.rs:902-917 | What was read or recovered after a verdict is a sign of life and clears the probe. |
| `Keepalive.PumpClock.SendProbe` | crates/et-bin/src/client_terminal_loop.rs:1045-1083 | A probe is sent exactly when it is due, or the last one is overdue while output is held, and no write is pending; a write that recovers restarts the clock first. |
| `Keepalive.ProbeExactly` | crates/et-bin/src/client_terminal_loop.rs:1045-1083 | A turn sends a probe if and only if no write is pending and either none is outstanding and the quiet time is over, or the outstanding one is overdue and output is held. |
| `Keepalive.HeldTurnProbesAgain` | crates/et-bin/src/client_terminal_loop.rs:1045-1083 | Between a probe and a verdict on it, no writable turn with held output came after the reply window: it would have probed again. |
| `Keepalive.ProbeComesLate` | crates/et-bin/src/keepalive_clock.rs:56-90 | An outstanding probe was sent a full quiet time after every packet read and every recovery by a verdict before it, whether its write recovered or not. |
| `Keepalive.VerdictExactly` | crates/et-bin/src/client_terminal_loop.rs:1150-1166 | A turn declares the link dead if and only if it is reading, nothing was read or waits, and an earlier probe has gone unanswered for its reply window. |
| `Keepalive.NoFalseVerdict` | crates/et-bin/src/client_terminal_loop.rs:1150-1166 | A verdict comes two intervals after every earlier sign of life and a reply window after every earlier probe. |
| `Keepalive.Run` | crates/et-bin/src/client_terminal_loop.rs:1150-1166 | Over every run with monotone time, one answer a turn: a verdict exactly when a probe's reply is overdue and nothing was read or waits, two intervals after every packet read and every recovery by a verdict, and a reply window after every probe, a recovering one included; a probe exactly when it is called for, so that no verdict rests on output that was held. |
| `Keepalive.Punctual` | crates/et-bin/src/keepalive_clock.rs:97-104 | A reading loop that acts at each `wake_at` gives its verdict exactly at two intervals. |
| `Keepalive.VerdictAfterRecoveringProbe` | crates/et-bin/src/client_terminal_loop.rs:225-232 | The reply window is exact for a recovery made by a probe's own write: a silent peer is declared dead then. |
| `DeliveryGates.DeliveryGate.Observe` | crates/et-bin/src/delivery_gate.rs:60-100 | Producers pause exactly when the backlog is full, not let through and not waited out; stalled and released are never both set. |
| `DeliveryGates.ReleasedOnTime` | crates/et-bin/src/delivery_gate.rs:56-58 | `release_at` is the first moment an unchanged full backlog is let through. |
| `DeliveryGates.PauseWithoutPatience` | crates/et-bin/src/delivery_gate.rs:42-101 | With no patience a full backlog is paused for one answer and let through at the next. |
| `DeliveryGates.Run` | crates/et-bin/src/delivery_gate.rs:42-101 | Over every run a stretch of pauses at one acknowledgement is shorter than the patience window, and a release lasts until a larger acknowledgement or a disconnect. |

## Left out

- `Connection` beyond admission, replay and recovery: sockets, timeouts, deadlines and the reset recovery that starts a new epoch.
- Encryption: a sealed frame is a symbol that opens under its own nonce only; the clear header byte is taken as sent.
- Reconnect.BackedReader.PopLive: frames arrive whole, because reassembly from bytes is the same problem as the local frame reader's; adaptive read sizes are not modelled.
- Reconnect.Session.RunHandshake: one direction of the exchange; the other is the same machine with the roles swapped.
- OwnedWrite.RecoverTransport: a call that retries for ever is covered by its finite beginnings.
- LocalQueue.Run: nothing is claimed after `stop`, which drops the queue on purpose.
- LocalSessions.Runtime.PumpPassenger: the closing phase of `run`, where a passenger without a status is given one, is not modelled.
- Passengers.Passenger.Scan: when a command prints several lines with its own marker before its output is flushed, the last one counts, as in the code.
- Framing.FrameReader.Poll: the clock is read once a poll, and interrupted reads end a poll after a bounded number instead of never.
- OwnedWrite.Connection.AdvanceWrite: deadlines of a started frame are part of the transport's answer.
- ConsoleWorkers.ConsoleWorker.RunWriter: after an interrupt the packets in line are no longer compared with those admitted; `ConsoleWorkers.ConsoleWorker.Interrupt` says what is left.
- DirectConsoles.RunSession: the same after an interrupt; `DirectConsoles.DirectConsole.Interrupt` says what is left.
- ConsoleWorkers.ConsoleWorker.SessionLoop: lock sections are atomic; memory ordering and wakeups are not modelled.
- DirectConsoles.DirectConsole.Finish: the drain timeout is a finite list of wakeups.
- History.History.Append: counts are unbounded; the 64-bit head is assumed not to overflow in `History.Follow`.
- Keepalive.PumpClock.Turn: times are integers without overflow; the Windows polling loop is not modelled.
- `promote_control` and `may_contain_control` of the terminal stream: not part of the client's output path.
- Poll sets, descriptors, signals, file permissions, peer credentials, SSH bootstrap, DNS, daemons, HTM, key mapping and error texts: plumbing or easy members.
