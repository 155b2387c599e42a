/** Server output that was already in the socket when the user typed an interrupt (`client_output_interrupt.rs`). */
module StaleOutputs {
  import opened Bytes
  import opened Replay

  const FLUSH_THRESHOLD := 64 * 1024
  const TERMINAL_BUFFER: byte := 1

  /** A packet on the transport: length prefix, header, payload and MAC. */
  function OnTransport(packet: Packet): nat
  {
    4 + (HEADER_LEN + |packet.payload|) + MAC_LEN
  }

  function TransportBytes(packets: seq<Packet>): nat
  {
    if packets == [] then 0
    else TransportBytes(packets[..|packets| - 1]) + OnTransport(packets[|packets| - 1])
  }

  class StaleOutput {
    var bytes: nat

    constructor ()
      ensures bytes == 0
    {
      bytes := 0;
    }

    method Interrupted(unread: nat)
      modifies this
      ensures bytes == if unread >= FLUSH_THRESHOLD then unread else 0
    {
      bytes := if unread >= FLUSH_THRESHOLD then unread else 0;
    }

    method Read(packet: Packet) returns (stale: bool)
      modifies this
      ensures stale <==> old(bytes) > 0 && packet.header == TERMINAL_BUFFER
      ensures bytes == if old(bytes) > OnTransport(packet) then old(bytes) - OnTransport(packet) else 0
    {
      if bytes == 0 {
        return false;
      }
      var wire := OnTransport(packet);
      bytes := if bytes > wire then bytes - wire else 0;
      stale := packet.header == TERMINAL_BUFFER;
    }
  }

  /**
    Whatever is read after an interrupt: a packet is filtered exactly when it
    is terminal output that begins within the bytes that were queued then.
    Nothing that begins behind them is touched, and without a backlog of the
    threshold nothing is at all.
   */
  method FilterAfterInterrupt(stale: StaleOutput, unread: nat, packets: seq<Packet>) returns (filtered: seq<bool>)
    modifies stale
    ensures |filtered| == |packets|
    ensures forall k | 0 <= k < |packets| ::
      filtered[k] <==>
        && unread >= FLUSH_THRESHOLD && TransportBytes(packets[..k]) < unread
        && packets[k].header == TERMINAL_BUFFER
  {
    hide TransportBytes, OnTransport;
    stale.Interrupted(unread);
    filtered := [];
    NothingRead(packets);
    for i := 0 to |packets|
      invariant |filtered| == i && stale.bytes == Left(unread, TransportBytes(packets[..i]))
      invariant forall k | 0 <= k < i ::
        filtered[k] <==>
          && unread >= FLUSH_THRESHOLD && TransportBytes(packets[..k]) < unread
          && packets[k].header == TERMINAL_BUFFER
    {
      ReadOneMore(packets, i);
      var hit := stale.Read(packets[i]);
      filtered := filtered + [hit];
    }
  }

  /** What is left of the budget once `used` transport bytes were read. */
  function Left(unread: nat, used: nat): nat
  {
    if unread >= FLUSH_THRESHOLD && unread > used then unread - used else 0
  }

  lemma NothingRead(packets: seq<Packet>)
    ensures TransportBytes(packets[..0]) == 0
  {
  }

  lemma ReadOneMore(packets: seq<Packet>, i: nat)
    requires i < |packets|
    ensures TransportBytes(packets[..i + 1]) == TransportBytes(packets[..i]) + OnTransport(packets[i])
  {
    assert packets[..i + 1][..i] == packets[..i];
  }
}
