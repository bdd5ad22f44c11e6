/** UdpReceiver: raw UDP telemetry, one 8-byte ASCII payload per datagram, logged to udp_protocol_receiver.json. */
module Udp {
  import opened Wrappers
  import opened Wire
  import opened JsonLog
  import opened Signals

  const LogPath: string := "udp_protocol_receiver.json"

  /** Size of the receive buffer handed to recvfrom. */
  const BufferSize: nat := 8

  /** What one recvfrom on the socket yields: an error, or one datagram (of any length). */
  datatype UdpRead = RecvError | Datagram(bytes: seq<byte>)

  /** recvfrom copies at most the buffer size; the rest of a longer datagram is discarded. */
  function BytesRead(bytes: seq<byte>): (n: nat)
    ensures n <= BufferSize && n <= |bytes|
    ensures n == BufferSize <==> |bytes| >= BufferSize
  {
    if |bytes| < BufferSize then |bytes| else BufferSize
  }

  /** readUdpPacket, as the sequence of events it produces. */
  function UdpEvents(d: UdpRead): (ev: seq<Event>)
    ensures d.RecvError? ==> ev == [Warning(ReadFailed)]
    ensures d.Datagram? && |d.bytes| < BufferSize ==> ev == [Warning(Incomplete(|d.bytes|))]
    ensures Emits(ev) <==> d.Datagram? && |d.bytes| >= BufferSize && DecodePayload(d.bytes[..8]).Some?
    ensures Emits(ev) ==> ev == Accepted(DecodePayload(d.bytes[..8]).value)
    ensures !Emits(ev) ==> |ev| == 1 && ev[0].Warning? && LoggedEntry(ev) == None
  {
    match d
    case RecvError => [Warning(ReadFailed)]
    case Datagram(bytes) =>
      var n := BytesRead(bytes);
      if n != BufferSize then
        var ev := [Warning(Incomplete(n))];
        assert !Emits(ev) by {
          forall i | 0 <= i < |ev| ensures !(ev[i].SpeedReceived? || ev[i].RpmReceived?) { }
        }
        ev
      else
        DecodeEvents(bytes[..8])
  }

  /**
   * The UDP receiver holds the socket bound to ip:port (creation and bind
   * are not modelled: their failure is fatal) and shares the log directory.
   */
  class UdpReceiver {
    const store: FileStore<Entry>
    const ip: string
    const port: int
    var trace: seq<Event>

    /** Binds the socket, then heals udp_protocol_receiver.json. */
    constructor (store: FileStore<Entry>, ip: string, port: int)
      modifies store
      ensures this.store == store && this.ip == ip && this.port == port && trace == []
      ensures store.files == Healed(old(store.files), store.readOnly, store.unreadable, LogPath)
    {
      this.store := store;
      this.ip := ip;
      this.port := port;
      trace := [];
      new;
      var _ := store.Initialise(LogPath);
    }

    /** readUdpPacket: one datagram per readiness notification. */
    method ReadUdpPacket(d: UdpRead)
      modifies this, store
      ensures trace == old(trace) + UdpEvents(d)
      ensures store.files == Persisted(old(store.files), store.readOnly, store.unreadable, LogPath, UdpEvents(d))
    {
      var ev := UdpEvents(d);
      trace := trace + ev;
      match LoggedEntry(ev) {
        case Some(e) => store.Append(LogPath, e);
        case None =>
      }
    }
  }

  /** A datagram longer than the buffer is not dropped: its first eight bytes are decoded. */
  lemma OversizedDatagramIsTruncated(bytes: seq<byte>)
    requires |bytes| > BufferSize
    ensures UdpEvents(Datagram(bytes)) == DecodeEvents(bytes[..8])
  {
  }

  /** A datagram shorter than eight bytes is always dropped with a warning, whatever it holds. */
  lemma ShortDatagramDropped(bytes: seq<byte>)
    requires |bytes| < BufferSize
    ensures UdpEvents(Datagram(bytes)) == [Warning(Incomplete(|bytes|))]
    ensures !Emits(UdpEvents(Datagram(bytes)))
  {
  }
}
