/** CanReceiver: SocketCAN frames; only identifier 0x64 carries the signal payload, logged to can_protocol_receiver.json. */
module Can {
  import opened Wrappers
  import opened Wire
  import opened Frames
  import opened JsonLog
  import opened Signals

  const LogPath: string := "can_protocol_receiver.json"

  /** The identifier of the speed/RPM frame. */
  const SignalId: uint32 := 0x64

  /** What one read on the raw CAN socket yields: an error, or a byte count and the frame buffer. */
  datatype CanRead = ReadError | ReadBytes(nbytes: nat, frame: CanFrame)

  /** readCanFrame, as the sequence of events it produces. The data length code is not consulted. */
  function CanEvents(r: CanRead): (ev: seq<Event>)
    ensures r.ReadError? ==> ev == [Warning(ReadFailed)]
    ensures r.ReadBytes? && r.nbytes < CanFrameSize ==> ev == [Warning(Incomplete(r.nbytes))]
    ensures r.ReadBytes? && r.nbytes >= CanFrameSize && r.frame.canId != SignalId ==> ev == []
    ensures Emits(ev) <==>
              (r.ReadBytes? && r.nbytes >= CanFrameSize && r.frame.canId == SignalId
               && DecodePayload(r.frame.data).Some?)
    ensures Emits(ev) ==> ev == Accepted(DecodePayload(r.frame.data).value)
    ensures !Emits(ev) ==> NoLogEvent(ev) && LoggedEntry(ev) == None
  {
    match r
    case ReadError => [Warning(ReadFailed)]
    case ReadBytes(n, frame) =>
      if n < CanFrameSize then
        var ev := [Warning(Incomplete(n))];
        assert !Emits(ev) by {
          forall i | 0 <= i < |ev| ensures !(ev[i].SpeedReceived? || ev[i].RpmReceived?) { }
        }
        ev
      else if frame.canId == SignalId then
        DecodeEvents(frame.data)
      else
        []
  }

  /** The CAN receiver holds the raw socket bound to one interface and shares the log directory. */
  class CanReceiver {
    const store: FileStore<Entry>
    const interfaceName: string
    var trace: seq<Event>

    /** Binds the socket to the interface, then heals can_protocol_receiver.json. */
    constructor (store: FileStore<Entry>, interfaceName: string)
      modifies store
      ensures this.store == store && this.interfaceName == interfaceName && trace == []
      ensures store.files == Healed(old(store.files), store.readOnly, store.unreadable, LogPath)
    {
      this.store := store;
      this.interfaceName := interfaceName;
      trace := [];
      new;
      var _ := store.Initialise(LogPath);
    }

    /** readCanFrame: one frame per readiness notification. */
    method ReadCanFrame(r: CanRead)
      modifies this, store
      ensures trace == old(trace) + CanEvents(r)
      ensures store.files == Persisted(old(store.files), store.readOnly, store.unreadable, LogPath, CanEvents(r))
    {
      var ev := CanEvents(r);
      trace := trace + ev;
      match LoggedEntry(ev) {
        case Some(e) => store.Append(LogPath, e);
        case None =>
      }
    }
  }

  /** A frame with another identifier leaves no trace at all: no signal, no log, not even a warning. */
  lemma OtherIdentifierIgnored(n: nat, frame: CanFrame)
    requires n >= CanFrameSize && frame.canId != SignalId
    ensures CanEvents(ReadBytes(n, frame)) == []
    ensures forall files, ro, ur :: Persisted(files, ro, ur, LogPath, CanEvents(ReadBytes(n, frame))) == files
  {
  }
}
