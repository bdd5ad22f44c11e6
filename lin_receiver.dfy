/** LinReceiver: typed messages read from the PLIN character device; frame 0x04 carries the payload, logged to lin_protocol_receiver.json. */
module Lin {
  import opened Wrappers
  import opened Wire
  import opened Frames
  import opened JsonLog
  import opened Signals

  const LogPath: string := "lin_protocol_receiver.json"

  /** The LIN frame identifier of the speed/RPM frame. */
  const SignalId: int := 0x04

  /** plin_msg.type: PLIN_MSG_FRAME, PLIN_MSG_OVERRUN, PLIN_MSG_WAKEUP, or any other driver code. */
  datatype LinMsgType = FrameMsg | OverrunMsg | WakeupMsg | OtherMsg(code: int)

  datatype LinMsg = LinMsg(msgType: LinMsgType, id: int, data: Payload)

  /** What one read on the device yields: an error, or a byte count and the message buffer. */
  datatype LinRead = ReadError | ReadBytes(nbytes: nat, msg: LinMsg)

  /** The events of a well-sized PLIN_MSG_FRAME message: always a debug line, then the payload's events for frame 0x04. */
  function FrameEvents(id: int, data: Payload): (ev: seq<Event>)
    ensures ev != [] && ev[0] == Debug(LinFrameSeen(id))
    ensures Emits(ev) <==> (id == SignalId && DecodePayload(data).Some?)
    ensures Emits(ev) ==> ev == [Debug(LinFrameSeen(SignalId))] + Accepted(DecodePayload(data).value)
    ensures !Emits(ev) ==> LoggedEntry(ev) == None && NoLogEvent(ev)
  {
    var seen := [Debug(LinFrameSeen(id))];
    SingleQuiet(Debug(LinFrameSeen(id)));
    if id == SignalId then
      var tail := DecodeEvents(data);
      ConcatQuiet(seen, tail);
      seen + tail
    else
      seen
  }

  /** readLinFrame, as the sequence of events it produces; `msgSize` is sizeof(struct plin_msg). */
  function LinEvents(r: LinRead, msgSize: nat): (ev: seq<Event>)
    ensures r.ReadError? ==> ev == [Warning(ReadFailed)]
    ensures r.ReadBytes? && r.nbytes != msgSize ==> ev == [Warning(Incomplete(r.nbytes))]
    ensures r.ReadBytes? && r.nbytes == msgSize ==> ev != [] && match r.msg.msgType {
      case FrameMsg => ev == FrameEvents(r.msg.id, r.msg.data)
      case OverrunMsg => ev == [Warning(LinOverrun)]
      case WakeupMsg => ev == [Debug(LinWakeup)]
      case OtherMsg(code) => ev == [Warning(LinUnsupported(code))]
    }
    ensures Emits(ev) <==>
              (r.ReadBytes? && r.nbytes == msgSize && r.msg.msgType == FrameMsg
               && r.msg.id == SignalId && DecodePayload(r.msg.data).Some?)
    ensures Emits(ev) ==> ev == [Debug(LinFrameSeen(SignalId))] + Accepted(DecodePayload(r.msg.data).value)
    ensures !Emits(ev) ==> LoggedEntry(ev) == None && NoLogEvent(ev)
  {
    match r
    case ReadError => SingleQuiet(Warning(ReadFailed)); [Warning(ReadFailed)]
    case ReadBytes(n, msg) =>
      if n != msgSize then
        SingleQuiet(Warning(Incomplete(n))); [Warning(Incomplete(n))]
      else
        match msg.msgType
        case FrameMsg => FrameEvents(msg.id, msg.data)
        case OverrunMsg => SingleQuiet(Warning(LinOverrun)); [Warning(LinOverrun)]
        case WakeupMsg => SingleQuiet(Debug(LinWakeup)); [Debug(LinWakeup)]
        case OtherMsg(code) => SingleQuiet(Warning(LinUnsupported(code))); [Warning(LinUnsupported(code))]
  }

  /** The LIN receiver holds the open device (/dev/plin0) and shares the log directory. */
  class LinReceiver {
    const store: FileStore<Entry>
    /** sizeof(struct plin_msg), fixed by the driver header. */
    const msgSize: nat
    var trace: seq<Event>

    /** Opens the device, then heals lin_protocol_receiver.json. */
    constructor (store: FileStore<Entry>, msgSize: nat)
      modifies store
      ensures this.store == store && this.msgSize == msgSize && trace == []
      ensures store.files == Healed(old(store.files), store.readOnly, store.unreadable, LogPath)
    {
      this.store := store;
      this.msgSize := msgSize;
      trace := [];
      new;
      var _ := store.Initialise(LogPath);
    }

    /** readLinFrame: one message per readiness notification. */
    method ReadLinFrame(r: LinRead)
      modifies this, store
      ensures trace == old(trace) + LinEvents(r, msgSize)
      ensures store.files == Persisted(old(store.files), store.readOnly, store.unreadable, LogPath, LinEvents(r, msgSize))
    {
      var ev := LinEvents(r, msgSize);
      trace := trace + ev;
      match LoggedEntry(ev) {
        case Some(e) => store.Append(LogPath, e);
        case None =>
      }
    }
  }
}
