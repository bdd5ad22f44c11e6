/**
 * The frame generator: three simulators that send the same speed/RPM pair
 * as an 8-byte ASCII payload over UDP, over CAN (identifier 0x64) and over
 * FlexRay-on-UDP (slot 1), and the start-up check on original_sender.json.
 * Sockets are reduced to whether they opened and whether each send went
 * through; the decimal formatting of a float is a parameter (Format).
 */
module Sender {
  import opened Wrappers
  import opened Wire
  import opened Frames
  import opened QtText
  import opened JsonLog
  import opened Signals
  import opened Encoder
  import Can
  import Udp

  const LogPath: string := "original_sender.json"

  /** Where the UDP simulator sends: the dashboard's UDP receiver on the loopback address. */
  const UdpIp: string := "127.0.0.1"
  const UdpPort: int := 5000

  /** The CAN simulator's interface and identifier, and the FlexRay simulator's address and slot. */
  const CanInterface: string := "vcan0"
  const CombinedCanId: uint32 := 0x64
  const FlexRayIp: string := "127.0.0.1"
  const FlexRayPort: int := 5002
  const CombinedSlotId: uint32 := 1

  /** One entry of original_sender.json: the clamped speed and RPM, both stored as floats. */
  datatype SenderEntry = SenderEntry(speed: real, rpm: real)

  /**
   * What `std::fixed << std::setprecision(1)` and `std::setprecision(0)` print
   * for a float. Formatting is not modelled; each simulator is given it.
   */
  datatype Format = Format(oneDecimal: real -> seq<Latin1Char>, noDecimals: real -> seq<Latin1Char>)

  /** The formatter prints `tenths / 10` and `n` the way std::fixed does for those exact values. */
  predicate PrintsExactly(fmt: Format, tenths: nat, n: nat)
  {
    fmt.oneDecimal(tenths as real / 10.0) == FixedText1(tenths) && fmt.noDecimals(n as real) == DecimalText(n)
  }

  /**
   * The payload that sendUDPData and both sendCombinedData build: clamp both
   * values, format them, fit each text to four characters, speed first.
   */
  function CombinedPayload(fmt: Format, speed: real, rpm: real): (p: Payload)
    ensures Latin1(p)[..4] == FitField(fmt.oneDecimal(Clamp(speed)))
    ensures Latin1(p)[4..] == FitField(fmt.noDecimals(Clamp(rpm)))
  {
    EncodePayload(fmt.oneDecimal(Clamp(speed)), fmt.noDecimals(Clamp(rpm)))
  }

  /** A negative value is sent exactly as zero would be. */
  lemma NegativeSentAsZero(fmt: Format, speed: real, rpm: real)
    ensures CombinedPayload(fmt, speed, rpm) == CombinedPayload(fmt, Clamp(speed), Clamp(rpm))
    ensures speed <= 0.0 && rpm <= 0.0 ==> CombinedPayload(fmt, speed, rpm) == CombinedPayload(fmt, 0.0, 0.0)
  {
  }

  /** Any exactly printed speed of at most 99.9 and RPM of at most 9999 decodes back to those values. */
  lemma CombinedPayloadDecodes(fmt: Format, tenths: nat, n: nat)
    requires tenths < 1000 && n <= 9999 && PrintsExactly(fmt, tenths, n)
    ensures DecodePayload(CombinedPayload(fmt, tenths as real / 10.0, n as real))
      == Some(Reading(tenths as real / 10.0, n))
  {
    assert Clamp(tenths as real / 10.0) == tenths as real / 10.0;
    assert Clamp(n as real) == n as real;
    PayloadRoundTrip(tenths, n);
  }

  /** The UDP simulator: one datagram socket aimed at ip:port, and the sender's log. */
  class UdpSimulator {
    const store: FileStore<SenderEntry>
    const ip: string
    const port: int
    /** Whether socket() and inet_pton succeeded; on failure the socket stays closed. */
    const socketOpen: bool
    /** The datagrams sendto accepted, oldest first. */
    var sent: seq<Payload>

    constructor (store: FileStore<SenderEntry>, ip: string, port: int, socketOpen: bool)
      ensures this.store == store && this.ip == ip && this.port == port
      ensures this.socketOpen == socketOpen && sent == []
    {
      this.store := store;
      this.ip := ip;
      this.port := port;
      this.socketOpen := socketOpen;
      sent := [];
    }

    /**
     * sendUDPData: refuses when the socket is closed; otherwise logs the
     * clamped pair to original_sender.json BEFORE sending, so that the entry
     * is written even when sendto then fails (`sendOk` is sendto's outcome).
     */
    method SendUdpData(speed: real, rpm: real, fmt: Format, sendOk: bool) returns (ok: bool)
      modifies this, store
      ensures ok <==> socketOpen && sendOk
      ensures !socketOpen ==> store.files == old(store.files) && sent == old(sent)
      ensures socketOpen ==>
        store.files == Write(old(store.files), store.readOnly, LogPath,
                             Appended(old(store.Opened(LogPath)), SenderEntry(Clamp(speed), Clamp(rpm))))
      ensures socketOpen ==> sent == old(sent) + (if sendOk then [CombinedPayload(fmt, speed, rpm)] else [])
    {
      if !socketOpen {
        return false;
      }
      var s := Clamp(speed);
      var r := Clamp(rpm);
      var payload := EncodePayload(fmt.oneDecimal(s), fmt.noDecimals(r));
      store.Append(LogPath, SenderEntry(s, r));
      if !sendOk {
        return false;
      }
      sent := sent + [payload];
      ok := true;
    }
  }

  /** The CAN simulator: a raw CAN socket bound to vcan0. */
  class IcSimulator {
    const interfaceName: string
    /** Whether socket(), the interface lookup and bind() succeeded. */
    const socketOpen: bool
    /** The frames write() took in full, oldest first. */
    var frames: seq<CanFrame>

    constructor (socketOpen: bool)
      ensures interfaceName == CanInterface && this.socketOpen == socketOpen && frames == []
    {
      interfaceName := CanInterface;
      this.socketOpen := socketOpen;
      frames := [];
    }

    /**
     * sendCANData: a zeroed frame with the identifier, dlc 8 and the data
     * copied to its start; succeeds when write() takes the whole frame
     * (`writeOk`). At most 8 data bytes fit in the frame.
     */
    method SendCanData(canId: uint32, data: seq<byte>, writeOk: bool) returns (ok: bool)
      requires |data| <= 8
      modifies this
      ensures ok <==> socketOpen && writeOk
      ensures frames == old(frames) + (if ok then [CanFrameOf(canId, data)] else [])
    {
      if !socketOpen {
        return false;
      }
      var frame := CanFrame(canId, 8, data + seq(8 - |data|, _ => 0));
      if !writeOk {
        return false;
      }
      frames := frames + [frame];
      ok := true;
    }

    /** sendCombinedData: the payload in a frame with identifier 0x64; nothing is logged. */
    method SendCombinedData(speed: real, rpm: real, fmt: Format, writeOk: bool) returns (ok: bool)
      modifies this
      ensures ok <==> socketOpen && writeOk
      ensures frames == old(frames) + (if ok then [CanFrameOf(CombinedCanId, CombinedPayload(fmt, speed, rpm))] else [])
    {
      var s := Clamp(speed);
      var r := Clamp(rpm);
      var payload := EncodePayload(fmt.oneDecimal(s), fmt.noDecimals(r));
      ok := SendCanData(CombinedCanId, payload, writeOk);
    }
  }

  /** The FlexRay simulator: a datagram socket aimed at 127.0.0.1:5002. */
  class FlexRaySimulator {
    const ip: string
    const port: int
    /** Whether socket() and inet_pton succeeded. */
    const socketOpen: bool
    /** The 12-byte datagrams sendto accepted, oldest first. */
    var datagrams: seq<seq<byte>>

    constructor (socketOpen: bool)
      ensures ip == FlexRayIp && port == FlexRayPort && this.socketOpen == socketOpen && datagrams == []
    {
      ip := FlexRayIp;
      port := FlexRayPort;
      this.socketOpen := socketOpen;
      datagrams := [];
    }

    /**
     * sendFlexRayData: the big-endian slot id, then the data, in a 12-byte
     * buffer; bytes the data does not cover keep what the stack held (`stale`).
     */
    method SendFlexRayData(slotId: uint32, data: seq<byte>, stale: Payload, sendOk: bool) returns (ok: bool)
      requires |data| <= 8
      modifies this
      ensures ok <==> socketOpen && sendOk
      ensures datagrams == old(datagrams) + (if ok then [FlexRayDatagram(slotId, data, stale)] else [])
    {
      if !socketOpen {
        return false;
      }
      var buffer := Be32(slotId) + data + stale[|data|..];
      if !sendOk {
        return false;
      }
      datagrams := datagrams + [buffer];
      ok := true;
    }

    /** sendCombinedData: the payload in slot 1; nothing is logged. */
    method SendCombinedData(speed: real, rpm: real, fmt: Format, stale: Payload, sendOk: bool) returns (ok: bool)
      modifies this
      ensures ok <==> socketOpen && sendOk
      ensures datagrams == old(datagrams)
        + (if ok then [FlexRayDatagram(CombinedSlotId, CombinedPayload(fmt, speed, rpm), stale)] else [])
    {
      var s := Clamp(speed);
      var r := Clamp(rpm);
      var payload := EncodePayload(fmt.oneDecimal(s), fmt.noDecimals(r));
      ok := SendFlexRayData(CombinedSlotId, payload, stale, sendOk);
    }
  }

  /**
   * The start of main: original_sender.json is rewritten to [] unless it
   * holds a JSON array; when that rewrite cannot open the file, main returns 1.
   */
  method Startup(store: FileStore<SenderEntry>) returns (exitCode: int)
    modifies store
    ensures store.files == Healed(old(store.files), store.readOnly, store.unreadable, LogPath)
    ensures exitCode == 1 <==> !old(store.Opened(LogPath)).Array? && LogPath in store.readOnly
    ensures exitCode == 0 || exitCode == 1
  {
    var needsInit := !store.Opened(LogPath).Array?;
    var healed := store.Initialise(LogPath);
    exitCode := if needsInit && !healed then 1 else 0;
  }

  /**
   * A frame from the CAN simulator is exactly what the dashboard's CAN receiver
   * accepts. This is a property of the frame format: the simulator writes to
   * vcan0 and the dashboard reads can2, so frames only arrive when the two
   * buses are bridged.
   */
  lemma CanLinkRoundTrip(fmt: Format, tenths: nat, n: nat)
    requires tenths < 1000 && n <= 9999 && PrintsExactly(fmt, tenths, n)
    ensures Can.CanEvents(Can.ReadBytes(CanFrameSize, CanFrameOf(CombinedCanId, CombinedPayload(fmt, tenths as real / 10.0, n as real))))
      == Accepted(Reading(tenths as real / 10.0, n))
  {
    var p := CombinedPayload(fmt, tenths as real / 10.0, n as real);
    CombinedPayloadDecodes(fmt, tenths, n);
    assert CanFrameOf(CombinedCanId, p).data == p;
  }

  /** A datagram from the UDP simulator is exactly what the dashboard's UDP receiver accepts. */
  lemma UdpLinkRoundTrip(fmt: Format, tenths: nat, n: nat)
    requires tenths < 1000 && n <= 9999 && PrintsExactly(fmt, tenths, n)
    ensures Udp.UdpEvents(Udp.Datagram(CombinedPayload(fmt, tenths as real / 10.0, n as real)))
      == Accepted(Reading(tenths as real / 10.0, n))
  {
    var p := CombinedPayload(fmt, tenths as real / 10.0, n as real);
    CombinedPayloadDecodes(fmt, tenths, n);
    assert p[..8] == p;
  }
}
