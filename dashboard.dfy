/** The dashboard application: its receivers, the shared log directory, and the reactions to the two TCP commands. */
module Dashboard {
  import opened Wrappers
  import opened JsonLog
  import opened Signals
  import opened Transfer
  import Udp
  import Can
  import Lin
  import Tcp

  /** The log files the dashboard clears at start-up and on RECEIVED_JSON, and exports on SEND_JSON, in this order. */
  const JsonFiles: seq<string> := [Can.LogPath, Udp.LogPath, "flexray_protocol_receiver.json", Lin.LogPath]

  const CanInterface: string := "can2"
  const TcpSignalPort: int := 5001
  const FlexRayPort: int := 5002
  /** The default arguments of sendJsonFileOverTcp: the first attempt is numbered 1, and there are at most 3. */
  const FirstAttempt: nat := 1
  const MaxRetries: int := 3

  /** The FlexRay receiver binds a UDP socket; its implementation is outside this model, only its address is kept. */
  class FlexRayReceiver {
    const ip: string
    const port: int

    constructor (ip: string, port: int)
      ensures this.ip == ip && this.port == port
    {
      this.ip := ip;
      this.port := port;
    }
  }

  /** What SEND_JSON did with one log file; a sent file records the host and port it went to. */
  datatype Export = Skipped(file: string) | Sent(file: string, host: string, port: int, attempts: seq<Attempt>)

  /** The export of one file: skipped when it does not exist, otherwise a full sendJsonFileOverTcp run to host:port. */
  function ExportOf(files: map<string, FileContent<Entry>>, env: string -> nat -> AttemptEnv, host: string, port: int, name: string): Export
  {
    if Lookup(files, name) == Missing then Skipped(name)
    else Sent(name, host, port, SendAttempts(name, env(name), FirstAttempt, MaxRetries))
  }

  /** A file is skipped exactly when it does not exist; a sent one takes between one and three attempts, and only the last may deliver. */
  lemma ExportOfShape(files: map<string, FileContent<Entry>>, env: string -> nat -> AttemptEnv, host: string, port: int, name: string)
    ensures ExportOf(files, env, host, port, name).file == name
    ensures ExportOf(files, env, host, port, name).Skipped? <==> Lookup(files, name) == Missing
    ensures var x := ExportOf(files, env, host, port, name);
      x.Sent? ==>
        (x.host == host && x.port == port && 1 <= |x.attempts| <= MaxRetries
         && forall i :: 0 <= i < |x.attempts| - 1 ==> !x.attempts[i].Delivered?)
  {
    SendAttemptsShape(name, env(name), FirstAttempt, MaxRetries);
  }

  class App {
    const store: FileStore<Entry>
    const ip: string
    const autowareIp: string
    const port: int
    var can: Can.CanReceiver
    var udp: Udp.UdpReceiver
    var flexray: FlexRayReceiver
    const lin: Lin.LinReceiver
    const tcp: Tcp.TcpSignalReceiver

    /** Every receiver shares the log directory and listens where main() put it. */
    predicate Valid()
      reads this, can, udp, flexray, lin, tcp
    {
      can.store == store && udp.store == store && lin.store == store
      && can.interfaceName == CanInterface
      && udp.ip == ip && udp.port == port
      && flexray.ip == ip && flexray.port == FlexRayPort
      && tcp.ip == ip && tcp.port == TcpSignalPort
    }

    /**
     * main() after argument checking: the receivers are created (each healing
     * its own log), then every log file is cleared. The healing makes no
     * difference: start-up leaves each file as clearing alone would.
     */
    constructor (store: FileStore<Entry>, ip: string, autowareIp: string, port: int, linMsgSize: nat)
      modifies store
      ensures Valid() && fresh(can) && fresh(udp) && fresh(flexray) && fresh(lin) && fresh(tcp)
      ensures this.store == store && this.ip == ip && this.autowareIp == autowareIp && this.port == port
      ensures can.trace == [] && udp.trace == [] && lin.trace == [] && tcp.signals == []
      ensures lin.msgSize == linMsgSize
      ensures forall n :: Lookup(store.files, n) == Lookup(Cleared(old(store.files), store.readOnly, JsonFiles), n)
    {
      this.store := store;
      this.ip := ip;
      this.autowareIp := autowareIp;
      this.port := port;
      ghost var f0 := store.files;
      ghost var ro := store.readOnly;
      ghost var ur := store.unreadable;
      can := new Can.CanReceiver(store, CanInterface);
      ghost var f1 := store.files;
      udp := new Udp.UdpReceiver(store, ip, port);
      ghost var f2 := store.files;
      tcp := new Tcp.TcpSignalReceiver(ip, TcpSignalPort);
      flexray := new FlexRayReceiver(ip, FlexRayPort);
      lin := new Lin.LinReceiver(store, linMsgSize);
      new;
      store.Clear(JsonFiles);
      forall n ensures Lookup(store.files, n) == Lookup(Cleared(f0, ro, JsonFiles), n) {
        ClearedAbsorbsHealed(f2, ro, ur, JsonFiles, Lin.LogPath, n);
        ClearedAbsorbsHealed(f1, ro, ur, JsonFiles, Udp.LogPath, n);
        ClearedAbsorbsHealed(f0, ro, ur, JsonFiles, Can.LogPath, n);
      }
    }

    /** The SEND_JSON handler: every log file in order, skipped when missing, otherwise sent to the remote host. */
    method OnSendJson(env: string -> nat -> AttemptEnv) returns (exports: seq<Export>)
      ensures |exports| == |JsonFiles|
      ensures forall i :: 0 <= i < |JsonFiles| ==> exports[i] == ExportOf(store.files, env, autowareIp, port, JsonFiles[i])
    {
      exports := [];
      var i := 0;
      while i < |JsonFiles|
        invariant 0 <= i <= |JsonFiles| && |exports| == i
        invariant forall j :: 0 <= j < i ==> exports[j] == ExportOf(store.files, env, autowareIp, port, JsonFiles[j])
      {
        var name := JsonFiles[i];
        var x: Export;
        if store.Exists(name) {
          var attempts := SendJsonFileOverTcp(name, env(name), FirstAttempt, MaxRetries);
          x := Sent(name, autowareIp, port, attempts);
        } else {
          x := Skipped(name);
        }
        exports := exports + [x];
        i := i + 1;
      }
    }

    /** resetReceivers: fresh CAN, UDP and FlexRay receivers on the same addresses; LIN and TCP stay as they are. */
    method ResetReceivers()
      requires Valid()
      modifies this, store
      ensures Valid() && fresh(can) && fresh(udp) && fresh(flexray)
      ensures can.trace == [] && udp.trace == []
      ensures store.files == Healed(Healed(old(store.files), store.readOnly, store.unreadable, Can.LogPath), store.readOnly, store.unreadable, Udp.LogPath)
    {
      can := new Can.CanReceiver(store, CanInterface);
      udp := new Udp.UdpReceiver(store, ip, port);
      flexray := new FlexRayReceiver(ip, FlexRayPort);
    }

    /** The RECEIVED_JSON handler: clear every log file, then reset the receivers; the state is exactly that of clearing. */
    method OnReceivedJson()
      requires Valid()
      modifies this, store
      ensures Valid() && fresh(can) && fresh(udp) && fresh(flexray)
      ensures can.trace == [] && udp.trace == []
      ensures store.files == Cleared(old(store.files), store.readOnly, JsonFiles)
    {
      store.Clear(JsonFiles);
      ResetReceivers();
      HealedAfterCleared(old(store.files), store.readOnly, store.unreadable, JsonFiles, Can.LogPath);
      HealedAfterCleared(old(store.files), store.readOnly, store.unreadable, JsonFiles, Udp.LogPath);
    }

    /** readClientData followed by the handler its signal is connected to. */
    method OnClientData(sender: Option<nat>, data: string, env: string -> nat -> AttemptEnv)
      returns (raised: Option<Tcp.Signal>, exports: seq<Export>)
      requires Valid()
      modifies this, store, tcp
      ensures Valid()
      ensures sender.Some? ==> raised == Some(Tcp.Classify(data))
      ensures sender.None? ==> raised == None
      ensures sender.None? ==> tcp.signals == old(tcp.signals) && tcp.disconnected == old(tcp.disconnected)
      ensures sender.Some? ==>
                tcp.signals == old(tcp.signals) + [Tcp.Classify(data)]
                && tcp.disconnected == old(tcp.disconnected) + [sender.value]
      ensures raised != Some(Tcp.ReceivedJsonSignal) ==> can == old(can) && udp == old(udp) && flexray == old(flexray)
      ensures raised == Some(Tcp.ReceivedJsonSignal) ==>
                fresh(can) && fresh(udp) && fresh(flexray) && can.trace == [] && udp.trace == []
      ensures raised == Some(Tcp.SendJsonFilesRequested) ==>
                |exports| == |JsonFiles| && store.files == old(store.files)
                && forall i :: 0 <= i < |JsonFiles| ==> exports[i] == ExportOf(old(store.files), env, autowareIp, port, JsonFiles[i])
      ensures raised == Some(Tcp.ReceivedJsonSignal) ==>
                exports == [] && store.files == Cleared(old(store.files), store.readOnly, JsonFiles)
      ensures raised.None? || raised.value.InvalidSignal? ==> exports == [] && store.files == old(store.files)
    {
      raised := tcp.ReadClientData(sender, data);
      exports := [];
      if raised == Some(Tcp.SendJsonFilesRequested) {
        exports := OnSendJson(env);
      } else if raised == Some(Tcp.ReceivedJsonSignal) {
        OnReceivedJson();
      }
    }
  }

  /** After start-up (or RECEIVED_JSON) every writable log file holds an empty array, and the others are untouched. */
  lemma LogsAfterClear(files: map<string, FileContent<Entry>>, readOnly: set<string>, n: string)
    ensures n in JsonFiles && n !in readOnly ==> Lookup(Cleared(files, readOnly, JsonFiles), n) == Array([])
    ensures n !in JsonFiles || n in readOnly ==> Lookup(Cleared(files, readOnly, JsonFiles), n) == Lookup(files, n)
  {
    ClearedContent(files, readOnly, JsonFiles, n);
  }
}
