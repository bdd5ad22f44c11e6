/** TcpSignalReceiver: a TCP server whose clients send one textual control command per connection. */
module Tcp {
  import opened Wrappers
  import opened QtText

  const SendJsonCommand: string := "SEND_JSON"
  const ReceivedJsonCommand: string := "RECEIVED_JSON"

  /** The three outcomes of reading a client's data: one of the two signals, or a warning carrying the trimmed text. */
  datatype Signal = SendJsonFilesRequested | ReceivedJsonSignal | InvalidSignal(text: string)

  /** Classifies the (already decoded) bytes a client sent: trimmed with Qt's whitespace rule, then compared exactly. */
  function Classify(data: string): (s: Signal)
    ensures s == SendJsonFilesRequested <==> Trimmed(data) == SendJsonCommand
    ensures s == ReceivedJsonSignal <==> Trimmed(data) == ReceivedJsonCommand
    ensures s.InvalidSignal? <==> Trimmed(data) != SendJsonCommand && Trimmed(data) != ReceivedJsonCommand
    ensures s.InvalidSignal? ==> s.text == Trimmed(data)
  {
    var signal := Trimmed(data);
    if signal == SendJsonCommand then SendJsonFilesRequested
    else if signal == ReceivedJsonCommand then ReceivedJsonSignal
    else InvalidSignal(signal)
  }

  /** Whitespace around a command (a trailing newline, say) does not change what it means. */
  lemma PaddedCommand(pre: string, post: string)
    requires AllSpace(pre) && AllSpace(post)
    ensures Classify(pre + SendJsonCommand + post) == SendJsonFilesRequested
    ensures Classify(pre + ReceivedJsonCommand + post) == ReceivedJsonSignal
  {
    TrimmedPadded(pre, SendJsonCommand, post);
    TrimmedPadded(pre, ReceivedJsonCommand, post);
  }

  /** Classification only looks at the trimmed text: classifying that text again gives the same answer. */
  lemma ClassifyTrimmed(data: string)
    ensures Classify(Trimmed(data)) == Classify(data)
  {
    TrimmedIdempotent(data);
  }

  /** The server listening on one address, with the signals it has raised and the clients it has disconnected. */
  class TcpSignalReceiver {
    const ip: string
    const port: int
    var signals: seq<Signal>
    var disconnected: seq<nat>

    constructor (ip: string, port: int)
      ensures this.ip == ip && this.port == port
      ensures signals == [] && disconnected == []
    {
      this.ip := ip;
      this.port := port;
      signals := [];
      disconnected := [];
    }

    /**
     * readClientData: `sender` is the socket that raised readyRead (None when the
     * sender is not a socket) and `data` what one readAll() returned, decoded. A client
     * gets exactly one outcome and is then disconnected, whatever it sent.
     */
    method ReadClientData(sender: Option<nat>, data: string) returns (raised: Option<Signal>)
      modifies this
      ensures sender.None? ==> raised == None && signals == old(signals) && disconnected == old(disconnected)
      ensures sender.Some? ==> raised == Some(Classify(data))
      ensures sender.Some? ==> signals == old(signals) + [Classify(data)]
      ensures sender.Some? ==> disconnected == old(disconnected) + [sender.value]
    {
      if sender.None? {
        return None;
      }
      var s := Classify(data);
      signals := signals + [s];
      disconnected := disconnected + [sender.value];
      raised := Some(s);
    }
  }
}
