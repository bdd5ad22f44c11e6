/**
 * sendJsonFileOverTcp: one log file pushed to the remote host as
 * [4-byte big-endian name length][UTF-8 base name][file bytes],
 * with a bounded number of attempts.
 */
module Transfer {
  import opened Wrappers
  import opened Wire

  /** QFileInfo(path).fileName(): the part after the last '/'. */
  function BaseName(path: string): (r: string)
    ensures '/' !in r
    ensures |r| <= |path| && r == path[|path| - |r|..]
    ensures '/' !in path ==> r == path
    ensures |r| < |path| ==> path[|path| - |r| - 1] == '/'
  {
    if path == [] then []
    else if path[|path| - 1] == '/' then []
    else BaseName(path[..|path| - 1]) + [path[|path| - 1]]
  }

  /** The header plus the file data, as written to the socket. The length is a 32-bit field. */
  function TransferFrame(path: string, data: seq<byte>): (frame: seq<byte>)
    ensures |frame| == 4 + |Utf8(BaseName(path))| + |data|
    ensures frame[4 + |Utf8(BaseName(path))|..] == data
  {
    var name := Utf8(BaseName(path));
    Be32(|name| % 0x1_0000_0000) + name + data
  }

  /** How the receiving end splits a frame back into the name and the file data. */
  function ParseTransferFrame(frame: seq<byte>): (r: Option<(seq<byte>, seq<byte>)>)
    ensures r.Some? <==> |frame| >= 4 && 4 + FromBe32(frame[..4]) <= |frame|
    ensures r.Some? ==> |r.value.0| < 0x1_0000_0000 && frame == Be32(|r.value.0|) + r.value.0 + r.value.1
  {
    if |frame| < 4 then None
    else
      var n := FromBe32(frame[..4]);
      if 4 + n > |frame| then None
      else
        FromBe32RoundTrip(frame[..4]);
        assert frame == frame[..4] + frame[4..4 + n] + frame[4 + n..];
        Some((frame[4..4 + n], frame[4 + n..]))
  }

  /** The frame carries the base name and the data, recoverable as written (names shorter than 4 GiB). */
  lemma TransferFrameRoundTrip(path: string, data: seq<byte>)
    requires |Utf8(BaseName(path))| < 0x1_0000_0000
    ensures ParseTransferFrame(TransferFrame(path, data)) == Some((Utf8(BaseName(path)), data))
  {
    var name := Utf8(BaseName(path));
    assert |name| % 0x1_0000_0000 == |name|;
    assert TransferFrame(path, data) == Be32(|name|) + name + data;
    ParseFramed(name, data);
  }

  /** A length-prefixed name followed by data splits back into that name and data. */
  lemma ParseFramed(name: seq<byte>, data: seq<byte>)
    requires |name| < 0x1_0000_0000
    ensures ParseTransferFrame(Be32(|name|) + name + data) == Some((name, data))
  {
    var frame := Be32(|name|) + name + data;
    Be32RoundTrip(|name|);
    assert frame[..4] == Be32(|name|);
    assert frame[4..4 + |name|] == name;
    assert frame[4 + |name|..] == data;
  }

  /** What the world does during one attempt: whether the connection is made, what reading the file gives, how many bytes write() reports. */
  datatype AttemptEnv = AttemptEnv(connected: bool, file: Option<seq<byte>>, written: int)

  /** The outcome of one attempt. */
  datatype Attempt = ConnectFailed | OpenFailed | EmptyFile | ShortWrite(written: int) | Delivered(frame: seq<byte>)

  /** One attempt, in the order the source checks: connection, file open, empty file, complete write. */
  function TryOnce(path: string, env: AttemptEnv): (a: Attempt)
    ensures a.ConnectFailed? <==> !env.connected
    ensures a.OpenFailed? <==> env.connected && env.file.None?
    ensures a.EmptyFile? <==> env.connected && env.file == Some([])
    ensures a.Delivered? <==>
              (env.connected && env.file.Some? && env.file.value != []
               && env.written == |TransferFrame(path, env.file.value)|)
    ensures a.Delivered? ==> a.frame == TransferFrame(path, env.file.value)
    ensures a.ShortWrite? ==> a.written == env.written
  {
    if !env.connected then ConnectFailed
    else match env.file
      case None => OpenFailed
      case Some(data) =>
        if data == [] then EmptyFile
        else
          var frame := TransferFrame(path, data);
          if env.written != |frame| then ShortWrite(env.written) else Delivered(frame)
  }

  /** A failed connection and an incomplete write are retried; a missing or empty file is not. */
  predicate Retryable(a: Attempt)
  {
    a.ConnectFailed? || a.ShortWrite?
  }

  /** The recursive retry as the source writes it: attempt `attempt` uses env(attempt). */
  function SendAttempts(path: string, env: nat -> AttemptEnv, attempt: nat, maxRetries: int): (r: seq<Attempt>)
    decreases maxRetries - attempt
  {
    var a := TryOnce(path, env(attempt));
    if Retryable(a) && attempt < maxRetries then [a] + SendAttempts(path, env, attempt + 1, maxRetries)
    else [a]
  }

  /** Attempt i of the run is the i-th try; every try except the last failed in a retryable way. */
  lemma {:induction false} SendAttemptsShape(path: string, env: nat -> AttemptEnv, attempt: nat, maxRetries: int)
    ensures var r := SendAttempts(path, env, attempt, maxRetries);
      1 <= |r| && (attempt >= maxRetries ==> |r| == 1)
      && (attempt < maxRetries ==> |r| <= maxRetries - attempt + 1)
      && (forall i :: 0 <= i < |r| ==> r[i] == TryOnce(path, env(attempt + i)))
      && (forall i :: 0 <= i < |r| - 1 ==> Retryable(r[i]))
    decreases maxRetries - attempt
  {
    var a := TryOnce(path, env(attempt));
    if Retryable(a) && attempt < maxRetries {
      SendAttemptsShape(path, env, attempt + 1, maxRetries);
      var rest := SendAttempts(path, env, attempt + 1, maxRetries);
      var r := SendAttempts(path, env, attempt, maxRetries);
      assert r == [a] + rest;
      forall i | 1 <= i < |r| ensures r[i] == TryOnce(path, env(attempt + i)) {
        assert r[i] == rest[i - 1];
      }
      forall i | 1 <= i < |r| - 1 ensures Retryable(r[i]) {
        assert r[i] == rest[i - 1];
      }
    }
  }

  /** The run stops at the first non-retryable outcome, or after maxRetries attempts in all. */
  lemma {:induction false} SendAttemptsStop(path: string, env: nat -> AttemptEnv, attempt: nat, maxRetries: int)
    ensures var r := SendAttempts(path, env, attempt, maxRetries);
      !Retryable(r[|r| - 1]) || attempt + |r| - 1 >= maxRetries
    decreases maxRetries - attempt
  {
    var a := TryOnce(path, env(attempt));
    if Retryable(a) && attempt < maxRetries {
      SendAttemptsStop(path, env, attempt + 1, maxRetries);
      var rest := SendAttempts(path, env, attempt + 1, maxRetries);
      assert SendAttempts(path, env, attempt, maxRetries) == [a] + rest;
    }
  }

  /** A file that cannot be opened, or is empty, is never sent, and the run ends there. */
  lemma UnsendableFileEndsRun(path: string, env: nat -> AttemptEnv, attempt: nat, maxRetries: int, i: nat)
    requires var r := SendAttempts(path, env, attempt, maxRetries); i < |r| && (r[i].OpenFailed? || r[i].EmptyFile?)
    ensures i == |SendAttempts(path, env, attempt, maxRetries)| - 1
  {
    SendAttemptsShape(path, env, attempt, maxRetries);
  }

  /** At most one attempt delivers, and it is the last one, carrying the frame of the file as then read. */
  lemma DeliveredIsLast(path: string, env: nat -> AttemptEnv, attempt: nat, maxRetries: int, i: nat)
    requires var r := SendAttempts(path, env, attempt, maxRetries); i < |r| && r[i].Delivered?
    ensures i == |SendAttempts(path, env, attempt, maxRetries)| - 1
    ensures env(attempt + i).file.Some?
    ensures SendAttempts(path, env, attempt, maxRetries)[i].frame == TransferFrame(path, env(attempt + i).file.value)
  {
    SendAttemptsShape(path, env, attempt, maxRetries);
  }

  /** The loop form of the recursion: attempt by attempt until one is not retried. */
  method SendJsonFileOverTcp(path: string, env: nat -> AttemptEnv, attempt: nat, maxRetries: int) returns (attempts: seq<Attempt>)
    ensures attempts == SendAttempts(path, env, attempt, maxRetries)
  {
    attempts := [];
    var n := attempt;
    var a := TryOnce(path, env(n));
    while Retryable(a) && n < maxRetries
      invariant attempt <= n
      invariant a == TryOnce(path, env(n))
      invariant attempts + SendAttempts(path, env, n, maxRetries) == SendAttempts(path, env, attempt, maxRetries)
      decreases maxRetries - n
    {
      assert SendAttempts(path, env, n, maxRetries) == [a] + SendAttempts(path, env, n + 1, maxRetries);
      attempts := attempts + [a];
      n := n + 1;
      a := TryOnce(path, env(n));
    }
    attempts := attempts + [a];
  }
}
