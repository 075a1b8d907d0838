/**
 * The indicator writer: the mapping from a build result to the colour command
 * sent to the LED controller, the serial port as a record of the writes made
 * to it, and the writer loop that sends the start-up colour and then one
 * command per received result.
 */
module Indicator {

  /** Green: the build succeeded; also the colour shown at start-up. */
  const Green: string := "0F0\n"
  /** Red: the build failed. */
  const Red: string := "F00\n"
  /** Amber: any other result, including the empty one of a running build. */
  const Amber: string := "FF0\n"

  /** The length in bytes of every command on the serial line. */
  const CommandSize: nat := 4

  predicate IsHexDigit(c: char) {
    '0' <= c <= '9' || 'A' <= c <= 'F'
  }

  /** A command is three hex colour digits (red, green, blue) and a newline. */
  predicate IsCommand(c: string) {
    |c| == CommandSize && IsHexDigit(c[0]) && IsHexDigit(c[1]) && IsHexDigit(c[2]) && c[3] == '\n'
  }

  /**
   * The `switch` of the writer loop. It is total: every string, the empty one
   * included, selects exactly one of the three colours.
   */
  function CommandFor(status: string): (cmd: string)
    ensures IsCommand(cmd)
    ensures cmd == Green <==> status == "SUCCESS"
    ensures cmd == Red <==> status == "FAILURE"
    ensures cmd == Amber <==> status != "SUCCESS" && status != "FAILURE"
  {
    if status == "SUCCESS" then Green
    else if status == "FAILURE" then Red
    else Amber
  }

  /** The commands for a sequence of received results, one per result, in order. */
  function Commands(received: seq<string>): (cmds: seq<string>)
    ensures |cmds| == |received|
    ensures forall i :: 0 <= i < |received| ==> cmds[i] == CommandFor(received[i])
  {
    if received == [] then [] else [CommandFor(received[0])] + Commands(received[1..])
  }

  /** Everything the writer sends when it has received `received`: the start-up green, then the mapped results. */
  function LedTrace(received: seq<string>): (trace: seq<string>)
  {
    [Green] + Commands(received)
  }

  /** The bytes that reach the serial line when the buffers in `writes` are written one after another. */
  function Stream(writes: seq<string>): (bytes: string)
    ensures (forall i :: 0 <= i < |writes| ==> |writes[i]| == CommandSize) ==> |bytes| == CommandSize * |writes|
  {
    if writes == [] then [] else writes[0] + Stream(writes[1..])
  }

  /** The inverse of `Stream` for fixed-size commands: the line cut into consecutive `CommandSize`-byte pieces. */
  function Frames(bytes: string): (frames: seq<string>)
    requires |bytes| % CommandSize == 0
    ensures |frames| * CommandSize == |bytes|
    decreases |bytes|
  {
    if bytes == [] then [] else [bytes[..CommandSize]] + Frames(bytes[CommandSize..])
  }

  /** The serial sink. Writes are fire-and-forget: a write always succeeds and is recorded in order. */
  class SerialPort {
    /** Every buffer handed to `Write`, oldest first. */
    var written: seq<string>

    constructor ()
      ensures written == []
    {
      written := [];
    }

    /** The bytes sent on the line so far. */
    function Bytes(): (bytes: string)
      reads this
    {
      Stream(written)
    }

    method Write(data: string)
      modifies this
      ensures written == old(written) + [data]
      ensures Bytes() == old(Bytes()) + data
    {
      StreamAppend(written, [data]);
      written := written + [data];
    }
  }

  /**
   * The writer loop, run over a finite prefix `received` of what arrives on the
   * channel: green once, then one command per result in the order received.
   */
  method UpdateLed(received: seq<string>, port: SerialPort)
    modifies port
    ensures port.written == old(port.written) + LedTrace(received)
    ensures port.Bytes() == old(port.Bytes()) + Stream(LedTrace(received))
  {
    port.Write(Green);
    for i := 0 to |received|
      invariant port.written == old(port.written) + LedTrace(received[..i])
    {
      var status := received[i];
      port.Write(CommandFor(status));
      LedTraceAppend(received[..i], status);
      assert received[..i + 1] == received[..i] + [status];
    }
    assert received[..|received|] == received;
    StreamAppend(old(port.written), LedTrace(received));
  }

  /** Receiving one more result adds exactly its command at the end of the trace. */
  lemma LedTraceAppend(received: seq<string>, status: string)
    ensures LedTrace(received + [status]) == LedTrace(received) + [CommandFor(status)]
  {
  }

  /**
   * The trace has one write more than there are results, starts with green,
   * keeps the order of the results, and every write is a well-formed command.
   */
  lemma LedTraceShape(received: seq<string>)
    ensures |LedTrace(received)| == |received| + 1
    ensures LedTrace(received)[0] == Green
    ensures forall i :: 0 <= i < |received| ==> LedTrace(received)[i + 1] == CommandFor(received[i])
    ensures forall i :: 0 <= i < |LedTrace(received)| ==> IsCommand(LedTrace(received)[i])
  {
    var trace := LedTrace(received);
    forall i | 0 <= i < |trace|
      ensures IsCommand(trace[i])
    {
      if i > 0 {
        assert trace[i] == CommandFor(received[i - 1]);
      }
    }
  }

  /** Writing two batches one after the other puts their bytes on the line one after the other. */
  lemma {:induction false} StreamAppend(a: seq<string>, b: seq<string>)
    ensures Stream(a + b) == Stream(a) + Stream(b)
  {
    if a == [] {
      assert a + b == b;
    } else {
      assert (a + b)[1..] == a[1..] + b;
      StreamAppend(a[1..], b);
    }
  }

  /** Cutting a stream of 4-byte writes back into 4-byte frames recovers the writes exactly. */
  lemma {:induction false} FramesOfStream(writes: seq<string>)
    requires forall i :: 0 <= i < |writes| ==> |writes[i]| == CommandSize
    ensures |Stream(writes)| % CommandSize == 0
    ensures Frames(Stream(writes)) == writes
  {
    if writes != [] {
      FramesOfStream(writes[1..]);
      var bytes := Stream(writes);
      assert bytes == writes[0] + Stream(writes[1..]);
      assert bytes[..CommandSize] == writes[0];
      assert bytes[CommandSize..] == Stream(writes[1..]);
      assert writes == [writes[0]] + writes[1..];
    }
  }

  /**
   * What the device sees after the writer has handled `received`: exactly
   * 4 * (n + 1) bytes, which it splits into the same n + 1 commands, none
   * dropped, duplicated or reordered.
   */
  lemma LedStreamDecodes(received: seq<string>)
    ensures |Stream(LedTrace(received))| == CommandSize * (|received| + 1)
    ensures Frames(Stream(LedTrace(received))) == LedTrace(received)
  {
    LedTraceShape(received);
    FramesOfStream(LedTrace(received));
  }

  /** Scenarios: a failure turns the indicator red, a running build (empty result) amber. */
  lemma WriterScenarios()
    ensures LedTrace(["FAILURE"]) == [Green, Red]
    ensures LedTrace([""]) == [Green, Amber]
    ensures LedTrace(["SUCCESS", "UNSTABLE", "ABORTED"]) == [Green, Green, Amber, Amber]
  {
  }
}
