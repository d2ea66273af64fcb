/**
 * The two register readers of modbusread.py (`readholdregs`, `readinputregs`)
 * and the part of the Modbus client they rely on.
 *
 * The client library itself (serial transport, RTU framing, CRC, timeouts)
 * is external: it is modelled only as an `isOpen` flag, a count of connect
 * calls, a log of the read requests issued, and a read primitive whose
 * answer from the device is a parameter.
 */
module RegisterReader {
  import opened SignConverter

  datatype RegisterKind = Holding | Input

  /** One read request as handed to the client library. */
  datatype Request = Request(kind: RegisterKind, start: int, count: int, unit: int)

  /**
   * What a read primitive returns. `IOException` is the `ModbusIOException`
   * the readers test for by exact type; `ExceptionResponse` is an error reply
   * of the device, a different type that has no `registers`; `Response`
   * carries the register words in address order.
   */
  datatype ReadResult =
    | IOException(desc: string)
    | ExceptionResponse(functionCode: int, exceptionCode: int)
    | Response(registers: seq<int>)

  /**
   * What a reader prints: the exception line, the raw register list, or one
   * (address, value) line per register. `MissingRegistersFault` is the
   * uncaught error of reading `registers` from a reply that has none.
   */
  datatype Report =
    | ExceptionReport(desc: string)
    | HoldingValues(values: seq<int>)
    | InputPairs(pairs: seq<(int, int)>)
    | MissingRegistersFault

  /** The lines the input reader prints for `regs` read from address `start`. */
  function RenderInput(start: int, regs: seq<int>): (pairs: seq<(int, int)>)
    ensures |pairs| == |regs|
    ensures forall i :: 0 <= i < |regs| ==> pairs[i] == (start + i, GetSigned(regs[i], RegisterWidth))
  {
    if regs == [] then []
    else
      var n := |regs| - 1;
      RenderInput(start, regs[..n]) + [(start + n, GetSigned(regs[n], RegisterWidth))]
  }

  /** What the holding reader prints for the reply `row`. */
  function HoldingReport(row: ReadResult): (out: Report)
    ensures row.IOException? <==> out.ExceptionReport?
    ensures row.IOException? ==> out.desc == row.desc
    ensures row.Response? <==> out.HoldingValues?
    ensures row.Response? ==> out.values == row.registers
    ensures row.ExceptionResponse? <==> out == MissingRegistersFault
  {
    match row
    case IOException(desc) => ExceptionReport(desc)
    case ExceptionResponse(_, _) => MissingRegistersFault
    case Response(regs) => HoldingValues(regs)
  }

  /** What the input reader prints for the reply `row` to a read from `start`. */
  function InputReport(start: int, row: ReadResult): (out: Report)
    ensures row.IOException? <==> out.ExceptionReport?
    ensures row.IOException? ==> out.desc == row.desc
    ensures row.ExceptionResponse? <==> out == MissingRegistersFault
    ensures row.Response? <==> out.InputPairs?
    ensures row.Response? ==> |out.pairs| == |row.registers|
    ensures row.Response? ==> forall i :: 0 <= i < |row.registers| ==>
              out.pairs[i] == (start + i, GetSigned(row.registers[i], RegisterWidth))
  {
    match row
    case IOException(desc) => ExceptionReport(desc)
    case ExceptionResponse(_, _) => MissingRegistersFault
    case Response(regs) => InputPairs(RenderInput(start, regs))
  }

  /** On a failure both readers print the same thing, and neither looks at registers. */
  lemma FailureReportedAlike(start: int, row: ReadResult)
    requires !row.Response?
    ensures HoldingReport(row) == InputReport(start, row)
    ensures !HoldingReport(row).HoldingValues? && !InputReport(start, row).InputPairs?
  {
  }

  /**
   * For 16-bit register words the two readers agree: the input reader prints
   * consecutive addresses from `start`, and re-encoding each of its signed
   * values gives back the word the holding reader prints.
   */
  lemma InputAgreesWithHolding(start: int, regs: seq<int>)
    requires forall i :: 0 <= i < |regs| ==> 0 <= regs[i] < Pow2(RegisterWidth)
    ensures |InputReport(start, Response(regs)).pairs| == |HoldingReport(Response(regs)).values|
    ensures forall i :: 0 <= i < |regs| ==>
              InputReport(start, Response(regs)).pairs[i].0 == start + i &&
              ToUnsigned(InputReport(start, Response(regs)).pairs[i].1, RegisterWidth)
                == HoldingReport(Response(regs)).values[i]
  {
    forall i | 0 <= i < |regs|
      ensures ToUnsigned(GetSigned(regs[i], RegisterWidth), RegisterWidth) == regs[i]
    {
      RegisterRoundTrip(regs[i], RegisterWidth);
    }
  }

  /** Three positive words read from address 5 print as (5,10), (6,20), (7,30). */
  lemma InputExample()
    ensures InputReport(5, Response([10, 20, 30])) == InputPairs([(5, 10), (6, 20), (7, 30)])
  {
    SixteenBitFacts(0);
    GetSignedLowHalf(10, RegisterWidth);
    GetSignedLowHalf(20, RegisterWidth);
    GetSignedLowHalf(30, RegisterWidth);
  }

  /** The part of the Modbus client the readers use. */
  class Client {
    /** Whether the transport is open (`is_socket_open()`). */
    var isOpen: bool
    /** How many times `connect()` has been called. */
    var connectCalls: nat
    /** The read requests issued so far, oldest first. */
    var requests: seq<Request>

    /** A new client, as `main` builds it, is not connected. */
    constructor ()
      ensures !isOpen && connectCalls == 0 && requests == []
    {
      isOpen := false;
      connectCalls := 0;
      requests := [];
    }

    method IsSocketOpen() returns (open: bool)
      ensures open == isOpen
    {
      open := isOpen;
    }

    /** Opens the transport; a failure to open is not modelled. */
    method Connect()
      modifies this
      ensures isOpen && connectCalls == old(connectCalls) + 1 && requests == old(requests)
    {
      isOpen := true;
      connectCalls := connectCalls + 1;
    }

    /** Issues one read on an open transport; `reply` is the device's answer. */
    method Read(kind: RegisterKind, start: int, count: int, unit: int, reply: ReadResult)
      returns (row: ReadResult)
      requires isOpen
      modifies this`requests
      ensures row == reply
      ensures requests == old(requests) + [Request(kind, start, count, unit)]
    {
      requests := requests + [Request(kind, start, count, unit)];
      row := reply;
    }
  }

  /**
   * Connects the client unless it is already open; afterwards it is open,
   * and `connect()` was called once exactly when it had been closed.
   */
  method EnsureOpen(client: Client)
    modifies client
    ensures client.isOpen
    ensures client.connectCalls == old(client.connectCalls) + (if old(client.isOpen) then 0 else 1)
    ensures client.requests == old(client.requests)
  {
    var open := client.IsSocketOpen();
    if !open {
      client.Connect();
    }
  }

  /** `readholdregs`: one holding-register read, printed raw. */
  method ReadHoldRegs(client: Client, unitId: int, start: int, numRegs: int, reply: ReadResult)
    returns (out: Report)
    modifies client
    ensures client.isOpen
    ensures client.connectCalls == old(client.connectCalls) + (if old(client.isOpen) then 0 else 1)
    ensures client.requests == old(client.requests) + [Request(Holding, start, numRegs, unitId)]
    ensures out == HoldingReport(reply)
  {
    EnsureOpen(client);
    var row := client.Read(Holding, start, numRegs, unitId, reply);
    if row.IOException? {
      out := ExceptionReport(row.desc);
    } else if row.ExceptionResponse? {
      out := MissingRegistersFault;
    } else {
      out := HoldingValues(row.registers);
    }
  }

  /** `readinputregs`: one input-register read, printed as (address, signed value) lines. */
  method ReadInputRegs(client: Client, unitId: int, start: int, numRegs: int, reply: ReadResult)
    returns (out: Report)
    modifies client
    ensures client.isOpen
    ensures client.connectCalls == old(client.connectCalls) + (if old(client.isOpen) then 0 else 1)
    ensures client.requests == old(client.requests) + [Request(Input, start, numRegs, unitId)]
    ensures out == InputReport(start, reply)
  {
    EnsureOpen(client);
    var row := client.Read(Input, start, numRegs, unitId, reply);
    if row.IOException? {
      out := ExceptionReport(row.desc);
    } else if row.ExceptionResponse? {
      out := MissingRegistersFault;
    } else {
      var regs := row.registers;
      var pairs: seq<(int, int)> := [];
      var idx := 0;
      while idx < |regs|
        invariant 0 <= idx <= |regs|
        invariant pairs == RenderInput(start, regs[..idx])
      {
        assert regs[..idx + 1][..idx] == regs[..idx];
        pairs := pairs + [(idx + start, GetSigned(regs[idx], RegisterWidth))];
        idx := idx + 1;
      }
      assert regs[..idx] == regs;
      out := InputPairs(pairs);
    }
  }
}
