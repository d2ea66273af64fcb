# modbusread: sign conversion and register reading

A model of the core of `modbusread.py`, a command-line diagnostic that reads
Modbus RTU holding or input registers from a serial device and prints them.
Three pieces of it are modelled:

- **Sign conversion** (`SignConverter`): `getsigned` decodes a register word
  as a two's-complement number. The model proves that the result lies in the
  signed range, is congruent to the input modulo 2^width, and is the *only*
  such value. Idempotence, the fixed points, the low/high half split, the
  round trips with re-encoding (`ToUnsigned`) and the 16-bit sample values
  all follow from that.
- **Register readers** (`RegisterReader`): `readholdregs` and `readinputregs`
  as methods over a small `Client` class. The class records whether the
  transport is open, how often `connect()` was called, and the read requests
  issued. Each reader connects only when the client is closed, and the read
  primitive requires an open transport, so every read happens on an open
  client. The printed output is a `Report` value: the exception line, the raw
  register list, or one `(address, signed value)` pair per register. These are
  tied to the specification functions `HoldingReport` and `InputReport`.
  The pair list is built by the same loop as in the source.
- **Read planning** (`ReadPlan`): the count `main` derives from the positional
  `register_range`, the choice of reader by register type, and one run on a
  freshly built client.

The reply of the device is a parameter of the read primitive (`reply`). The
library that produces it is external.

The result of a read has three shapes. `IOException` is the
`ModbusIOException` that the readers test for by exact type. `ExceptionResponse`
is an error reply of the device. It is a different type and has no
`registers`, so for a device error reply the script raises on
`row.registers` instead of printing anything. The model reports that case as
`MissingRegistersFault`. `Response` carries the words.

The count rule is kept exactly as written. A two-element range `[a, b]` reads
`b` registers starting at `a`, not `b - a + 1`. `CountIsNotSpan` shows that
the two agree only when `a` is 1.

## Model

| member | source | states |
|---|---|---|
| SignConverter.GetSigned | modbusread.py:16-18 | reduces x modulo 2^width and maps [2^(width-1), 2^width) to negatives, so for width >= 1 the result is in the signed range; width 0 gives 0 |
| SignConverter.GetSignedRange | modbusread.py:16-18 | for width >= 1 the result lies in [-2^(width-1), 2^(width-1) - 1] |
| SignConverter.GetSignedWidthZero | modbusread.py:16-18 | with width 0 every input decodes to 0 (the remainder is 0 and is below 2**-1) |
| SignConverter.GetSignedCongruent | modbusread.py:17-18 | the result is congruent to the input modulo 2^width |
| SignConverter.GetSignedUnique | modbusread.py:16-18 | the result is the unique value in the signed range congruent to the input, so it matches any other two's-complement decoder |
| SignConverter.GetSignedFixedPoint | modbusread.py:18 | a value already in the signed range is returned unchanged |
| SignConverter.GetSignedIdempotent | modbusread.py:17-18 | decoding a decoded value changes nothing |
| SignConverter.GetSignedRenormalised | modbusread.py:17 | reducing the input modulo 2^width first gives the same result |
| SignConverter.GetSignedLowHalf | modbusread.py:18 | inputs in [0, 2^(width-1)) are returned as they are |
| SignConverter.GetSignedHighHalf | modbusread.py:18 | inputs in [2^(width-1), 2^width) become x - 2^width |
| SignConverter.ToUnsignedGetSigned | modbusread.py:17-18 | re-encoding the result modulo 2^width gives the input modulo 2^width |
| SignConverter.RegisterRoundTrip | modbusread.py:17-18 | an unsigned word in [0, 2^width) survives decode then re-encode |
| SignConverter.SignedRoundTrip | modbusread.py:17-18 | a value in the signed range survives re-encode then decode |
| SignConverter.SixteenBitFacts | modbusread.py:16-18 | the 16-bit decoder lies in [-32768, 32767], is unchanged by re-normalising with % 65536, and maps 0, 100, 32768, 65535 to 0, 100, -32768, -1 |
| RegisterReader.RenderInput | modbusread.py:40-41 | one pair per register, entry i being (start + i, signed value of register i), in address order |
| RegisterReader.HoldingReport | modbusread.py:26-29 | a ModbusIOException is reported as such; other error replies fault on the missing registers; a success prints the registers unchanged |
| RegisterReader.InputReport | modbusread.py:37-41 | a ModbusIOException is reported as such; other error replies fault; a success prints exactly one (start + i, signed value) pair per register |
| RegisterReader.FailureReportedAlike | modbusread.py:26-38 | on a failure both readers end the same way: the exception line for a ModbusIOException, the same fault for an error reply; neither prints register values |
| RegisterReader.InputAgreesWithHolding | modbusread.py:26-41 | for 16-bit words the input reader's addresses run from start and re-encoding its values gives back the holding reader's list |
| RegisterReader.InputExample | modbusread.py:40-41 | the words [10, 20, 30] read from address 5 print as (5,10), (6,20), (7,30) |
| RegisterReader.Client.constructor | modbusread.py:96 | a new client is closed, never connected and has issued no read |
| RegisterReader.Client.IsSocketOpen | modbusread.py:23 | reports whether the transport is open |
| RegisterReader.Client.Connect | modbusread.py:24 | opens the transport and counts one connect call |
| RegisterReader.Client.Read | modbusread.py:25 | on an open transport, logs exactly one request and returns the device's reply |
| RegisterReader.EnsureOpen | modbusread.py:23-24 | afterwards the client is open, and connect was called once exactly when it had been closed |
| RegisterReader.ReadHoldRegs | modbusread.py:21-29 | connects only if closed, issues one holding read of (start, count, unit) on an open client, and prints HoldingReport of the reply |
| RegisterReader.ReadInputRegs | modbusread.py:32-41 | connects only if closed, issues one input read on an open client, and its loop prints InputReport of the reply |
| ReadPlan.EffectiveCount | modbusread.py:94-95 | the count is the second element for a two-element range and 1 for any other length |
| ReadPlan.CountIsNotSpan | modbusread.py:94-95 | for [a, b] the count is b, which equals b - a + 1 only when a is 1; [3, 8] reads 8 registers |
| ReadPlan.PlanRead | modbusread.py:94-109 | a read is issued only for type "input" or "holding", always from register_range[0], with the effective count and the given unit |
| ReadPlan.Run | modbusread.py:92-110 | debug mode or an unknown type reads nothing and never connects; otherwise one connect and one read of the planned request, with the chosen reader's report |

## Left out

- The Modbus client library: serial transport, RTU framing, CRC, timeouts and request/response matching. It is external and is modelled only as the `Client` fields and a read that returns the device's reply.
- RegisterReader.Client.Connect: a connect that fails (which the script does not handle) is not modelled; connect always opens the transport.
- RegisterReader.Client.Read: requires an open transport. The script always opens the transport before reading, and what the library does on a closed one is outside the model.
- The import fallback at the top of the script, which only prints a message when the library is missing.
- Argument parsing, its defaults and the "no arguments" check; `-p`, `-b` and the fixed serial settings only configure the external client. `-s` and `-n` are parsed but never used by the read path.
- The header line each reader prints first, before connecting (modbusread.py:22, 33), is not modelled; its values are the fields of the logged `Request`.
- Debug-mode messages and the exact text of every print; the rest of the readers' output is modelled as `Report` values. Debug mode is modelled only as "no read and no connect".
- The default parameter values of the two readers; `main` always passes all of them.
- `client.close` at the end of `main` is an attribute reference that never calls close, so it has no effect to model.
- A width below zero for `getsigned`: Python would compute with fractions there; the model takes the width as a natural number.
- The command-line unit id may arrive as a string; the model takes it as an integer.
