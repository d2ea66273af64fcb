/**
 * What `main` in modbusread.py does after argument parsing: derive the
 * register count from the positional `register_range`, pick the reader by
 * register type, and run it once on a freshly built, unconnected client.
 */
module ReadPlan {
  import opened RegisterReader

  datatype Option<T> = None | Some(value: T)

  /**
   * The register count. It is 1 unless `register_range` has exactly two
   * elements, and then it is the second element itself, not the size of the
   * address range it seems to describe.
   */
  function EffectiveCount(registerRange: seq<int>): (count: int)
    ensures |registerRange| == 2 ==> count == registerRange[1]
    ensures |registerRange| != 2 ==> count == 1
  {
    if |registerRange| == 2 then registerRange[1] else 1
  }

  /**
   * For `[start, end]` the count equals the number of addresses from `start`
   * to `end` only when `start` is 1; for example `[3, 8]` reads 8 registers.
   */
  lemma CountIsNotSpan(start: int, end: int)
    ensures EffectiveCount([start, end]) == end
    ensures EffectiveCount([start, end]) == end - start + 1 <==> start == 1
    ensures EffectiveCount([3, 8]) == 8
  {
  }

  /**
   * The read `main` issues for a register type, unit and `register_range`
   * (argument parsing guarantees at least one element): none unless the type
   * is "input" or "holding"; otherwise one read of that kind from the first
   * element of the range, with the effective count.
   */
  function PlanRead(regType: string, unitId: int, registerRange: seq<int>): (plan: Option<Request>)
    requires |registerRange| >= 1
    ensures plan.Some? <==> regType == "input" || regType == "holding"
    ensures plan.Some? ==> plan.value.kind == (if regType == "input" then Input else Holding)
    ensures plan.Some? ==> plan.value.start == registerRange[0] && plan.value.unit == unitId
    ensures plan.Some? ==> plan.value.count == (if |registerRange| == 2 then registerRange[1] else 1)
  {
    var count := EffectiveCount(registerRange);
    if regType == "input" then Some(Request(Input, registerRange[0], count, unitId))
    else if regType == "holding" then Some(Request(Holding, registerRange[0], count, unitId))
    else None
  }

  /**
   * The read path of `main` (debug printing left out). `reply` is what the
   * device answers. With debug on, or an unknown register type, nothing is
   * read and the client is never connected; otherwise exactly one connect and
   * exactly one read happen, and the report is that of the chosen reader.
   */
  method Run(debug: bool, regType: string, unitId: int, registerRange: seq<int>, reply: ReadResult)
    returns (client: Client, out: Option<Report>)
    requires |registerRange| >= 1
    ensures fresh(client)
    ensures debug || PlanRead(regType, unitId, registerRange).None? ==>
              out.None? && client.requests == [] && client.connectCalls == 0 && !client.isOpen
    ensures !debug && PlanRead(regType, unitId, registerRange).Some? ==>
              var req := PlanRead(regType, unitId, registerRange).value;
              client.requests == [req] && client.connectCalls == 1 && client.isOpen &&
              out == Some(if req.kind == Input then InputReport(req.start, reply) else HoldingReport(reply))
  {
    // The count is derived inline, as `main` does; the ensures tie it to EffectiveCount via PlanRead.
    var regRange := 1;
    if |registerRange| == 2 {
      regRange := registerRange[1];
    }
    client := new Client();
    out := None;
    if regType == "input" {
      if !debug {
        var report := ReadInputRegs(client, unitId, registerRange[0], regRange, reply);
        out := Some(report);
      }
    } else if regType == "holding" {
      if !debug {
        var report := ReadHoldRegs(client, unitId, registerRange[0], regRange, reply);
        out := Some(report);
      }
    }
  }
}
