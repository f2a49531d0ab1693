/**
 * The EC2 requests that change a node's interfaces and addresses.
 *
 * EC2 answers however it likes; the object keeps the list of requests made and how each was
 * answered, so that the methods of the other modules can say what they asked for.
 */
module Ec2Api {
  import opened Wrap
  import opened RegistryFile

  /** What `CreateNetworkInterface` returns: the interface's id, its MAC address and its addresses. */
  datatype NewEni = NewEni(id: string, mac: string, ips: seq<IP>)

  datatype Call =
    | Assign(eni: string, count: int, ok: bool)
    | Unassign(eni: string, ip: IP, ok: bool)
    | Create(subnet: string, secondary: Option<int>, made: Result<NewEni>)
    | Attach(eni: string, index: int, ok: bool)
    | Describe(eni: string, status: Result<string>)
    | Detach(eni: string, ok: bool)
    | Delete(eni: string, ok: bool)

  /** The addresses that EC2 was asked to take back and took back, in order. */
  function TakenBack(calls: seq<Call>): seq<IP> {
    if calls == [] then []
    else
      var last := calls[|calls| - 1];
      TakenBack(calls[..|calls| - 1]) + if last.Unassign? && last.ok then [last.ip] else []
  }

  class Ec2 {
    var calls: seq<Call>

    method AssignPrivateIpAddresses(eni: string, count: int) returns (ok: bool)
      modifies this
      ensures calls == old(calls) + [Assign(eni, count, ok)]
    {
      ok := *;
      calls := calls + [Assign(eni, count, ok)];
    }

    method UnassignPrivateIpAddresses(eni: string, ip: IP) returns (ok: bool)
      modifies this
      ensures calls == old(calls) + [Unassign(eni, ip, ok)]
    {
      ok := *;
      calls := calls + [Unassign(eni, ip, ok)];
    }

    method CreateNetworkInterface(subnet: string, secondary: Option<int>) returns (made: Result<NewEni>)
      modifies this
      ensures calls == old(calls) + [Create(subnet, secondary, made)]
    {
      made := *;
      calls := calls + [Create(subnet, secondary, made)];
    }

    method AttachNetworkInterface(eni: string, index: int) returns (ok: bool)
      modifies this
      ensures calls == old(calls) + [Attach(eni, index, ok)]
    {
      ok := *;
      calls := calls + [Attach(eni, index, ok)];
    }

    method DescribeNetworkInterface(eni: string) returns (status: Result<string>)
      modifies this
      ensures calls == old(calls) + [Describe(eni, status)]
    {
      status := *;
      calls := calls + [Describe(eni, status)];
    }

    method DetachNetworkInterface(eni: string) returns (ok: bool)
      modifies this
      ensures calls == old(calls) + [Detach(eni, ok)]
    {
      ok := *;
      calls := calls + [Detach(eni, ok)];
    }

    method DeleteNetworkInterface(eni: string) returns (ok: bool)
      modifies this
      ensures calls == old(calls) + [Delete(eni, ok)]
    {
      ok := *;
      calls := calls + [Delete(eni, ok)];
    }
  }
}
