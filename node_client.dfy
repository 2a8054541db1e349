/** The node's discovery state: where the host was last seen advertising,
    updated on the browser's service notifications, and the dotted-decimal
    rendering of an advertised address. */
module NodeClient {
  import opened Wrappers
  import opened Text

  type Byte = b: int | 0 <= b < 256

  /** The part of zeroconf's ServiceInfo the node reads. */
  datatype ServiceInfo = ServiceInfo(addresses: seq<seq<Byte>>, port: int)

  /** ServiceStateChange */
  datatype StateChange = Added | Removed | Updated

  /** str(b) for every byte of an address. */
  function Fields(address: seq<Byte>): (f: seq<string>)
    ensures |f| == |address| && forall k :: 0 <= k < |f| ==> f[k] == DecimalText(address[k])
  {
    seq(|address|, k requires 0 <= k < |address| => DecimalText(address[k]))
  }

  /** _decode_ip: the first address joined with dots; None stands for the
      IndexError raised when the record lists no address. */
  function DecodeIp(info: ServiceInfo): (r: Option<string>)
    ensures r.Some? <==> |info.addresses| > 0
  {
    if |info.addresses| == 0 then None else Some(Join(Fields(info.addresses[0]), '.'))
  }

  /** A rendered address has one dot fewer than it has bytes, and its
      dot-separated fields are decimal numbers that read back as the bytes. */
  lemma DottedReadsBack(address: seq<Byte>)
    requires |address| >= 1
    ensures var s := Join(Fields(address), '.');
      && multiset(s)['.'] == |address| - 1
      && |Split(s, '.')| == |address|
      && forall k :: 0 <= k < |address| ==>
           var f := Split(s, '.')[k]; IsDigits(f) && DigitsValue(f) == address[k]
  {
    var fields := Fields(address);
    forall k | 0 <= k < |fields| ensures '.' !in fields[k] && IsDigits(fields[k]) && DigitsValue(fields[k]) == address[k] {
      DecimalTextRoundTrip(address[k]);
    }
    SplitJoin(fields, '.');
    JoinCountsSeparators(fields, '.');
  }

  /** An IPv4 address renders as four fields of 0-255 separated by exactly three dots. */
  lemma DottedQuad(info: ServiceInfo)
    requires |info.addresses| > 0 && |info.addresses[0]| == 4
    ensures var s := DecodeIp(info).value;
      && multiset(s)['.'] == 3
      && |Split(s, '.')| == 4
      && forall k :: 0 <= k < 4 ==>
           var f := Split(s, '.')[k]; IsDigits(f) && 0 <= DigitsValue(f) <= 255
  {
    DottedReadsBack(info.addresses[0]);
  }

  class AlarmNode {
    var hostIp: Option<string>
    var hostPort: Option<int>

    constructor ()
      ensures hostIp == None && hostPort == None
    {
      hostIp, hostPort := None, None;
    }

    /** _on_service_state_change. info is the service lookup, consulted
        only on Added; raised reports the IndexError of a record without
        any address, which leaves both fields as they were. */
    method OnServiceStateChange(change: StateChange, info: Option<ServiceInfo>) returns (raised: bool)
      modifies this
      ensures change == Added && info.Some? && |info.value.addresses| > 0 ==>
        !raised && hostIp == DecodeIp(info.value) && hostPort == Some(info.value.port)
      ensures change == Added && info.Some? && |info.value.addresses| == 0 ==>
        raised && hostIp == old(hostIp) && hostPort == old(hostPort)
      ensures change == Added && info.None? ==> !raised && hostIp == old(hostIp) && hostPort == old(hostPort)
      ensures change == Removed ==> !raised && hostIp == None && hostPort == None
      ensures change == Updated ==> !raised && hostIp == old(hostIp) && hostPort == old(hostPort)
    {
      raised := false;
      if change == Added {
        if info.Some? {
          var ip := DecodeIp(info.value);
          if ip.None? {
            return true;
          }
          hostIp := ip;
          hostPort := Some(info.value.port);
        }
      } else if change == Removed {
        hostIp := None;
        hostPort := None;
      }
    }
  }
}
