/**
 * Device discovery (`find_arduino`): scan the enumerated serial ports and
 * pick the one whose manufacturer names the microcontroller vendor.
 */
module Locator {
  import opened Wrappers

  /** An enumerated serial port: its device path and the manufacturer the
      driver reports, if any. */
  datatype Port = Port(device: string, manufacturer: Option<string>)

  const Marker: string := "Arduino"

  /** Python's `pattern in text` on strings: a case-sensitive substring test. */
  predicate Contains(text: string, pattern: string) {
    exists i :: 0 <= i <= |text| && pattern <= text[i..]
  }

  /** The loop's test: a manufacturer is reported and contains the marker. */
  predicate IsArduino(p: Port) {
    p.manufacturer.Some? && Contains(p.manufacturer.value, Marker)
  }

  /**
   * The port the scan settles on: the LAST matching port in enumeration
   * order, each match overwriting the previous one, or None when no port
   * matches.
   */
  function LastArduino(ports: seq<Port>): (r: Option<Port>)
    ensures r.None? <==> forall i :: 0 <= i < |ports| ==> !IsArduino(ports[i])
    ensures r.Some? ==> exists i :: 0 <= i < |ports| && ports[i] == r.value && IsArduino(ports[i]) &&
                                    forall j :: i < j < |ports| ==> !IsArduino(ports[j])
  {
    if ports == [] then None
    else
      var prefix := ports[..|ports| - 1];
      var last := ports[|ports| - 1];
      if IsArduino(last) then Some(last)
      else
        var r := LastArduino(prefix);
        PrefixStep(ports, r);
        r
  }

  lemma PrefixStep(ports: seq<Port>, r: Option<Port>)
    requires |ports| > 0 && !IsArduino(ports[|ports| - 1])
    requires var prefix := ports[..|ports| - 1];
      (r.None? <==> forall i :: 0 <= i < |prefix| ==> !IsArduino(prefix[i])) &&
      (r.Some? ==> exists i :: 0 <= i < |prefix| && prefix[i] == r.value && IsArduino(prefix[i]) &&
                               forall j :: i < j < |prefix| ==> !IsArduino(prefix[j]))
    ensures r.None? <==> forall i :: 0 <= i < |ports| ==> !IsArduino(ports[i])
    ensures r.Some? ==> exists i :: 0 <= i < |ports| && ports[i] == r.value && IsArduino(ports[i]) &&
                                    forall j :: i < j < |ports| ==> !IsArduino(ports[j])
  {
    var prefix := ports[..|ports| - 1];
    assert forall i :: 0 <= i < |prefix| ==> prefix[i] == ports[i];
    if r.Some? {
      var i :| 0 <= i < |prefix| && prefix[i] == r.value && IsArduino(prefix[i]) &&
               forall j :: i < j < |prefix| ==> !IsArduino(prefix[j]);
      assert ports[i] == r.value && IsArduino(ports[i]);
      assert forall j :: i < j < |ports| ==> !IsArduino(ports[j]) by {
        forall j | i < j < |ports| ensures !IsArduino(ports[j]) {
          if j < |prefix| { assert prefix[j] == ports[j]; }
        }
      }
    }
  }

  /**
   * The scan of `find_arduino`: walk the ports in order, remembering the
   * latest match. None stands for the "Arduino not found" exception.
   */
  method FindArduino(ports: seq<Port>) returns (port: Option<Port>)
    ensures port == LastArduino(ports)
  {
    port := None;
    for i := 0 to |ports|
      invariant port == LastArduino(ports[..i])
    {
      if ports[i].manufacturer.Some? && Contains(ports[i].manufacturer.value, Marker) {
        port := Some(ports[i]);
      }
      assert ports[..i + 1][..i] == ports[..i];
    }
    assert ports[..|ports|] == ports;
  }

  /** The match after which no port matches is the one selected. */
  lemma {:induction false} LastMatchSelected(ports: seq<Port>, j: nat)
    requires j < |ports| && IsArduino(ports[j])
    requires forall k :: j < k < |ports| ==> !IsArduino(ports[k])
    ensures LastArduino(ports) == Some(ports[j])
    decreases |ports|
  {
    if j < |ports| - 1 {
      var prefix := ports[..|ports| - 1];
      assert forall k :: 0 <= k < |prefix| ==> prefix[k] == ports[k];
      LastMatchSelected(prefix, j);
    }
  }

  /** A port that is the only match is selected wherever it stands. */
  lemma SoleMatchSelected(ports: seq<Port>, k: nat)
    requires k < |ports| && IsArduino(ports[k])
    requires forall j :: 0 <= j < |ports| && j != k ==> !IsArduino(ports[j])
    ensures LastArduino(ports) == Some(ports[k])
  {
    LastMatchSelected(ports, k);
  }
}
