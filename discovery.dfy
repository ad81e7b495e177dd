/** `find_port` from egg_bot_serial.py: picks the serial port of the EiBotBoard
    (the egg-bot's controller) among the ports pyserial lists. */
module Discovery {
  import opened Wrappers
  import opened Text

  /** One entry of `serial.tools.list_ports.comports()`. */
  datatype PortInfo = PortInfo(device: string, description: string)

  /** The board shows up as a port whose description starts with "USB". */
  predicate IsUsb(p: PortInfo)
  {
    StartsWith(p.description, "USB")
  }

  /** Port `i` is the first one with a "USB" description. */
  predicate FirstUsbAt(ports: seq<PortInfo>, i: int)
  {
    0 <= i < |ports| && IsUsb(ports[i]) && forall j :: 0 <= j < i ==> !IsUsb(ports[j])
  }

  /** `find_port`. `ports` is the list `comports()` returns, or `None` when the port listing
      cannot be imported or is unavailable. The result is the device of the first port whose
      description starts with "USB", or `None` when there is none. */
  method FindPort(ports: Option<seq<PortInfo>>) returns (r: Option<string>)
    ensures ports.None? ==> r.None?
    ensures ports.Some? ==> (r.Some? <==> exists i :: 0 <= i < |ports.value| && IsUsb(ports.value[i]))
    ensures r.Some? ==> ports.Some? && exists i :: FirstUsbAt(ports.value, i) && r.value == ports.value[i].device
  {
    if ports.None? {
      return None;
    }
    var list := ports.value;
    r := None;
    var i := 0;
    while i < |list|
      invariant i <= |list|
      invariant forall j :: 0 <= j < i ==> !IsUsb(list[j])
    {
      if StartsWith(list[i].description, "USB") {
        r := Some(list[i].device);
        break;
      }
      i := i + 1;
    }
  }
}
