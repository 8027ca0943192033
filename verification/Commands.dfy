/** The typed commands of the native protocol. */
module Commands {
  import opened Wrappers

  datatype Command =
    | SetFrequency(vfo: nat, hz: nat)
    | SetMode(mode: nat)
    | SetSplit(enabled: bool)
    | SetMemoryChannel(channel: nat)
    | SetFilterWidth(width: nat)
    | SetIfShift(shift: int)
    | ReadMeter(meter: nat)
    | Retune(dial: nat)
    | ReadDevices
    | AttachDevice(kind: nat, spec: string)
    | ReadState
    | SetKeyerSpeed(wpm: nat)
    | ArmCwTransmit(callsign: string, dummyLoadAcknowledged: bool, keyDownCapS: Option<nat>)
    | SendCwText(text: string)
    | AbortCw
    | DisarmCw
}
