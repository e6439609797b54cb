/** The states of a PCM stream. */
module PcmStates {
  datatype State = Open | Setup | Prepared | Running | Xrun | Draining | Paused | Suspended | Disconnected
}
