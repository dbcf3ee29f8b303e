/**
 * The protocol constants of the radar module. Their values live in the
 * driver's `constants.py`, which is not part of this model, so they are a
 * parameter: every operation is proved for every choice of byte values.
 */
module Protocol {
  import opened Bytes

  datatype Constants = Constants(
    head: byte,              // GBT24LTR11_MESSAGE_HEAD: first byte of every frame
    receiveAddress: byte,    // GBT24LTR11_RECEIVE_ADDRESS: address byte of host-to-radar frames
    sendAddress: byte,       // GBT24LTR11_SEND_ADDRESS: address byte of radar-to-host frames
    getTarget: byte,         // GBT24LTR11_COMMAND_GET_TARGET
    getIqadc: byte,          // GBT24LTR11_COMMAND_GET_IQADC
    getSpeedScope: byte,     // GBT24LTR11_COMMAND_GET_SPEED_SCOPE
    setSpeedScope: byte,     // GBT24LTR11_COMMAND_SET_SPEED_SCOPE
    getMode: byte,           // GBT24LTR11_COMMAND_GET_MODE
    setMode: byte,           // GBT24LTR11_COMMAND_SET_MODE
    getThreshold: byte,      // GBT24LTR11_COMMAND_GET_THRESHOLD
    setThreshold: byte,      // GBT24LTR11_COMMAND_SET_THRESHOLD
    modeTarget: byte,        // GBT24LTR11_MODE_TARGET
    modeIqadc: byte          // GBT24LTR11_MODE_IQADC
  )
}
