/** The output report: where its status, result and CRC lie, and the status bytes. */
module Output {
  const OUTPUT_CMD_STATUS_OFFSET := 6
  const OUTPUT_CMD_RESULT_OFFSET := 7
  const OUTPUT_CRC_OFFSET := 60
  const STATUS_OK: bv8 := 0
  const STATUS_WRONG_CRC: bv8 := 1
  const STATUS_WRONG_SLOT: bv8 := 2
  const STATUS_SLOT_NOT_PROGRAMMED: bv8 := 3
  const STATUS_WRONG_PASSWORD: bv8 := 4
  const STATUS_NOT_AUTHORIZED: bv8 := 5
  const STATUS_TIMESTAMP_WARNING: bv8 := 6
  const STATUS_NO_NAME_ERROR: bv8 := 7
  const STATUS_UNKNOWN_ERROR: bv8 := 100
}
