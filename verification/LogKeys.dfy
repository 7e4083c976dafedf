/**
 The names of logged quantities, common to all log formats.
 */
module LogKeys {
  type Key = string
}
