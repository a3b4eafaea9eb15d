/** app/storage/base.py: what is kept under a payload_id. */
module Storage {
  import opened Restoration

  type Key = string

  datatype Record = Record(original: string, masked: string, fragments: seq<Fragment>)
}
