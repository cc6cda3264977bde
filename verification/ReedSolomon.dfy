/** The (32, 32) erasure code as two arbitrary functions; only `RecoversFromHalf` is ever assumed. */
module ReedSolomon {
  import opened Common
  import opened ByteStrings

  /** Common shard size of the standard batch (proof size 6, chained, not resigned). */
  const ERASURE_SHARD_SIZE: nat := 987

  type Shard = s: Bytes | |s| == ERASURE_SHARD_SIZE witness Zeros(987)
  function ZeroShard(): Shard { Zeros(987) }

  type Half = h: seq<Shard> | |h| == 32 witness seq<Shard>(32, i => ZeroShard())
  type Table = t: seq<Option<Shard>> | |t| == 64 witness seq(64, i => None)

  datatype ErasureCode = ErasureCode(encode: Half -> Half, reconstructs: Table -> bool)

  function Filled(t: Table): (r: set<nat>)
    ensures forall i :: i in r <==> 0 <= i < 64 && t[i].Some?
  {
    set i: nat | 0 <= i < 64 && t[i].Some?
  }

  /** Any 32 of the 64 equal-length shards reconstruct. */
  ghost predicate RecoversFromHalf(rs: ErasureCode) {
    forall t: Table :: |Filled(t)| >= 32 ==> rs.reconstructs(t)
  }
}
