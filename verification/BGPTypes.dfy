/** The values of path attributes that routes keep and messages carry. */
module BGPTypes {
  import opened Words

  datatype Segment = Segment(kind: uint8, asns: seq<uint32>)

  datatype Aggregator = Aggregator(address: uint32, asn: uint16)

  datatype LargeCommunity = LargeCommunity(globalAdministrator: uint32, dataPart1: uint32, dataPart2: uint32)
}
