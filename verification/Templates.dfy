/** bitcoin/template.go: what a node proposes for the next block. */
module Templates {
  import opened Bytes

  datatype Transaction = Transaction(data: string, id: string)

  datatype Template = Template(
    version: uint64,
    prevBlockHash: string,
    height: uint64,
    coinbaseValue: uint64,
    defaultWitnessCommitment: string,
    bits: string,
    target: string,
    transactions: seq<Transaction>,
    currentTime: uint64,
    mimbleWimble: string)
}
