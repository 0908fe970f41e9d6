// Records kept per miner.

module Records {
  import opened Bytes
  import opened Wrappers

  const MINIMUM_BOND_LYT: nat := 10_000_000
  const BOND_LOCKUP_BLOCKS: nat := 20_160

  datatype Bond = Bond(amount: u64, createdAt: u64, lockUntil: u64)

  // `payout` is the address rewards go to, when one is registered.
  datatype Miner = Miner(shares: u64, payout: Option<string>)
}
