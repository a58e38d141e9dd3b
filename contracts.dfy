/**
 * The per-network address tables of the frontend and their two lookups:
 * the chat registry address, which falls back to the Sepolia deployment,
 * and the price-oracle address pair, which exists on Sepolia only.
 */
module Contracts {
  import opened Wrappers

  const Sepolia: int := 11155111
  const LiskSepolia: int := 4202
  const Mainnet: int := 1

  const RegistryAddress: string := "0x6C74B43b04C17322c5DfCE754b1d321EF7DF1a2c"
  const ZeroAddress: string := "0x0000000000000000000000000000000000000000"

  /** Chat registry deployment per chain id. */
  const ContractAddresses: map<int, string> :=
    map[Sepolia := RegistryAddress, LiskSepolia := RegistryAddress, Mainnet := ZeroAddress]

  datatype OracleAddresses = OracleAddresses(chainlinkPriceOracle: string, priceChatIntegration: string)

  const SepoliaOracle: OracleAddresses := OracleAddresses(
    "0x4B001ec1F48dAE2883Fa2Dba87bE7ADc66F1B3f7",
    "0xBeC8dD4CA8b227c04BCD23EB4Bcf3bCE4E5BF795")

  /** Price oracle and price-chat integration deployments per chain id. */
  const PriceOracleAddresses: map<int, OracleAddresses> := map[Sepolia := SepoliaOracle]

  /** The default registry address, written out separately from the table. */
  const ContractAddress: string := "0x6C74B43b04C17322c5DfCE754b1d321EF7DF1a2c"

  /**
   * `CONTRACT_ADDRESSES[chainId] || CONTRACT_ADDRESSES[11155111]`: the table
   * entry when it is present and truthy, the Sepolia entry otherwise. Every
   * entry is a non-empty string, so a listed chain always gets its own entry.
   */
  function GetContractAddress(chainId: int): (address: string)
    ensures address != ""
    ensures chainId in ContractAddresses ==> address == ContractAddresses[chainId]
    ensures chainId !in ContractAddresses ==> address == ContractAddresses[Sepolia]
  {
    if chainId in ContractAddresses && ContractAddresses[chainId] != "" then
      ContractAddresses[chainId]
    else
      ContractAddresses[Sepolia]
  }

  /** `PRICE_ORACLE_ADDRESSES[chainId]`, `undefined` for every chain but Sepolia. */
  function GetPriceOracleAddresses(chainId: int): (addresses: Option<OracleAddresses>)
    ensures addresses.Some? <==> chainId == Sepolia
    ensures addresses.Some? ==> addresses.value == SepoliaOracle
  {
    if chainId in PriceOracleAddresses then Some(PriceOracleAddresses[chainId]) else None
  }

  /**
   * Mainnet's entry is the all-zero address; it is a non-empty string, so
   * the `||` fallback does not replace it with the Sepolia deployment.
   */
  lemma MainnetResolvesToZeroAddress()
    ensures GetContractAddress(Mainnet) == ZeroAddress
    ensures GetContractAddress(Mainnet) != GetContractAddress(Sepolia)
  {
  }

  /**
   * The separately written default equals the Sepolia entry, which is also
   * what every chain missing from the table resolves to.
   */
  lemma ContractAddressIsFallback(chainId: int)
    ensures ContractAddress == GetContractAddress(Sepolia)
    ensures chainId !in {Sepolia, LiskSepolia, Mainnet} ==> GetContractAddress(chainId) == ContractAddress
  {
  }
}
