/** What stays fixed while the service runs: the vaults with their keys and flags, and the libraries. */
module Vaults {
  import opened Prelude
  import opened Crypto
  import Config
  import Multipart

  datatype Policy = Policy(recipient: Recipient, permissions: Config.Permissions)

  /** `kdf` stands for the key derivation function, `json` for the JSON object reader. */
  datatype Env = Env(vaults: map<string, Policy>, kdf: Kdf, json: Multipart.ObjectReader)
}
