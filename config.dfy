/**
 * The configuration file `export` writes and `import` reads: a JSON object
 * whose single key `user` holds the four sections below. A JSON `null` is
 * `None`; the file's text encoding is not modelled.
 */
module Config {
  import opened Wrappers
  import opened Records

  /**
   * One element of `wallets`: a wallet object without its public key, or,
   * when that key was falsy at export, the bare key value itself.
   */
  datatype ConfigWallet =
    | WalletEntry(privateKey: string, walletLabel: Option<string>, mnemonic: Option<string>, current: bool)
    | BareWallet(value: Option<string>)

  /** The `user` object. `env` is a JSON object: its entries in key order. */
  datatype UserConfig = UserConfig(
    wallets: Option<seq<ConfigWallet>>,
    custom: Option<seq<CustomAccount>>,
    github: Option<string>,
    env: Option<seq<EnvVar>>)

  /** Python truthiness of a section: present and non-empty. */
  predicate Present<T>(section: Option<seq<T>>)
  {
    section.Some? && section.value != []
  }
}
