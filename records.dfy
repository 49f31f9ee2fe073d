/** The records the store keeps (one table each) and the package descriptions the installer uses. */
module Records {
  import opened Wrappers

  /** One row of the `wallets` table. `mnemonic` is kept by the newer store; the older one never sets it. */
  datatype Wallet = Wallet(
    publicKey: string,
    privateKey: string,
    current: bool,
    walletLabel: Option<string>,
    mnemonic: Option<string>)

  /** One custom service account; `account` names its group ("twitter", "discord", ...). */
  datatype CustomAccount = CustomAccount(
    account: string,
    password: string,
    email: string,
    emailPassword: string,
    current: bool,
    data: seq<(string, string)>)

  /** The single GitHub user row; `data` stands for the pickled API object. */
  datatype GithubUser = GithubUser(
    login: string,
    name: string,
    email: string,
    accessToken: string,
    data: string)

  /** One environment variable. */
  datatype EnvVar = EnvVar(key: string, value: string)

  /** A package the installer offers; a GitHub package may carry a branch and an access token. */
  datatype Package = Package(
    name: string,
    description: string,
    branch: Option<string>,
    accessToken: Option<string>)

  /** The private keys of `rows`, in order. */
  function PrivateKeys(rows: seq<Wallet>): (r: seq<string>)
    ensures |r| == |rows|
    ensures forall i :: 0 <= i < |rows| ==> r[i] == rows[i].privateKey
  {
    if rows == [] then [] else [rows[0].privateKey] + PrivateKeys(rows[1..])
  }

  /** The public keys of `rows`, in order. */
  function PublicKeys(rows: seq<Wallet>): (r: seq<string>)
    ensures |r| == |rows|
    ensures forall i :: 0 <= i < |rows| ==> r[i] == rows[i].publicKey
  {
    if rows == [] then [] else [rows[0].publicKey] + PublicKeys(rows[1..])
  }
}
