/**
 * The record store: `Database` in `database.py` (wallets and the GitHub user),
 * together with the custom-account and environment-variable tables that the
 * commands reach through the newer store module. Each table is a sequence of
 * rows in query order. Deriving a public key and asking the GitHub API are
 * parameters of the methods that need them.
 */
module Store {
  import opened Wrappers
  import opened Records
  import WalletTable
  import CustomTable
  import opened OptionModel

  /** An e-mail address as the GitHub API lists it. */
  datatype GithubEmail = GithubEmail(address: string, primary: bool)

  /** What `github_api.get_user()` and `user.get_emails()` return for a token. */
  datatype GithubProfile = GithubProfile(login: string, name: string, emails: seq<GithubEmail>, data: string)

  /** Reading a table that was never created raises; a profile without a primary e-mail leaves `user_email` unbound. */
  datatype StoreError = NoSuchTable | UnboundEmail

  /** The first primary address, as the `for ... break` loop finds it. */
  function PrimaryEmail(emails: seq<GithubEmail>): (r: Option<string>)
    ensures r.Some? <==> exists i :: 0 <= i < |emails| && emails[i].primary
    ensures r.Some? ==> (exists i :: 0 <= i < |emails| && emails[i].primary && emails[i].address == r.value &&
                                   forall j :: 0 <= j < i ==> !emails[j].primary)
  {
    if emails == [] then None
    else if emails[0].primary then Some(emails[0].address)
    else
      var r := PrimaryEmail(emails[1..]);
      if r.Some? then
        var i :| 0 <= i < |emails[1..]| && emails[1..][i].primary && emails[1..][i].address == r.value &&
          forall j :: 0 <= j < i ==> !emails[1..][j].primary;
        assert emails[i + 1].primary && forall j :: 0 <= j < i + 1 ==> !emails[j].primary by {
          forall j | 0 <= j < i + 1 ensures !emails[j].primary {
            if j > 0 { assert emails[j] == emails[1..][j - 1]; }
          }
        }
        r
      else
        assert forall i :: 0 < i < |emails| ==> emails[i] == emails[1..][i - 1];
        r
  }

  /** `set_envar(key, value)`: replaces the value of an existing key, or appends a new variable. */
  function WithEnvar(vars: seq<EnvVar>, key: string, value: string): (r: seq<EnvVar>)
    ensures (exists i :: 0 <= i < |vars| && vars[i].key == key) ==> |r| == |vars|
    ensures (forall i :: 0 <= i < |vars| ==> vars[i].key != key) ==> r == vars + [EnvVar(key, value)]
    ensures EnvVar(key, value) in r
    ensures forall i :: 0 <= i < |vars| && vars[i].key != key ==> r[i] == vars[i]
    decreases |vars|
  {
    if vars == [] then [EnvVar(key, value)]
    else if vars[0].key == key then [EnvVar(key, value)] + vars[1..]
    else
      var rest := WithEnvar(vars[1..], key, value);
      assert forall i :: 0 < i < |vars| ==> vars[i] == vars[1..][i - 1];
      var r := [vars[0]] + rest;
      assert forall i :: 0 < i < |r| ==> r[i] == rest[i - 1];
      r
  }

  /** A key not yet in the table is appended with its value. */
  lemma WithNewEnvar(vars: seq<EnvVar>, key: string, value: string)
    requires forall i :: 0 <= i < |vars| ==> vars[i].key != key
    ensures WithEnvar(vars, key, value) == vars + [EnvVar(key, value)]
  {
  }

  class Database {
    var wallets: seq<Wallet>
    var walletTableExists: bool
    var githubUsers: seq<GithubUser>
    var githubTableExists: bool
    var customAccounts: seq<CustomAccount>
    var envVars: seq<EnvVar>

    /** A store whose tables have not been created yet. */
    constructor ()
      ensures wallets == [] && !walletTableExists && githubUsers == [] && !githubTableExists
      ensures customAccounts == [] && envVars == []
    {
      wallets, walletTableExists := [], false;
      githubUsers, githubTableExists := [], false;
      customAccounts, envVars := [], [];
    }

    /** `get_wallets`: every row, in query order; the table must exist. */
    method GetWallets() returns (r: Result<seq<Wallet>, StoreError>)
      ensures walletTableExists ==> r.Ok? && |r.value| == |wallets|
      ensures walletTableExists ==> forall i :: 0 <= i < |wallets| ==> r.value[i] == wallets[i]
      ensures !walletTableExists ==> r == Err(NoSuchTable)
    {
      if !walletTableExists {
        return Err(NoSuchTable);
      }
      r := Ok(wallets);
    }

    /** `get_github_user`: the first row, or `None` when the table is empty. */
    method GetGithubUser() returns (r: Result<Option<GithubUser>, StoreError>)
      ensures !githubTableExists ==> r == Err(NoSuchTable)
      ensures githubTableExists && githubUsers == [] ==> r == Ok(None)
      ensures githubTableExists && githubUsers != [] ==> r == Ok(Some(githubUsers[0]))
    {
      if !githubTableExists {
        return Err(NoSuchTable);
      }
      if githubUsers == [] {
        return Ok(None);
      }
      r := Ok(Some(githubUsers[0]));
    }

    /**
     * `set_github_user(token)`: every previous row is deleted first, then one
     * row holding `token` is created from the profile the API returned. The
     * table is created before the row's fields are read, so a profile without
     * a primary address raises with the table in place and empty.
     */
    method SetGithubUser(token: string, profile: GithubProfile) returns (error: Option<StoreError>)
      modifies this
      ensures error.None? ==> githubTableExists && PrimaryEmail(profile.emails).Some?
      ensures error.None? ==> githubUsers == [GithubUser(profile.login, profile.name, PrimaryEmail(profile.emails).value, token, profile.data)]
      ensures error.Some? ==> error == Some(UnboundEmail) && PrimaryEmail(profile.emails).None?
      ensures error.Some? ==> githubTableExists && githubUsers == []
      ensures wallets == old(wallets) && walletTableExists == old(walletTableExists)
      ensures customAccounts == old(customAccounts) && envVars == old(envVars)
    {
      if githubTableExists {
        githubUsers := [];
      }
      var email: Option<string> := None;
      var i := 0;
      while i < |profile.emails|
        invariant 0 <= i <= |profile.emails|
        invariant email.None? ==> PrimaryEmail(profile.emails) == PrimaryEmail(profile.emails[i..])
        invariant email.Some? ==> PrimaryEmail(profile.emails) == email
        decreases |profile.emails| - i, if email.None? then 1 else 0
      {
        assert profile.emails[i..][1..] == profile.emails[i + 1..];
        if profile.emails[i].primary {
          email := Some(profile.emails[i].address);
          break;
        }
        i := i + 1;
      }
      githubTableExists := true;
      if email.None? {
        assert profile.emails[i..] == [];
        githubUsers := [];
        return Some(UnboundEmail);
      }
      githubUsers := [GithubUser(profile.login, profile.name, email.value, token, profile.data)];
      error := None;
    }

    /** `set_wallet(private_key, label[, mnemonic])`: creates the table, then the rule of `WalletTable.SetWallet`. */
    method SetWallet(privateKey: string, newLabel: Option<string>, mnemonic: Option<string>,
                     publicKeyOf: string -> Option<string>) returns (error: Option<WalletTable.WalletError>)
      modifies this
      ensures walletTableExists
      ensures WalletTable.Update(error, wallets) == WalletTable.SetWallet(old(wallets), privateKey, newLabel, mnemonic, publicKeyOf)
      ensures githubUsers == old(githubUsers) && githubTableExists == old(githubTableExists)
      ensures customAccounts == old(customAccounts) && envVars == old(envVars)
    {
      walletTableExists := true;
      var u := WalletTable.SetWallet(wallets, privateKey, newLabel, mnemonic, publicKeyOf);
      wallets := u.rows;
      error := u.error;
    }

    /** `set_envar(key, value)` */
    method SetEnvar(key: string, value: string)
      modifies this
      ensures envVars == WithEnvar(old(envVars), key, value)
      ensures wallets == old(wallets) && walletTableExists == old(walletTableExists)
      ensures githubUsers == old(githubUsers) && githubTableExists == old(githubTableExists)
      ensures customAccounts == old(customAccounts)
    {
      envVars := WithEnvar(envVars, key, value);
    }

    /**
     * Runs a handler the menus bind. Store commands change their table as the
     * table modules define; the others (the Exit handler, the no-op, nested
     * screens and installs) leave the store alone. Only the wallet deletions
     * need the wallet table: custom-account handlers run without it.
     */
    method Perform(command: Command, publicKeyOf: string -> Option<string>) returns (error: Option<WalletTable.WalletError>)
      requires command.DeleteWallet? || command.DeleteWalletAndPromote? ==> walletTableExists
      modifies this
      ensures walletTableExists == (old(walletTableExists) || command.SetWallet?)
      ensures githubUsers == old(githubUsers) && githubTableExists == old(githubTableExists) && envVars == old(envVars)
      ensures command.SetWallet? ==>
        WalletTable.Update(error, wallets) == WalletTable.SetWallet(old(wallets), command.privateKey, command.walletLabel, None, publicKeyOf)
      ensures command.DeleteWallet? ==> error == None && wallets == WalletTable.DeleteWallet(old(wallets), command.privateKey)
      ensures command.DeleteWalletAndPromote? ==>
        WalletTable.Update(error, wallets) == WalletTable.DeleteWalletAndPromote(old(wallets), command.privateKey, publicKeyOf)
      ensures command.SetCustomAccount? ==> customAccounts == CustomTable.SetCustomAccount(old(customAccounts), command.record)
      ensures command.DeleteCustomAccount? ==>
        customAccounts == CustomTable.DeleteCustomAccount(old(customAccounts), command.account, command.email)
      ensures command.DeleteCustomAccountAndPromote? ==>
        customAccounts == CustomTable.DeleteCustomAccountAndPromote(old(customAccounts), command.account, command.email)
      ensures command.DeleteAccountGroup? ==> customAccounts == CustomTable.DeleteAccountGroup(old(customAccounts), command.account)
      ensures !(command.SetWallet? || command.DeleteWallet? || command.DeleteWalletAndPromote?) ==>
        wallets == old(wallets) && error == None
      ensures (!command.SetCustomAccount? && !command.DeleteCustomAccount? && !command.DeleteCustomAccountAndPromote? &&
               !command.DeleteAccountGroup?) ==> customAccounts == old(customAccounts)
    {
      error := None;
      match command
      case SetWallet(pk, l) =>
        error := SetWallet(pk, l, None, publicKeyOf);
      case DeleteWallet(pk) =>
        wallets := WalletTable.DeleteWallet(wallets, pk);
      case DeleteWalletAndPromote(pk) =>
        var u := WalletTable.DeleteWalletAndPromote(wallets, pk, publicKeyOf);
        wallets, error := u.rows, u.error;
      case SetCustomAccount(a) =>
        customAccounts := CustomTable.SetCustomAccount(customAccounts, a);
      case DeleteCustomAccount(g, e) =>
        customAccounts := CustomTable.DeleteCustomAccount(customAccounts, g, e);
      case DeleteCustomAccountAndPromote(g, e) =>
        customAccounts := CustomTable.DeleteCustomAccountAndPromote(customAccounts, g, e);
      case DeleteAccountGroup(g) =>
        customAccounts := CustomTable.DeleteAccountGroup(customAccounts, g);
      case _ =>
    }
  }
}
