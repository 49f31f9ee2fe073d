/**
 * `make dotenv` in `cli/_make.py`: the `.env` file written from the current
 * wallet, the environment variables and the current custom accounts. The
 * file is modelled as its sequence of lines (each written with a trailing
 * newline). `constant_case` belongs to a helper module that is not part of
 * this model and is a parameter; whether the folders of the path exist is a
 * parameter too.
 */
module Dotenv {
  import opened Wrappers
  import opened PyStr
  import opened Records
  import opened Counting

  const DefaultPath: string := ".env"
  const FolderMessage: string := "All folders in path must exist"
  const WalletHeader: string := "# Wallet credential"
  const EnvHeader: string := "# Environment variables"
  const CustomHeader: string := "# Custom account credentials"

  /**
   * What the command does: the lines written to `path`; the `IndexError`
   * of `get_wallets(current=True)[0]`, raised before the file is opened; or
   * the error shown when a folder of the path is missing.
   */
  datatype DotenvOutcome =
    | Written(path: string, lines: seq<string>)
    | NoCurrentWallet
    | FolderMissing(message: string)

  /** `f"{key}='{value}'"`: the value in single quotes, nothing escaped. */
  function Assignment(key: string, value: string): (r: string)
    ensures |r| == |key| + |value| + 3
    ensures r[..|key|] == key && r[|key|] == '=' && r[|key| + 1] == '\'' && r[|r| - 1] == '\''
    ensures r[|key| + 2..|r| - 1] == value
  {
    key + "='" + value + "'"
  }

  /** `get_wallets(current=True)[0]`: the first current wallet in table order, if any. */
  function FirstCurrentWallet(rows: seq<Wallet>): (r: Option<Wallet>)
    ensures r.None? <==> forall i :: 0 <= i < |rows| ==> !rows[i].current
    ensures r.Some? ==> exists i :: 0 <= i < |rows| && rows[i] == r.value && r.value.current &&
                                    forall j :: 0 <= j < i ==> !rows[j].current
  {
    if rows == [] then None
    else if rows[0].current then Some(rows[0])
    else
      var r := FirstCurrentWallet(rows[1..]);
      assert forall i :: 0 < i < |rows| ==> rows[i] == rows[1..][i - 1];
      if r.Some? then
        var i :| 0 <= i < |rows[1..]| && rows[1..][i] == r.value && r.value.current &&
          forall j :: 0 <= j < i ==> !rows[1..][j].current;
        assert rows[i + 1] == r.value;
        r
      else r
  }

  predicate IsCurrentAccount(a: CustomAccount) { a.current }

  /** The wallet section. */
  function WalletLines(w: Wallet): (r: seq<string>)
    ensures |r| == 4 && r[0] == WalletHeader && r[3] == ""
    ensures r[1] == Assignment("TEST_PRIVATE_KEY", w.privateKey)
    ensures r[2] == Assignment("TEST_MNEMONIC", Format(w.mnemonic))
  {
    [WalletHeader, Assignment("TEST_PRIVATE_KEY", w.privateKey), Assignment("TEST_MNEMONIC", Format(w.mnemonic)), ""]
  }

  /** One `KEY='value'` line per variable, keys as stored. */
  function EnvLines(vars: seq<EnvVar>): (r: seq<string>)
    ensures |r| == |vars|
    ensures forall i :: 0 <= i < |vars| ==> r[i] == Assignment(vars[i].key, vars[i].value)
  {
    seq(|vars|, i requires 0 <= i < |vars| => Assignment(vars[i].key, vars[i].value))
  }

  /** The fields left after popping `account`, `current` and `data`, then the data entries. */
  function AccountFields(a: CustomAccount): seq<(string, string)>
  {
    [("password", a.password), ("email", a.email), ("email_password", a.emailPassword)] + a.data
  }

  /** `constant_case(f'{account}_{key}')` for each field, then the blank line closing the account. */
  function AccountLines(a: CustomAccount, constantCase: string -> string): (r: seq<string>)
    ensures |r| == |AccountFields(a)| + 1 && r[|r| - 1] == ""
    ensures forall i :: 0 <= i < |AccountFields(a)| ==>
      r[i] == Assignment(constantCase(a.account + "_" + AccountFields(a)[i].0), AccountFields(a)[i].1)
  {
    var fields := AccountFields(a);
    seq(|fields|, i requires 0 <= i < |fields| => Assignment(constantCase(a.account + "_" + fields[i].0), fields[i].1)) + [""]
  }

  /** The lines of several accounts, one after the other. */
  function AccountsLines(accounts: seq<CustomAccount>, constantCase: string -> string): seq<string>
    decreases |accounts|
  {
    if accounts == [] then []
    else AccountsLines(accounts[..|accounts| - 1], constantCase) + AccountLines(accounts[|accounts| - 1], constantCase)
  }

  /** The whole file: the wallet section, then the non-empty env and custom sections. */
  function DotenvLines(w: Wallet, vars: seq<EnvVar>, accounts: seq<CustomAccount>,
                       constantCase: string -> string): (r: seq<string>)
    ensures |r| >= 4 && r[0] == WalletHeader && r[|r| - 1] == ""
  {
    WalletLines(w)
    + (if vars != [] then [EnvHeader] + EnvLines(vars) + [""] else [])
    + (if accounts != [] then [CustomHeader] + AccountsLines(accounts, constantCase) else [])
  }

  /** The command, from the tables as they are read. */
  function DotenvSpec(path: Option<string>, foldersExist: bool, wallets: seq<Wallet>, custom: seq<CustomAccount>,
                      vars: seq<EnvVar>, constantCase: string -> string): (r: DotenvOutcome)
    ensures r.Written? ==>
      FirstCurrentWallet(wallets).Some? && foldersExist && |r.lines| >= 4 &&
      r.lines[1] == Assignment("TEST_PRIVATE_KEY", FirstCurrentWallet(wallets).value.privateKey)
    ensures r.FolderMissing? ==> !foldersExist && r.message == FolderMessage
  {
    match FirstCurrentWallet(wallets)
    case None => NoCurrentWallet
    case Some(w) =>
      if !foldersExist then FolderMissing(FolderMessage)
      else Written(if path.Some? then path.value else DefaultPath,
                   DotenvLines(w, vars, Filter(custom, IsCurrentAccount), constantCase))
  }

  /** The lines of one account, written field by field as the inner loops do. */
  method WriteAccount(a: CustomAccount, constantCase: string -> string) returns (lines: seq<string>)
    ensures lines == AccountLines(a, constantCase)
  {
    var fields := [("password", a.password), ("email", a.email), ("email_password", a.emailPassword)];
    lines := [];
    var i := 0;
    while i < |fields|
      invariant 0 <= i <= |fields|
      invariant |lines| == i
      invariant forall j :: 0 <= j < i ==> lines[j] == Assignment(constantCase(a.account + "_" + fields[j].0), fields[j].1)
    {
      lines := lines + [Assignment(constantCase(a.account + "_" + fields[i].0), fields[i].1)];
      i := i + 1;
    }
    var k := 0;
    while k < |a.data|
      invariant 0 <= k <= |a.data|
      invariant |lines| == |fields| + k
      invariant forall j :: 0 <= j < |fields| + k ==>
        lines[j] == Assignment(constantCase(a.account + "_" + AccountFields(a)[j].0), AccountFields(a)[j].1)
    {
      lines := lines + [Assignment(constantCase(a.account + "_" + a.data[k].0), a.data[k].1)];
      k := k + 1;
    }
    lines := lines + [""];
  }

  /** The env loop: one line per variable. */
  method WriteEnv(vars: seq<EnvVar>) returns (lines: seq<string>)
    ensures lines == EnvLines(vars)
  {
    lines := [];
    var i := 0;
    while i < |vars|
      invariant 0 <= i <= |vars|
      invariant lines == EnvLines(vars[..i])
    {
      lines := lines + [Assignment(vars[i].key, vars[i].value)];
      i := i + 1;
    }
    assert vars[..i] == vars;
  }

  /** The custom-account loop. */
  method WriteAccounts(accounts: seq<CustomAccount>, constantCase: string -> string) returns (lines: seq<string>)
    ensures lines == AccountsLines(accounts, constantCase)
  {
    lines := [];
    var i := 0;
    while i < |accounts|
      invariant 0 <= i <= |accounts|
      invariant lines == AccountsLines(accounts[..i], constantCase)
    {
      var accountLines := WriteAccount(accounts[i], constantCase);
      assert accounts[..i + 1][..i] == accounts[..i];
      lines := lines + accountLines;
      i := i + 1;
    }
    assert accounts[..i] == accounts;
  }

  /** `dotenv(path)`. */
  method Dotenv(path: Option<string>, foldersExist: bool, wallets: seq<Wallet>, custom: seq<CustomAccount>,
                vars: seq<EnvVar>, constantCase: string -> string) returns (r: DotenvOutcome)
    ensures r == DotenvSpec(path, foldersExist, wallets, custom, vars, constantCase)
  {
    var current := FirstCurrentWallet(wallets);
    if current.None? {
      return NoCurrentWallet;
    }
    var accounts := Filter(custom, IsCurrentAccount);
    if !foldersExist {
      return FolderMissing(FolderMessage);
    }
    var w := current.value;
    var envSection: seq<string> := [];
    if vars != [] {
      var envLines := WriteEnv(vars);
      envSection := [EnvHeader] + envLines + [""];
    }
    var customSection: seq<string> := [];
    if accounts != [] {
      var customLines := WriteAccounts(accounts, constantCase);
      customSection := [CustomHeader] + customLines;
    }
    var lines := WalletLines(w) + envSection + customSection;
    var p := if path.Some? then path.value else DefaultPath;
    return Written(p, lines);
  }

  // What the file holds.

  /** The file is written exactly when some wallet is current and the folders exist; no current wallet wins over a missing folder. */
  lemma DotenvOutcomes(path: Option<string>, foldersExist: bool, wallets: seq<Wallet>, custom: seq<CustomAccount>,
                       vars: seq<EnvVar>, constantCase: string -> string)
    ensures var r := DotenvSpec(path, foldersExist, wallets, custom, vars, constantCase);
      (r == NoCurrentWallet <==> forall i :: 0 <= i < |wallets| ==> !wallets[i].current) &&
      (r.Written? <==> foldersExist && exists i :: 0 <= i < |wallets| && wallets[i].current)
  {
    var r := FirstCurrentWallet(wallets);
    if r.Some? {
      var i :| 0 <= i < |wallets| && wallets[i] == r.value && r.value.current;
    }
  }

  /** The number of lines of the accounts: one per field and data entry, plus one blank line each. */
  function AccountsLineCount(accounts: seq<CustomAccount>): nat
    decreases |accounts|
  {
    if accounts == [] then 0
    else AccountsLineCount(accounts[..|accounts| - 1]) + 3 + |accounts[|accounts| - 1].data| + 1
  }

  lemma {:induction false} AccountsLinesCount(accounts: seq<CustomAccount>, constantCase: string -> string)
    ensures |AccountsLines(accounts, constantCase)| == AccountsLineCount(accounts)
    decreases |accounts|
  {
    if accounts != [] {
      AccountsLinesCount(accounts[..|accounts| - 1], constantCase);
      var a := accounts[|accounts| - 1];
      assert |AccountLines(a, constantCase)| == 3 + |a.data| + 1;
    }
  }

  /** Where the env section ends: right after the wallet section when there are no variables. */
  function EnvEnd(vars: seq<EnvVar>): nat
  {
    if vars == [] then 4 else 4 + |vars| + 2
  }

  /**
   * The sections come in the order wallet, env, custom; each starts with its
   * header line, the env section holds one line per variable and ends with a
   * blank line, and empty sections are left out.
   */
  lemma DotenvLayout(w: Wallet, vars: seq<EnvVar>, accounts: seq<CustomAccount>, constantCase: string -> string)
    ensures var lines := DotenvLines(w, vars, accounts, constantCase);
      lines[..4] == WalletLines(w) &&
      (vars != [] ==> lines[4] == EnvHeader && lines[5..5 + |vars|] == EnvLines(vars) && lines[EnvEnd(vars) - 1] == "") &&
      (accounts != [] ==> lines[EnvEnd(vars)] == CustomHeader && lines[EnvEnd(vars) + 1..] == AccountsLines(accounts, constantCase)) &&
      |lines| == EnvEnd(vars) + (if accounts == [] then 0 else 1 + AccountsLineCount(accounts)) &&
      lines[|lines| - 1] == ""
  {
    DotenvSections(w, vars, accounts, constantCase);
    if vars != [] {
      DotenvEnvSection(w, vars, accounts, constantCase);
    }
    if accounts != [] {
      DotenvCustomSection(w, vars, accounts, constantCase);
    }
  }

  /** The wallet section first, then the env section, then the custom section, with their lengths. */
  lemma DotenvSections(w: Wallet, vars: seq<EnvVar>, accounts: seq<CustomAccount>, constantCase: string -> string)
    ensures var lines := DotenvLines(w, vars, accounts, constantCase);
      lines[..4] == WalletLines(w) &&
      |lines| == EnvEnd(vars) + (if accounts == [] then 0 else 1 + AccountsLineCount(accounts)) &&
      (accounts == [] ==> lines[|lines| - 1] == "")
  {
    AccountsLinesCount(accounts, constantCase);
    var lines := DotenvLines(w, vars, accounts, constantCase);
    var envPart := if vars != [] then [EnvHeader] + EnvLines(vars) + [""] else [];
    var customPart := if accounts != [] then [CustomHeader] + AccountsLines(accounts, constantCase) else [];
    ThreeParts(lines, WalletLines(w), envPart, customPart);
    if accounts == [] && vars != [] {
      assert lines[|lines| - 1] == envPart[|envPart| - 1];
    }
  }

  lemma DotenvEnvSection(w: Wallet, vars: seq<EnvVar>, accounts: seq<CustomAccount>, constantCase: string -> string)
    requires vars != []
    ensures var lines := DotenvLines(w, vars, accounts, constantCase);
      |lines| >= EnvEnd(vars) &&
      lines[4] == EnvHeader && lines[5..5 + |vars|] == EnvLines(vars) && lines[EnvEnd(vars) - 1] == ""
  {
    var customPart := if accounts != [] then [CustomHeader] + AccountsLines(accounts, constantCase) else [];
    MiddleSection(DotenvLines(w, vars, accounts, constantCase), WalletLines(w), EnvHeader, EnvLines(vars), "", customPart);
  }

  lemma DotenvCustomSection(w: Wallet, vars: seq<EnvVar>, accounts: seq<CustomAccount>, constantCase: string -> string)
    requires accounts != []
    ensures var lines := DotenvLines(w, vars, accounts, constantCase);
      |lines| > EnvEnd(vars) &&
      lines[EnvEnd(vars)] == CustomHeader && lines[EnvEnd(vars) + 1..] == AccountsLines(accounts, constantCase) &&
      lines[|lines| - 1] == ""
  {
    var lines := DotenvLines(w, vars, accounts, constantCase);
    var envPart := if vars != [] then [EnvHeader] + EnvLines(vars) + [""] else [];
    var body := AccountsLines(accounts, constantCase);
    var customPart := [CustomHeader] + body;
    ThreeParts(lines, WalletLines(w), envPart, customPart);
    assert EnvEnd(vars) == 4 + |envPart|;
    HeadBody(customPart, CustomHeader, body, []);
    SuffixOfSuffix(lines, EnvEnd(vars), customPart, 1);
  }

  /** Where each of three concatenated parts sits in the whole. */
  lemma ThreeParts<T>(all: seq<T>, a: seq<T>, b: seq<T>, c: seq<T>)
    requires all == a + b + c
    ensures |all| == |a| + |b| + |c|
    ensures all[..|a|] == a && all[|a|..|a| + |b|] == b && all[|a| + |b|..] == c
  {
  }

  /** A section made of a header, a body and one closing item, between two other parts. */
  lemma MiddleSection<T>(all: seq<T>, before: seq<T>, header: T, body: seq<T>, closing: T, after: seq<T>)
    requires all == before + ([header] + body + [closing]) + after
    ensures |all| >= |before| + |body| + 2
    ensures all[|before|] == header && all[|before| + 1..|before| + 1 + |body|] == body
    ensures all[|before| + 1 + |body|] == closing
  {
    assert all[|before| + 1..|before| + 1 + |body|] == ([header] + body + [closing])[1..1 + |body|];
  }

  /** A section made of a header, a body and a trailer. */
  lemma HeadBody<T>(section: seq<T>, header: T, body: seq<T>, trailer: seq<T>)
    requires section == [header] + body + trailer
    ensures |section| == 1 + |body| + |trailer|
    ensures section[0] == header && section[1..1 + |body|] == body && section[1 + |body|..] == trailer
    ensures section[1..] == body + trailer
  {
  }

  lemma SuffixOfSuffix<T>(all: seq<T>, offset: nat, part: seq<T>, k: nat)
    requires offset <= |all| && all[offset..] == part && k <= |part|
    ensures all[offset + k..] == part[k..]
  {
  }
}
