/**
 * `cli/_export.py`: the configuration `export` builds from the store's
 * tables, where it writes it, and the way it reads back through `import`.
 * The tables are passed in as they are read; writing the JSON text is not
 * modelled, only the value written, its path and its indentation.
 */
module ExportCommand {
  import opened Wrappers
  import opened PyStr
  import opened Records
  import opened Config
  import opened ImportCommand
  import ImportProperties
  import Store
  import WalletTable
  import Counting

  const DefaultPath: string := "croco_config.json"
  const FolderMessage: string := "All folders in path must exist"

  /** The file written and what it holds, or the error shown when a folder of the path is missing. */
  datatype ExportOutcome =
    | Written(path: string, user: UserConfig, indent: Option<nat>)
    | FolderMissing(message: string)

  /** An empty or absent path argument means `croco_config.json`. */
  function ExportPath(path: Option<string>): (r: string)
    ensures TruthyOpt(path) ==> r == path.value
    ensures !TruthyOpt(path) ==> r == DefaultPath
    ensures r != ""
  {
    if TruthyOpt(path) then path.value else DefaultPath
  }

  /** `-i` indents by two spaces; without it the JSON is written on one line. */
  function Indent(flag: bool): (r: Option<nat>)
    ensures r.Some? <==> flag
    ensures flag ==> r.value == 2
  {
    if flag then Some(2) else None
  }

  /**
   * `wallet.pop('public_key') and wallet`: the row without its public key,
   * or, when that key is empty, the empty key itself.
   */
  function ExportWallet(w: Wallet): (r: ConfigWallet)
    ensures r.WalletEntry? <==> w.publicKey != ""
    ensures r.WalletEntry? ==> WalletCall(r) == SetWallet(w.privateKey, w.walletLabel, w.mnemonic) && r.current == w.current
    ensures r.BareWallet? ==> !TruthyOpt(r.value)
  {
    if w.publicKey != "" then WalletEntry(w.privateKey, w.walletLabel, w.mnemonic, w.current)
    else BareWallet(Some(w.publicKey))
  }

  function ExportWallets(rows: seq<Wallet>): (r: seq<ConfigWallet>)
    ensures |r| == |rows|
    ensures forall i :: 0 <= i < |rows| ==> r[i] == ExportWallet(rows[i])
  {
    seq(|rows|, i requires 0 <= i < |rows| => ExportWallet(rows[i]))
  }

  /** The value each key was given last, scanning in order: a dictionary lookup after the assignments. */
  function LastValue(vars: seq<EnvVar>, key: string): Option<string>
  {
    if vars == [] then None
    else
      var later := LastValue(vars[1..], key);
      if later.Some? then later
      else if vars[0].key == key then Some(vars[0].value)
      else None
  }

  predicate UniqueEnvKeys(vars: seq<EnvVar>)
  {
    forall i, j :: 0 <= i < j < |vars| ==> vars[i].key != vars[j].key
  }

  /**
   * `{var['key']: var['value'] for var in env_vars}`: one entry per key, at
   * the position of its first occurrence, holding its last value.
   */
  function EnvMapping(vars: seq<EnvVar>): (r: seq<EnvVar>)
    ensures |r| <= |vars|
    ensures vars != [] ==> vars[|vars| - 1] in r
    decreases |vars|
  {
    if vars == [] then []
    else
      var last := vars[|vars| - 1];
      Store.WithEnvar(EnvMapping(vars[..|vars| - 1]), last.key, last.value)
  }

  /** The `user` object of the configuration; empty tables become `None`. */
  function ExportUser(wallets: seq<Wallet>, custom: seq<CustomAccount>, github: Option<GithubUser>,
                      env: seq<EnvVar>): (r: UserConfig)
    ensures r.wallets.Some? <==> wallets != []
    ensures r.custom.Some? <==> custom != []
    ensures r.github.Some? <==> github.Some?
    ensures r.env.Some? <==> env != []
    ensures r.wallets.Some? ==> r.wallets.value == ExportWallets(wallets)
    ensures r.custom.Some? ==> r.custom.value == custom
    ensures r.github.Some? ==> r.github.value == github.value.accessToken
    ensures r.env.Some? ==> r.env.value == EnvMapping(env)
  {
    UserConfig(
      if wallets != [] then Some(ExportWallets(wallets)) else None,
      if custom != [] then Some(custom) else None,
      if github.Some? then Some(github.value.accessToken) else None,
      if env != [] then Some(EnvMapping(env)) else None)
  }

  /** The whole command; whether every folder of the path exists is a parameter. */
  function Export(path: Option<string>, indent: bool, foldersExist: bool, wallets: seq<Wallet>,
                  custom: seq<CustomAccount>, github: Option<GithubUser>, env: seq<EnvVar>): (r: ExportOutcome)
    ensures foldersExist <==> r.Written?
    ensures r.Written? ==> r.path == ExportPath(path) && r.indent == Indent(indent)
    ensures r.Written? ==> r.user == ExportUser(wallets, custom, github, env)
    ensures r.FolderMissing? ==> r.message == FolderMessage
  {
    if foldersExist then Written(ExportPath(path), ExportUser(wallets, custom, github, env), Indent(indent))
    else FolderMissing(FolderMessage)
  }

  // The environment mapping.

  lemma {:induction false} LastValueSnoc(vars: seq<EnvVar>, v: EnvVar, key: string)
    ensures LastValue(vars + [v], key) == if v.key == key then Some(v.value) else LastValue(vars, key)
    decreases |vars|
  {
    if vars == [] {
      assert ([v])[1..] == [];
    } else {
      assert (vars + [v])[1..] == vars[1..] + [v];
      LastValueSnoc(vars[1..], v, key);
    }
  }

  /** In a table with unique keys, the lookup finds the one entry with that key. */
  lemma {:induction false} LastValueUnique(vars: seq<EnvVar>, k: nat)
    requires UniqueEnvKeys(vars) && k < |vars|
    ensures LastValue(vars, vars[k].key) == Some(vars[k].value)
    decreases |vars|
  {
    var rest := vars[1..];
    assert forall i :: 0 <= i < |rest| ==> rest[i] == vars[i + 1];
    if k == 0 {
      LastValueAbsent(rest, vars[0].key);
    } else {
      LastValueUnique(rest, k - 1);
    }
  }

  /** A key no variable has looks up nothing. */
  lemma {:induction false} LastValueAbsent(vars: seq<EnvVar>, key: string)
    requires forall i :: 0 <= i < |vars| ==> vars[i].key != key
    ensures LastValue(vars, key) == None
    decreases |vars|
  {
    if vars != [] {
      var rest := vars[1..];
      assert forall i :: 0 <= i < |rest| ==> rest[i] == vars[i + 1];
      LastValueAbsent(rest, key);
    }
  }

  /** `set_envar` on a key already present overwrites that one entry in place. */
  lemma WithEnvarOverwrites(vars: seq<EnvVar>, p: nat, value: string)
    requires UniqueEnvKeys(vars) && p < |vars|
    ensures Store.WithEnvar(vars, vars[p].key, value) == vars[p := EnvVar(vars[p].key, value)]
  {
    var key := vars[p].key;
    var r := Store.WithEnvar(vars, key, value);
    assert |r| == |vars|;
    var q :| 0 <= q < |r| && r[q] == EnvVar(key, value);
    forall i | 0 <= i < |r| ensures r[i] == vars[p := EnvVar(key, value)][i] {
      if i != p {
        assert vars[i].key != key;
      }
    }
  }

  /** Overwriting in place keeps the keys, so they stay unique. */
  lemma OverwriteKeepsUnique(vars: seq<EnvVar>, p: nat, value: string)
    requires UniqueEnvKeys(vars) && p < |vars|
    ensures UniqueEnvKeys(vars[p := EnvVar(vars[p].key, value)])
  {
    var r := vars[p := EnvVar(vars[p].key, value)];
    assert forall i :: 0 <= i < |r| ==> r[i].key == vars[i].key;
  }

  /** Appending a key no variable has keeps the keys unique. */
  lemma AppendKeepsUnique(vars: seq<EnvVar>, v: EnvVar)
    requires UniqueEnvKeys(vars) && forall i :: 0 <= i < |vars| ==> vars[i].key != v.key
    ensures UniqueEnvKeys(vars + [v])
  {
  }

  /** A table that differs from `vars` only by the entry `key: value` at `p` (in place or appended). */
  lemma LookupAfterWrite(vars: seq<EnvVar>, r: seq<EnvVar>, p: nat, key: string, value: string, k: string)
    requires UniqueEnvKeys(vars) && UniqueEnvKeys(r)
    requires p < |r| && r[p] == EnvVar(key, value) && |vars| <= |r| <= |vars| + 1
    requires p < |vars| ==> vars[p].key == key
    requires p >= |vars| ==> forall i :: 0 <= i < |vars| ==> vars[i].key != key
    requires forall i :: 0 <= i < |vars| && i != p ==> r[i] == vars[i]
    requires |r| == |vars| + 1 ==> p == |vars|
    ensures LastValue(r, k) == if k == key then Some(value) else LastValue(vars, k)
  {
    if k == key {
      LastValueUnique(r, p);
    } else if i :| 0 <= i < |vars| && vars[i].key == k {
      LastValueUnique(r, i);
      LastValueUnique(vars, i);
    } else {
      LastValueAbsent(vars, k);
      LastValueAbsent(r, k);
    }
  }

  /** `set_envar` on a table with unique keys keeps them unique, and `key` now looks up `value`. */
  lemma WithEnvarIsAssignment(vars: seq<EnvVar>, key: string, value: string)
    requires UniqueEnvKeys(vars)
    ensures var r := Store.WithEnvar(vars, key, value);
      UniqueEnvKeys(r) && forall k :: LastValue(r, k) == if k == key then Some(value) else LastValue(vars, k)
  {
    var r := Store.WithEnvar(vars, key, value);
    var p: nat;
    if exists i :: 0 <= i < |vars| && vars[i].key == key {
      p :| p < |vars| && vars[p].key == key;
      WithEnvarOverwrites(vars, p, value);
      OverwriteKeepsUnique(vars, p, value);
    } else {
      p := |vars|;
      AppendKeepsUnique(vars, EnvVar(key, value));
    }
    forall k ensures LastValue(r, k) == if k == key then Some(value) else LastValue(vars, k) {
      LookupAfterWrite(vars, r, p, key, value, k);
    }
  }

  /**
   * The exported mapping is a dictionary of the variables: its keys are
   * unique, and each key looks up the value the variables gave it last
   * (so it holds a key exactly when some variable has it).
   */
  lemma {:induction false} EnvMappingIsDictionary(vars: seq<EnvVar>)
    ensures var r := EnvMapping(vars);
      UniqueEnvKeys(r) && forall k :: LastValue(r, k) == LastValue(vars, k)
    decreases |vars|
  {
    if vars != [] {
      var n := |vars| - 1;
      var init, last := vars[..n], vars[n];
      assert vars == init + [last];
      EnvMappingIsDictionary(init);
      WithEnvarIsAssignment(EnvMapping(init), last.key, last.value);
      forall k ensures LastValue(vars, k) == if k == last.key then Some(last.value) else LastValue(init, k) {
        LastValueSnoc(init, last, k);
      }
    }
  }

  /** A later variable with a key already seen overwrites the earlier value in place in the export. */
  lemma LaterDuplicateWins(a1: EnvVar, b: EnvVar, a2: EnvVar)
    requires a1.key == a2.key && a1.key != b.key
    ensures EnvMapping([a1, b, a2]) == [a2, b]
  {
    var vars := [a1, b, a2];
    assert vars[..2] == [a1, b];
    DistinctPairMapping(a1, b);
    assert EnvMapping(vars) == Store.WithEnvar([a1, b], a2.key, a2.value);
    OverwriteFirst([a1, b], a2);
    assert [a1, b][1..] == [b];
  }

  /** `set_envar` on the first stored key overwrites that entry. */
  lemma OverwriteFirst(vars: seq<EnvVar>, v: EnvVar)
    requires vars != [] && vars[0].key == v.key
    ensures Store.WithEnvar(vars, v.key, v.value) == [v] + vars[1..]
  {
  }

  /** Two variables with different keys export as they are. */
  lemma DistinctPairMapping(a: EnvVar, b: EnvVar)
    requires a.key != b.key
    ensures EnvMapping([a, b]) == [a, b]
  {
    assert [a, b][..1] == [a] && [a][..0] == [];
    assert EnvMapping([a]) == [a];
    assert Store.WithEnvar([a], b.key, b.value) == [a, b] by {
      assert [a][1..] == [];
    }
  }

  /** Dropping the last variable of a table with unique keys leaves unique keys, none of them the last one's. */
  lemma UniqueInit(vars: seq<EnvVar>)
    requires UniqueEnvKeys(vars) && vars != []
    ensures var init := vars[..|vars| - 1];
      UniqueEnvKeys(init) && forall i :: 0 <= i < |init| ==> init[i].key != vars[|vars| - 1].key
  {
  }

  /** A store's variables, which `set_envar` keeps with unique keys, export unchanged. */
  lemma {:induction false} EnvMappingOfUnique(vars: seq<EnvVar>)
    requires UniqueEnvKeys(vars)
    ensures EnvMapping(vars) == vars
    decreases |vars|
  {
    if vars != [] {
      UniqueInit(vars);
      EnvMappingOfUnique(vars[..|vars| - 1]);
      MappingSnocNew(vars);
    }
  }

  /** A last variable whose key is new is exported after the ones before it. */
  lemma MappingSnocNew(vars: seq<EnvVar>)
    requires vars != []
    requires var init := vars[..|vars| - 1];
      EnvMapping(init) == init && forall i :: 0 <= i < |init| ==> init[i].key != vars[|vars| - 1].key
    ensures EnvMapping(vars) == vars
  {
    var init, last := vars[..|vars| - 1], vars[|vars| - 1];
    Counting.LastSplit(vars);
    Store.WithNewEnvar(init, last.key, last.value);
  }

  // Reading an export back with `import`.

  /**
   * A table holding one current wallet, every public key non-empty, imports
   * back without error, and the wallet `import` sets last is the current one.
   */
  lemma ExportedWalletsImport(rows: seq<Wallet>, k: nat)
    requires k < |rows| && forall i :: 0 <= i < |rows| ==> (rows[i].current <==> i == k)
    requires forall i :: 0 <= i < |rows| ==> rows[i].publicKey != ""
    ensures var ws := ExportWallets(rows);
      WalletPlan(ws).error == None &&
      WalletPlan(ws).calls[|WalletPlan(ws).calls| - 1] == ImportCommand.SetWallet(rows[k].privateKey, rows[k].walletLabel, rows[k].mnemonic)
  {
    var ws := ExportWallets(rows);
    assert FirstBare(ws) == None;
    assert ws[k].current;
    var w := LastCurrent(ws).value;
    LastCurrentIsLast(ws);
    var j :| 0 <= j < |ws| && ws[j] == w && forall i :: j < i < |ws| ==> !ws[i].current;
    assert ws[j] == ExportWallet(rows[j]);
  }

  /** A wallet whose public key is empty exports as a bare value, on which `import` stops. */
  lemma ExportedBareWalletStopsImport(rows: seq<Wallet>, b: nat)
    requires b < |rows| && rows[b].publicKey == ""
    ensures WalletPlan(ExportWallets(rows)).error == Some(WalletNotAnObject)
  {
    var ws := ExportWallets(rows);
    assert ws[b] == ExportWallet(rows[b]);
    assert FirstBare(ws).Some?;
  }

  /**
   * A non-empty table with no current wallet (the state the older delete
   * handler can leave) exports a file that `import` rejects after writing
   * every wallet.
   */
  lemma ExportedWithoutCurrentStopsImport(rows: seq<Wallet>)
    requires rows != []
    requires forall i :: 0 <= i < |rows| ==> !rows[i].current && rows[i].publicKey != ""
    ensures WalletPlan(ExportWallets(rows)).error == Some(NoCurrentWallet)
    ensures |WalletPlan(ExportWallets(rows)).calls| == |rows|
  {
    var ws := ExportWallets(rows);
    assert FirstBare(ws) == None;
    ImportProperties.NoCurrentWalletWritesAll(ws);
  }

  /** The variables of a store read back through `import` as the same `set_envar` calls, in the same order. */
  lemma ExportedEnvImports(vars: seq<EnvVar>)
    requires UniqueEnvKeys(vars) && vars != []
    ensures var user := ExportUser([], [], None, vars);
      ImportPlan(user) == Plan(EnvCalls(vars), None)
  {
    EnvMappingOfUnique(vars);
  }
}
