/**
 * `cli/_import.py`: the store writes that importing a configuration makes,
 * in the order it makes them. The GitHub token is set first; wallets follow,
 * non-current ones in file order and the current one last; then custom
 * accounts, non-current ones first; then environment variables.
 */
module ImportCommand {
  import opened Wrappers
  import opened PyStr
  import opened Records
  import opened Counting
  import opened Config
  import WalletTable

  /** A store setter `_import` calls, with its arguments. */
  datatype StoreCall =
    | SetGithubUser(token: string)
    | SetWallet(privateKey: string, walletLabel: Option<string>, mnemonic: Option<string>)
    | SetCustomAccount(record: CustomAccount)
    | SetEnvar(key: string, value: string)

  /**
   * Why an import stops: `pop` on a wallet element that is not an object
   * (`AttributeError`), or `set_wallet(**None)` when no wallet is current
   * (`TypeError`). The writes made before stay made.
   */
  datatype ImportError = WalletNotAnObject | NoCurrentWallet

  /** The writes made, and the error that ended the import early, if any. */
  datatype Plan = Plan(calls: seq<StoreCall>, error: Option<ImportError>)

  /** The call that stores a wallet element (its `current` key popped). */
  function WalletCall(w: ConfigWallet): StoreCall
    requires w.WalletEntry?
  {
    SetWallet(w.privateKey, w.walletLabel, w.mnemonic)
  }

  /** The first element that is not a wallet object. */
  function FirstBare(ws: seq<ConfigWallet>): (r: Option<nat>)
    ensures r.Some? ==> r.value < |ws| && ws[r.value].BareWallet? && forall j :: 0 <= j < r.value ==> ws[j].WalletEntry?
    ensures r.None? ==> forall j :: 0 <= j < |ws| ==> ws[j].WalletEntry?
  {
    if ws == [] then None
    else if ws[0].BareWallet? then Some(0)
    else match FirstBare(ws[1..])
      case None => None
      case Some(k) => Some(k + 1)
  }

  /** The writes for the non-current wallets, in file order. */
  function NonCurrentCalls(ws: seq<ConfigWallet>): (r: seq<StoreCall>)
    requires forall j :: 0 <= j < |ws| ==> ws[j].WalletEntry?
    ensures |r| <= |ws|
    ensures forall i :: 0 <= i < |r| ==> r[i].SetWallet?
    decreases |ws|
  {
    if ws == [] then []
    else
      var init := NonCurrentCalls(ws[..|ws| - 1]);
      var w := ws[|ws| - 1];
      if w.current then init else init + [WalletCall(w)]
  }

  /** The current wallet the loop keeps: the last one marked current. */
  function LastCurrent(ws: seq<ConfigWallet>): (r: Option<ConfigWallet>)
    requires forall j :: 0 <= j < |ws| ==> ws[j].WalletEntry?
    ensures r.None? <==> forall j :: 0 <= j < |ws| ==> !ws[j].current
    ensures r.Some? ==> r.value.WalletEntry? && r.value.current
    decreases |ws|
  {
    if ws == [] then None
    else
      var w := ws[|ws| - 1];
      var init := ws[..|ws| - 1];
      assert forall j :: 0 <= j < |init| ==> init[j] == ws[j];
      if w.current then Some(w) else LastCurrent(init)
  }

  /** The wallet kept is the last element marked current. */
  lemma {:induction false} LastCurrentIsLast(ws: seq<ConfigWallet>)
    requires forall j :: 0 <= j < |ws| ==> ws[j].WalletEntry?
    requires LastCurrent(ws).Some?
    ensures exists k :: 0 <= k < |ws| && ws[k] == LastCurrent(ws).value && forall j :: k < j < |ws| ==> !ws[j].current
    decreases |ws|
  {
    var init := ws[..|ws| - 1];
    var n := |ws| - 1;
    if ws[n].current {
      assert ws[n] == LastCurrent(ws).value;
    } else {
      assert forall j :: 0 <= j < |init| ==> init[j] == ws[j];
      assert LastCurrent(ws) == LastCurrent(init);
      LastCurrentIsLast(init);
      var k :| 0 <= k < |init| && init[k] == LastCurrent(init).value && forall j :: k < j < |init| ==> !init[j].current;
      assert ws[k] == init[k];
      assert forall j :: k < j < |ws| ==> !ws[j].current;
    }
  }

  /** The wallet section. */
  function WalletPlan(ws: seq<ConfigWallet>): (p: Plan)
    ensures forall i :: 0 <= i < |p.calls| ==> p.calls[i].SetWallet?
    ensures p.error.None? ==>
      FirstBare(ws).None? && LastCurrent(ws).Some? &&
      p.calls != [] && p.calls[|p.calls| - 1] == WalletCall(LastCurrent(ws).value)
  {
    match FirstBare(ws)
    case Some(b) => Plan(NonCurrentCalls(ws[..b]), Some(WalletNotAnObject))
    case None =>
      match LastCurrent(ws)
      case None => Plan(NonCurrentCalls(ws), Some(NoCurrentWallet))
      case Some(w) => Plan(NonCurrentCalls(ws) + [WalletCall(w)], None)
  }

  predicate IsCurrentAccount(a: CustomAccount) { a.current }
  predicate IsOtherAccount(a: CustomAccount) { !a.current }

  /** `set_custom_account(**account)` for each account, in order. */
  function AccountCalls(accounts: seq<CustomAccount>): (r: seq<StoreCall>)
    ensures |r| == |accounts|
    ensures forall i :: 0 <= i < |accounts| ==> r[i] == SetCustomAccount(accounts[i])
  {
    seq(|accounts|, i requires 0 <= i < |accounts| => SetCustomAccount(accounts[i]))
  }

  lemma AccountCallsSnoc(accounts: seq<CustomAccount>, a: CustomAccount)
    ensures AccountCalls(accounts + [a]) == AccountCalls(accounts) + [SetCustomAccount(a)]
  {
  }

  /** The custom-account section: non-current accounts, then the current ones, each in file order. */
  function CustomPlan(accounts: seq<CustomAccount>): (r: seq<StoreCall>)
    ensures forall i :: 0 <= i < |r| ==> r[i].SetCustomAccount? && r[i].record in accounts
  {
    AccountCalls(Filter(accounts, IsOtherAccount)) + AccountCalls(Filter(accounts, IsCurrentAccount))
  }

  /** `set_envar(key, value)` for each entry, keys as written. */
  function EnvCalls(env: seq<EnvVar>): (r: seq<StoreCall>)
    ensures |r| == |env|
    ensures forall i :: 0 <= i < |env| ==> r[i] == SetEnvar(env[i].key, env[i].value)
  {
    seq(|env|, i requires 0 <= i < |env| => SetEnvar(env[i].key, env[i].value))
  }

  /** The GitHub section: the user is set when the value is truthy. */
  function GithubCalls(user: UserConfig): seq<StoreCall>
  {
    if TruthyOpt(user.github) then [SetGithubUser(user.github.value)] else []
  }

  /** The wallet section, skipped (no writes, no error) when absent or empty. */
  function WalletSection(user: UserConfig): Plan
  {
    if Present(user.wallets) then WalletPlan(user.wallets.value) else Plan([], None)
  }

  function CustomSection(user: UserConfig): seq<StoreCall>
  {
    if Present(user.custom) then CustomPlan(user.custom.value) else []
  }

  function EnvSection(user: UserConfig): seq<StoreCall>
  {
    if Present(user.env) then EnvCalls(user.env.value) else []
  }

  /** `_import`: the sections in order; a falsy section is skipped. */
  function ImportPlan(user: UserConfig): (p: Plan)
    ensures TruthyOpt(user.github) ==> p.calls != [] && p.calls[0] == SetGithubUser(user.github.value)
    ensures p.error.Some? ==>
      Present(user.wallets) && forall i :: 0 <= i < |p.calls| ==> p.calls[i].SetGithubUser? || p.calls[i].SetWallet?
  {
    var wallets := WalletSection(user);
    if wallets.error.Some? then Plan(GithubCalls(user) + wallets.calls, wallets.error)
    else Plan(GithubCalls(user) + wallets.calls + CustomSection(user) + EnvSection(user), None)
  }

  /** The wallet loop of `_import`, from the writes made so far. */
  method ImportWallets(ws: seq<ConfigWallet>, before: seq<StoreCall>) returns (plan: Plan)
    ensures plan == Plan(before + WalletPlan(ws).calls, WalletPlan(ws).error)
  {
    var calls := before;
    var current: Option<ConfigWallet> := None;
    var i := 0;
    while i < |ws|
      invariant 0 <= i <= |ws|
      invariant forall j :: 0 <= j < i ==> ws[j].WalletEntry?
      invariant calls == before + NonCurrentCalls(ws[..i])
      invariant current == LastCurrent(ws[..i])
    {
      assert ws[..i + 1][..i] == ws[..i];
      if ws[i].BareWallet? {
        assert FirstBare(ws) == Some(i);
        return Plan(calls, Some(WalletNotAnObject));
      }
      if !ws[i].current {
        calls := calls + [WalletCall(ws[i])];
      } else {
        current := Some(ws[i]);
      }
      i := i + 1;
    }
    assert ws[..i] == ws;
    assert FirstBare(ws) == None;
    if current.None? {
      return Plan(calls, Some(NoCurrentWallet));
    }
    plan := Plan(calls + [WalletCall(current.value)], None);
  }

  lemma SplitStep(accounts: seq<CustomAccount>, i: nat)
    requires i < |accounts|
    ensures var a := accounts[i];
      AccountCalls(Filter(accounts[..i + 1], IsOtherAccount))
        == if a.current then AccountCalls(Filter(accounts[..i], IsOtherAccount))
           else AccountCalls(Filter(accounts[..i], IsOtherAccount)) + [SetCustomAccount(a)]
    ensures var a := accounts[i];
      Filter(accounts[..i + 1], IsCurrentAccount)
        == if a.current then Filter(accounts[..i], IsCurrentAccount) + [a] else Filter(accounts[..i], IsCurrentAccount)
  {
    var a := accounts[i];
    assert accounts[..i + 1] == accounts[..i] + [a];
    FilterSnoc(accounts[..i], a, IsOtherAccount);
    FilterSnoc(accounts[..i], a, IsCurrentAccount);
    AccountCallsSnoc(Filter(accounts[..i], IsOtherAccount), a);
  }

  /** The first custom-account loop: non-current accounts are written, current ones kept aside. */
  method SplitAccounts(accounts: seq<CustomAccount>) returns (calls: seq<StoreCall>, currentAccounts: seq<CustomAccount>)
    ensures calls == AccountCalls(Filter(accounts, IsOtherAccount))
    ensures currentAccounts == Filter(accounts, IsCurrentAccount)
  {
    calls, currentAccounts := [], [];
    var i := 0;
    while i < |accounts|
      invariant 0 <= i <= |accounts|
      invariant calls == AccountCalls(Filter(accounts[..i], IsOtherAccount))
      invariant currentAccounts == Filter(accounts[..i], IsCurrentAccount)
    {
      var account := accounts[i];
      SplitStep(accounts, i);
      if !account.current {
        calls := calls + [SetCustomAccount(account)];
      } else {
        currentAccounts := currentAccounts + [account];
      }
      i := i + 1;
    }
    assert accounts[..i] == accounts;
  }

  lemma AppendCall(before: seq<StoreCall>, accounts: seq<CustomAccount>, j: nat)
    requires j < |accounts|
    ensures before + AccountCalls(accounts[..j + 1]) == before + AccountCalls(accounts[..j]) + [SetCustomAccount(accounts[j])]
  {
    assert accounts[..j + 1] == accounts[..j] + [accounts[j]];
    AccountCallsSnoc(accounts[..j], accounts[j]);
  }

  /** The custom-account loops of `_import`. */
  method ImportCustomAccounts(accounts: seq<CustomAccount>) returns (calls: seq<StoreCall>)
    ensures calls == CustomPlan(accounts)
  {
    var others, currentAccounts := SplitAccounts(accounts);
    calls := others;
    var j := 0;
    while j < |currentAccounts|
      invariant 0 <= j <= |currentAccounts|
      invariant calls == others + AccountCalls(currentAccounts[..j])
    {
      AppendCall(others, currentAccounts, j);
      calls := calls + [SetCustomAccount(currentAccounts[j])];
      j := j + 1;
    }
    assert currentAccounts[..j] == currentAccounts;
  }

  /** The environment-variable loop of `_import`. */
  method ImportEnv(env: seq<EnvVar>) returns (calls: seq<StoreCall>)
    ensures calls == EnvCalls(env)
  {
    calls := [];
    var i := 0;
    while i < |env|
      invariant 0 <= i <= |env|
      invariant calls == EnvCalls(env[..i])
    {
      calls := calls + [SetEnvar(env[i].key, env[i].value)];
      i := i + 1;
    }
    assert env[..i] == env;
  }

  /** `_import`: the store calls of every section in order, with the plan's error. */
  method Import(user: UserConfig) returns (plan: Plan)
    ensures plan == ImportPlan(user)
  {
    var github: seq<StoreCall> := [];
    if user.github.Some? && user.github.value != "" {
      github := [SetGithubUser(user.github.value)];
    }
    ghost var wallets := WalletSection(user);
    var calls := github;
    if user.wallets.Some? && user.wallets.value != [] {
      plan := ImportWallets(user.wallets.value, github);
      if plan.error.Some? {
        return;
      }
      calls := plan.calls;
    } else {
      assert calls == github + wallets.calls;
    }
    var custom: seq<StoreCall> := [];
    if user.custom.Some? && user.custom.value != [] {
      custom := ImportCustomAccounts(user.custom.value);
    }
    var env: seq<StoreCall> := [];
    if user.env.Some? && user.env.value != [] {
      env := ImportEnv(user.env.value);
    }
    plan := Plan(calls + custom + env, None);
  }
}
