/**
 * What an import promises about the store: which configurations stop it and
 * after how many writes, the order of the sections and of the custom-account
 * calls, and the state of the wallet table once the wallet writes are applied.
 */
module ImportProperties {
  import opened Wrappers
  import opened PyStr
  import opened Records
  import opened Counting
  import opened Config
  import opened ImportCommand
  import WalletTable

  predicate IsOtherWallet(w: ConfigWallet) { w.WalletEntry? && !w.current }

  /** `set_wallet(**wallet)` for each wallet object, in order: the reference for the first wallet loop. */
  function WalletCalls(ws: seq<ConfigWallet>): (r: seq<StoreCall>)
    requires forall j :: 0 <= j < |ws| ==> ws[j].WalletEntry?
    ensures |r| == |ws|
    ensures forall i :: 0 <= i < |ws| ==> r[i] == WalletCall(ws[i])
  {
    seq(|ws|, i requires 0 <= i < |ws| => WalletCall(ws[i]))
  }

  lemma WalletCallsSnoc(ws: seq<ConfigWallet>, w: ConfigWallet)
    requires forall j :: 0 <= j < |ws| ==> ws[j].WalletEntry?
    requires w.WalletEntry?
    ensures WalletCalls(ws + [w]) == WalletCalls(ws) + [WalletCall(w)]
  {
    assert forall i :: 0 <= i < |ws| ==> (ws + [w])[i] == ws[i];
  }

  /** The first wallet loop writes exactly the non-current wallets, in file order. */
  lemma {:induction false} NonCurrentCallsAreFiltered(ws: seq<ConfigWallet>)
    requires forall j :: 0 <= j < |ws| ==> ws[j].WalletEntry?
    ensures NonCurrentCalls(ws) == WalletCalls(Filter(ws, IsOtherWallet))
    decreases |ws|
  {
    if ws != [] {
      var n := |ws| - 1;
      var init, w := ws[..n], ws[n];
      assert ws == init + [w];
      FilterSnoc(init, w, IsOtherWallet);
      NonCurrentCallsAreFiltered(init);
      var f := Filter(init, IsOtherWallet);
      if w.current {
        assert NonCurrentCalls(ws) == NonCurrentCalls(init);
        assert Filter(ws, IsOtherWallet) == f;
      } else {
        assert NonCurrentCalls(ws) == NonCurrentCalls(init) + [WalletCall(w)];
        assert Filter(ws, IsOtherWallet) == f + [w];
        WalletCallsSnoc(f, w);
      }
    }
  }

  /**
   * The wallet section fails exactly when an element is not a wallet object,
   * or when every element is one and none is marked current.
   */
  lemma WalletPlanErrors(ws: seq<ConfigWallet>)
    ensures WalletPlan(ws).error == Some(WalletNotAnObject) <==> exists i :: 0 <= i < |ws| && ws[i].BareWallet?
    ensures WalletPlan(ws).error == Some(NoCurrentWallet) <==>
      (forall i :: 0 <= i < |ws| ==> ws[i].WalletEntry? && !ws[i].current)
    ensures WalletPlan(ws).error == None <==>
      (forall i :: 0 <= i < |ws| ==> ws[i].WalletEntry?) && exists i :: 0 <= i < |ws| && ws[i].current
  {
    match FirstBare(ws)
    case Some(b) =>
      assert ws[b].BareWallet?;
    case None =>
  }

  /**
   * With no wallet marked current, every wallet is written (so the last one
   * in the file becomes current in the store) before `set_wallet(**None)` fails.
   */
  lemma NoCurrentWalletWritesAll(ws: seq<ConfigWallet>)
    requires forall i :: 0 <= i < |ws| ==> ws[i].WalletEntry? && !ws[i].current
    ensures WalletPlan(ws) == Plan(WalletCalls(ws), Some(NoCurrentWallet))
  {
    WalletPlanErrors(ws);
    NonCurrentCallsAreFiltered(ws);
    FilterAll(ws, IsOtherWallet);
  }

  /** The upserts the wallet table sees for a list of store calls. */
  function WalletOps(calls: seq<StoreCall>): (r: seq<WalletTable.WalletOp>)
    ensures |r| <= |calls|
    ensures (forall i :: 0 <= i < |calls| ==> calls[i].SetWallet?) ==> |r| == |calls|
    decreases |calls|
  {
    if calls == [] then []
    else
      var init := WalletOps(calls[..|calls| - 1]);
      match calls[|calls| - 1]
      case SetWallet(pk, l, m) => init + [WalletTable.Upsert(pk, l, m)]
      case _ => init
  }

  /** One upsert through `ApplyOps` is `SetWallet` itself. */
  lemma ApplyOneUpsert(rows: seq<Wallet>, pk: string, l: Option<string>, m: Option<string>,
                       publicKeyOf: string -> Option<string>)
    ensures WalletTable.ApplyOps(rows, [WalletTable.Upsert(pk, l, m)], publicKeyOf)
      == WalletTable.SetWallet(rows, pk, l, m, publicKeyOf)
  {
    var u := WalletTable.SetWallet(rows, pk, l, m, publicKeyOf);
    assert [WalletTable.Upsert(pk, l, m)][1..] == [];
    if u.error.None? {
      assert WalletTable.ApplyOps(u.rows, [], publicKeyOf) == WalletTable.Update(None, u.rows);
    }
  }

  /**
   * A wallet section that imports without error leaves, once its writes
   * succeed on a table that kept the one-current rule, exactly one current
   * wallet: the one the file marks current last.
   */
  lemma ImportedCurrentWalletIsSoleCurrent(ws: seq<ConfigWallet>, rows: seq<Wallet>,
                                           publicKeyOf: string -> Option<string>)
    requires WalletPlan(ws).error == None
    requires WalletTable.UniqueKeys(rows) && WalletTable.CurrentRule(rows)
    ensures forall j :: 0 <= j < |ws| ==> ws[j].WalletEntry?
    ensures LastCurrent(ws).Some?
    ensures var u := WalletTable.ApplyOps(rows, WalletOps(WalletPlan(ws).calls), publicKeyOf);
      u.error == None ==>
        WalletTable.CountCurrent(u.rows) == 1 && WalletTable.UniqueKeys(u.rows) &&
        forall i :: 0 <= i < |u.rows| ==> (u.rows[i].current <==> u.rows[i].privateKey == LastCurrent(ws).value.privateKey)
  {
    WalletPlanErrors(ws);
    var w := LastCurrent(ws).value;
    var nc := NonCurrentCalls(ws);
    var calls := nc + [WalletCall(w)];
    assert WalletPlan(ws).calls == calls;
    assert calls[..|calls| - 1] == nc;
    var op := WalletTable.Upsert(w.privateKey, w.walletLabel, w.mnemonic);
    assert WalletOps(calls) == WalletOps(nc) + [op];
    WalletTable.ApplyOpsSnoc(rows, WalletOps(nc), op, publicKeyOf);
    var v := WalletTable.ApplyOps(rows, WalletOps(nc), publicKeyOf);
    if v.error.None? {
      WalletTable.ApplyOpsKeepsRule(rows, WalletOps(nc), publicKeyOf);
      ApplyOneUpsert(v.rows, w.privateKey, w.walletLabel, w.mnemonic, publicKeyOf);
      WalletTable.SetWalletMakesSoleCurrent(v.rows, w.privateKey, w.walletLabel, w.mnemonic, publicKeyOf);
    }
  }

  /** A call stores a custom account the file marks current. */
  predicate CurrentAccountCall(c: StoreCall) { c.SetCustomAccount? && c.record.current }

  lemma AccountCallsAppend(a: seq<CustomAccount>, b: seq<CustomAccount>)
    ensures AccountCalls(a + b) == AccountCalls(a) + AccountCalls(b)
  {
    assert forall i :: 0 <= i < |a| ==> (a + b)[i] == a[i];
    assert forall i :: |a| <= i < |a| + |b| ==> (a + b)[i] == b[i - |a|];
  }

  /** One more account: it joins the part its `current` flag selects. */
  lemma SplitSnoc(init: seq<CustomAccount>, a: CustomAccount)
    ensures multiset(Filter(init + [a], IsOtherAccount)) + multiset(Filter(init + [a], IsCurrentAccount))
      == multiset(Filter(init, IsOtherAccount)) + multiset(Filter(init, IsCurrentAccount)) + multiset{a}
  {
    FilterSnoc(init, a, IsOtherAccount);
    FilterSnoc(init, a, IsCurrentAccount);
  }

  /** Splitting by current and non-current loses and adds no account. */
  lemma {:induction false} SplitKeepsAccounts(accounts: seq<CustomAccount>)
    ensures multiset(Filter(accounts, IsOtherAccount)) + multiset(Filter(accounts, IsCurrentAccount)) == multiset(accounts)
    decreases |accounts|
  {
    if accounts != [] {
      var n := |accounts| - 1;
      var init := accounts[..n];
      assert accounts == init + [accounts[n]];
      SplitKeepsAccounts(init);
      SplitSnoc(init, accounts[n]);
    }
  }

  /**
   * The custom section writes every account of the file exactly once: its
   * writes are those of a permutation of the accounts.
   */
  lemma CustomPlanPermutes(accounts: seq<CustomAccount>)
    ensures exists order :: multiset(order) == multiset(accounts) && CustomPlan(accounts) == AccountCalls(order)
  {
    var order := Filter(accounts, IsOtherAccount) + Filter(accounts, IsCurrentAccount);
    SplitKeepsAccounts(accounts);
    AccountCallsAppend(Filter(accounts, IsOtherAccount), Filter(accounts, IsCurrentAccount));
    assert multiset(order) == multiset(accounts) && CustomPlan(accounts) == AccountCalls(order);
  }

  /** In the custom section, no account marked current is written before one that is not. */
  lemma CustomPlanCurrentLast(accounts: seq<CustomAccount>)
    ensures var r := CustomPlan(accounts);
      forall i, j :: 0 <= i < j < |r| && CurrentAccountCall(r[i]) ==> CurrentAccountCall(r[j])
  {
    var o := Filter(accounts, IsOtherAccount);
    var c := Filter(accounts, IsCurrentAccount);
    var r := CustomPlan(accounts);
    forall i, j | 0 <= i < j < |r| && CurrentAccountCall(r[i]) ensures CurrentAccountCall(r[j]) {
      assert r[j] == SetCustomAccount(c[j - |o|]);
      assert IsCurrentAccount(c[j - |o|]);
    }
  }

  /** The section a call belongs to, in the order `_import` runs them. */
  function Section(c: StoreCall): nat
  {
    match c
    case SetGithubUser(_) => 0
    case SetWallet(_, _, _) => 1
    case SetCustomAccount(_) => 2
    case SetEnvar(_, _) => 3
  }

  predicate InSection(calls: seq<StoreCall>, k: nat)
  {
    forall i :: 0 <= i < |calls| ==> Section(calls[i]) == k
  }

  predicate SectionOrdered(calls: seq<StoreCall>)
  {
    forall i, j :: 0 <= i < j < |calls| ==> Section(calls[i]) <= Section(calls[j])
  }

  /** The wallet section writes only wallets. */
  lemma WalletPlanInSection(ws: seq<ConfigWallet>)
    ensures InSection(WalletPlan(ws).calls, 1)
  {
    match FirstBare(ws)
    case Some(b) =>
      NonCurrentCallsAreFiltered(ws[..b]);
    case None =>
      NonCurrentCallsAreFiltered(ws);
  }

  /** The custom-account section writes only custom accounts. */
  lemma CustomPlanInSection(accounts: seq<CustomAccount>)
    ensures InSection(CustomPlan(accounts), 2)
  {
    var others := AccountCalls(Filter(accounts, IsOtherAccount));
    var currents := AccountCalls(Filter(accounts, IsCurrentAccount));
    assert InSection(others, 2) && InSection(currents, 2);
  }

  /** The environment section writes only environment variables. */
  lemma EnvCallsInSection(env: seq<EnvVar>)
    ensures InSection(EnvCalls(env), 3)
  {
  }

  lemma SectionsConcat(a: seq<StoreCall>, b: seq<StoreCall>, k: nat)
    requires SectionOrdered(a) && forall i :: 0 <= i < |a| ==> Section(a[i]) <= k
    requires InSection(b, k)
    ensures SectionOrdered(a + b) && forall i :: 0 <= i < |a + b| ==> Section((a + b)[i]) <= k
  {
  }

  /**
   * An import writes the GitHub user first, then wallets, then custom
   * accounts, then environment variables, whether or not it stops early;
   * it stops exactly when the wallet section does.
   */
  lemma ImportPlanOrdered(user: UserConfig)
    ensures SectionOrdered(ImportPlan(user).calls)
    ensures ImportPlan(user).error.Some? <==> Present(user.wallets) && WalletPlan(user.wallets.value).error.Some?
    ensures TruthyOpt(user.github) ==> ImportPlan(user).calls[0] == SetGithubUser(user.github.value)
  {
    var github, wallets := GithubCalls(user), WalletSection(user);
    if Present(user.wallets) {
      WalletPlanInSection(user.wallets.value);
    }
    SectionsConcat(github, wallets.calls, 1);
    if wallets.error.None? {
      var custom, env := CustomSection(user), EnvSection(user);
      if Present(user.custom) {
        CustomPlanInSection(user.custom.value);
      }
      if Present(user.env) {
        EnvCallsInSection(user.env.value);
      }
      SectionsConcat(github + wallets.calls, custom, 2);
      SectionsConcat(github + wallets.calls + custom, env, 3);
    }
  }
}
