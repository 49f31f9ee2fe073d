/**
 * The `change` commands of `cli/_change.py`: menus that switch the current
 * wallet or custom account. Each option's deleting handler removes its record
 * and, when that left its table (or group) without a current record, promotes
 * the last one. Custom accounts are grouped by `account` into one nested
 * screen per group that has at least two accounts.
 */
module Change {
  import opened Wrappers
  import opened PyStr
  import opened Records
  import opened Counting
  import opened OptionModel
  import opened Menu
  import WalletTable
  import CustomTable

  const NoWallets := "There are no wallets in the database to change."
  const NoCustomAccounts := "There are no custom accounts in the database to change."
  const WalletMenuDescription := "Change wallet for unit tests"
  const CustomMenuDescription := "Change custom account"

  /** A `KeyMode(options, description)` about to be shown. */
  datatype MenuCall = MenuCall(options: seq<MenuOption>, description: Option<string>)

  /** `text`, followed by ` (Current)` for the current record. */
  function CurrentLabel(text: string, current: bool): string
  {
    if current then text + " (Current)" else text
  }

  /**
   * `_make_wallet_option`: named by the label, described by the public key.
   * The select handler reads `label` when it runs, after the decoration, so
   * for the current wallet it passes the decorated name.
   */
  function MakeWalletOption(w: Wallet): (o: MenuOption)
    ensures o.description == Some(w.publicKey)
    ensures o.handler == SetWallet(w.privateKey, if w.current then Some(o.name) else w.walletLabel)
    ensures o.deletingHandler == Some(DeleteWalletAndPromote(w.privateKey))
    ensures w.current ==> o.name == Format(w.walletLabel) + " (Current)"
    ensures !w.current ==> o.name == Format(w.walletLabel)
  {
    var name := CurrentLabel(Format(w.walletLabel), w.current);
    MenuOption(name, SetWallet(w.privateKey, if w.current then Some(name) else w.walletLabel),
               Some(w.publicKey), Some(DeleteWalletAndPromote(w.privateKey)))
  }

  /**
   * Choosing a wallet's option makes that wallet the only current one and
   * changes nothing else: the row exists, so the decorated label the handler
   * passes is never stored.
   */
  lemma SelectingWalletOption(rows: seq<Wallet>, k: nat, publicKeyOf: string -> Option<string>)
    requires WalletTable.UniqueKeys(rows) && WalletTable.CountCurrent(rows) <= 1 && k < |rows|
    ensures var h := MakeWalletOption(rows[k]).handler;
      var u := WalletTable.SetWallet(rows, h.privateKey, h.walletLabel, None, publicKeyOf);
      u.error == None && |u.rows| == |rows| &&
      (forall i :: 0 <= i < |rows| ==> (u.rows[i].current <==> i == k)) &&
      (forall i :: 0 <= i < |rows| ==> u.rows[i] == rows[i].(current := i == k))
  {
    var h := MakeWalletOption(rows[k]).handler;
    WalletTable.SetWalletPromotesExisting(rows, k, h.walletLabel, None, publicKeyOf);
    WalletTable.DemotedHasNoCurrent(rows);
    var d := WalletTable.Demoted(rows);
    CountZero(d, WalletTable.IsCurrent);
    assert forall i :: 0 <= i < |rows| ==> !d[i].current;
  }

  /** Deleting through a wallet's option keeps the store's rule: no wallets, or exactly one current. */
  lemma DeletingWalletOption(rows: seq<Wallet>, k: nat, publicKeyOf: string -> Option<string>)
    requires WalletTable.UniqueKeys(rows) && WalletTable.CurrentRule(rows) && k < |rows|
    ensures var d := MakeWalletOption(rows[k]).deletingHandler.value;
      var u := WalletTable.DeleteWalletAndPromote(rows, d.privateKey, publicKeyOf);
      u.error == None && WalletTable.CurrentRule(u.rows) && WalletTable.UniqueKeys(u.rows) &&
      |u.rows| == |rows| - 1 &&
      forall i :: 0 <= i < |u.rows| ==> u.rows[i].privateKey != rows[k].privateKey
  {
    var pk := rows[k].privateKey;
    WalletTable.DeleteWalletAndPromoteKeepsRule(rows, pk, publicKeyOf);
    DeleteOneWallet(rows, k);
    var rest := WalletTable.DeleteWallet(rows, pk);
    var u := WalletTable.DeleteWalletAndPromote(rows, pk, publicKeyOf);
    forall i | 0 <= i < |u.rows| ensures u.rows[i].privateKey != pk {
      assert u.rows[i].privateKey == rest[i].privateKey;
    }
  }

  /** With unique keys, deleting a stored wallet's private key removes exactly one row. */
  lemma DeleteOneWallet(rows: seq<Wallet>, k: nat)
    requires WalletTable.UniqueKeys(rows) && k < |rows|
    ensures |WalletTable.DeleteWallet(rows, rows[k].privateKey)| == |rows| - 1
  {
    var pk := rows[k].privateKey;
    WalletTable.UniqueKeyCount(rows, pk);
    CountZero(rows, WalletTable.HasPrivateKey(pk));
    CountSame(rows, rows, WalletTable.HasPrivateKey(pk), WalletTable.HasPrivateKey(pk));
    ComplementCount(rows, WalletTable.HasPrivateKey(pk), WalletTable.LacksPrivateKey(pk));
    assert Count(rows, WalletTable.HasPrivateKey(pk)) == 1;
  }

  /** A predicate and its negation split a sequence's length. */
  lemma {:induction false} ComplementCount<T>(xs: seq<T>, p: T -> bool, q: T -> bool)
    requires forall i :: 0 <= i < |xs| ==> (q(xs[i]) <==> !p(xs[i]))
    ensures Count(xs, p) + Count(xs, q) == |xs|
  {
    if xs != [] {
      ComplementCount(xs[1..], p, q);
    }
  }

  /**
   * `_make_custom_option`: named by the e-mail, without a description. The
   * select handler passes the account's fields (its `current` flag popped)
   * to `set_custom_account`; the deleting handler deletes by (account,
   * e-mail) and promotes within the group.
   */
  function MakeCustomOption(a: CustomAccount): (o: MenuOption)
    ensures o.description == None
    ensures o.handler == SetCustomAccount(a)
    ensures o.deletingHandler == Some(DeleteCustomAccountAndPromote(a.account, a.email))
    ensures a.current ==> o.name == a.email + " (Current)"
    ensures !a.current ==> o.name == a.email
  {
    MenuOption(CurrentLabel(a.email, a.current), SetCustomAccount(a), None,
               Some(DeleteCustomAccountAndPromote(a.account, a.email)))
  }

  /**
   * Choosing a custom account's option makes it the only current account of
   * its group, inserts nothing, and leaves every other group as it was.
   */
  lemma SelectingCustomOption(rows: seq<CustomAccount>, k: nat)
    requires CustomTable.UniqueAccounts(rows) && k < |rows|
    requires CustomTable.CountCurrentIn(rows, rows[k].account) <= 1
    ensures var a := MakeCustomOption(rows[k]).handler.record;
      var r := CustomTable.SetCustomAccount(rows, a);
      |r| == |rows| &&
      (forall i :: 0 <= i < |r| && r[i].account == a.account ==> (r[i].current <==> i == k)) &&
      Filter(r, CustomTable.OutsideGroup(a.account)) == Filter(rows, CustomTable.OutsideGroup(a.account))
  {
    var a := rows[k];
    var r := CustomTable.SetCustomAccount(rows, a);
    CustomTable.SetCustomAccountSoleCurrent(rows, a);
    CustomTable.SetCustomAccountKeepsOthers(rows, a);
    var d := CustomTable.DemotedIn(rows, a.account);
    CustomTable.UniqueAccountCount(rows, a.account, a.email);
    CountSame(d, rows, CustomTable.SameAccount(a.account, a.email), CustomTable.SameAccount(a.account, a.email));
    assert CustomTable.SameAccount(a.account, a.email)(d[k]);
    CountZero(d, CustomTable.SameAccount(a.account, a.email));
    var j := CustomTable.IndexOfAccount(d, a.account, a.email).value;
    assert j == k;
    forall i | 0 <= i < |r| && r[i].account == a.account ensures r[i].current <==> i == k {
      assert i != k ==> r[i] == d[i] && (i < k || k < i);
    }
  }

  /**
   * `_make_wallet_option` keeps the name `None` for an unlabelled wallet that
   * is not current (only the current one is formatted into a string).
   */
  predicate Unnamed(w: Wallet)
  {
    !w.current && w.walletLabel.None?
  }

  /**
   * Why `_wallet` shows no menu: the message it echoes, or the `TypeError`
   * that `KeyMode.__call__` raises when it takes `len` of an option name that
   * is `None` (keymode.py:53), before anything is drawn.
   */
  datatype WalletMenuError = Echoed(message: string) | NameIsNone

  /**
   * `_wallet`: the menu over `sort_wallets(wallets)`; the error message when
   * there are fewer than two wallets; the crash when a sorted wallet's option
   * has no name.
   */
  function WalletMenu(tableExists: bool, rows: seq<Wallet>, sortWallets: seq<Wallet> -> seq<Wallet>): (r: Result<MenuCall, WalletMenuError>)
    ensures r == Err(Echoed(NoWallets)) <==> !tableExists || |rows| < 2
    ensures r == Err(NameIsNone) <==>
      tableExists && 2 <= |rows| && exists i :: 0 <= i < |sortWallets(rows)| && Unnamed(sortWallets(rows)[i])
    ensures r.Ok? ==> r.value.description == Some(WalletMenuDescription)
    ensures r.Ok? ==> |r.value.options| == |sortWallets(rows)|
    ensures r.Ok? ==> forall i :: 0 <= i < |sortWallets(rows)| ==> r.value.options[i] == MakeWalletOption(sortWallets(rows)[i])
  {
    var wallets := if tableExists then rows else [];
    if |wallets| < 2 then Err(Echoed(NoWallets))
    else
      var sorted := sortWallets(wallets);
      if exists i :: 0 <= i < |sorted| && Unnamed(sorted[i]) then Err(NameIsNone)
      else Ok(MenuCall(seq(|sorted|, i requires 0 <= i < |sorted| => MakeWalletOption(sorted[i])), Some(WalletMenuDescription)))
  }

  /**
   * In a menu that is shown, every wallet option's name is a string the
   * wallet supplies: its label, decorated for the current wallet.
   */
  lemma ShownWalletNames(tableExists: bool, rows: seq<Wallet>, sortWallets: seq<Wallet> -> seq<Wallet>, i: nat)
    requires WalletMenu(tableExists, rows, sortWallets).Ok? && i < |sortWallets(rows)|
    ensures var w := sortWallets(rows)[i];
      w.walletLabel.Some? || w.current
    ensures var w := sortWallets(rows)[i];
      WalletMenu(tableExists, rows, sortWallets).value.options[i].name ==
        if w.current then Format(w.walletLabel) + " (Current)" else w.walletLabel.value
  {
  }

  /** The account name of every stored account, in store order. */
  function Names(rows: seq<CustomAccount>): (r: seq<string>)
    ensures |r| == |rows|
    ensures forall i :: 0 <= i < |rows| ==> r[i] == rows[i].account
  {
    seq(|rows|, i requires 0 <= i < |rows| => rows[i].account)
  }

  /** The keys of `accounts_map`: each account name once, in order of first appearance. */
  function AccountNames(rows: seq<CustomAccount>): seq<string>
    decreases |rows|
  {
    if rows == [] then []
    else
      var names := AccountNames(rows[..|rows| - 1]);
      var g := rows[|rows| - 1].account;
      if g in names then names else names + [g]
  }

  /** No name is listed twice, and the listed names are exactly the stored accounts' names. */
  lemma {:induction false} AccountNamesSpec(rows: seq<CustomAccount>)
    ensures forall i, j :: 0 <= i < j < |AccountNames(rows)| ==> AccountNames(rows)[i] != AccountNames(rows)[j]
    ensures forall g :: g in AccountNames(rows) <==> g in Names(rows)
    decreases |rows|
  {
    if rows != [] {
      var init := rows[..|rows| - 1];
      AccountNamesSpec(init);
      var names, g := AccountNames(init), rows[|rows| - 1].account;
      assert Names(rows) == Names(init) + [g];
      var r := AccountNames(rows);
      assert r == if g in names then names else names + [g];
      forall x ensures x in r <==> x in Names(rows) {
        assert x in Names(rows) <==> x in Names(init) || x == g;
      }
      forall i, j | 0 <= i < j < |r| ensures r[i] != r[j] {
        if j == |names| {
          assert g !in names && r[i] == names[i] && names[i] in names && r[j] == g;
        } else {
          assert r[i] == names[i] && r[j] == names[j];
          assert names[i] != names[j];
        }
      }
    }
  }

  /** Some account named `a` is stored before every account named `b`. */
  ghost predicate StoredBefore(rows: seq<CustomAccount>, a: string, b: string)
  {
    exists p :: 0 <= p < |rows| && rows[p].account == a && forall q :: 0 <= q <= p ==> rows[q].account != b
  }

  /**
   * The groups come in order of first appearance: some account of an earlier
   * group is stored before every account of a later one.
   */
  lemma {:induction false} FirstAppearanceOrder(rows: seq<CustomAccount>)
    ensures forall i, j :: 0 <= i < j < |AccountNames(rows)| ==>
      StoredBefore(rows, AccountNames(rows)[i], AccountNames(rows)[j])
    decreases |rows|
  {
    if rows == [] {
      assert AccountNames(rows) == [];
    } else {
      var init := rows[..|rows| - 1];
      var g := rows[|rows| - 1].account;
      FirstAppearanceOrder(init);
      AccountNamesSpec(init);
      var before := AccountNames(init);
      var names := AccountNames(rows);
      assert forall t :: 0 <= t < |init| ==> init[t] == rows[t];
      forall i, j | 0 <= i < j < |names|
        ensures StoredBefore(rows, names[i], names[j])
      {
        if j < |before| {
          assert names[i] == before[i] && names[j] == before[j];
          assert StoredBefore(init, before[i], before[j]);
          var p :| 0 <= p < |init| && init[p].account == before[i] &&
            forall q :: 0 <= q <= p ==> init[q].account != before[j];
          assert rows[p] == init[p];
          assert forall q :: 0 <= q <= p ==> rows[q].account != names[j];
        } else {
          assert names[j] == g && g !in before && names[i] == before[i];
          assert g !in Names(init);
          assert before[i] in Names(init);
          var p :| 0 <= p < |init| && Names(init)[p] == before[i];
          assert forall q :: 0 <= q <= p ==> rows[q] == init[q] && rows[q].account == Names(init)[q];
        }
      }
    }
  }

  /** One entry of `accounts_map`: an account name and its accounts in store order. */
  datatype Group = Group(account: string, members: seq<CustomAccount>)

  /** `accounts_map.items()` */
  function Grouped(rows: seq<CustomAccount>): (gs: seq<Group>)
    ensures |gs| == |AccountNames(rows)|
    ensures forall j, m :: 0 <= j < |gs| && 0 <= m < |gs[j].members| ==> gs[j].members[m].account == gs[j].account
  {
    AccountNamesSpec(rows);
    var names := AccountNames(rows);
    seq(|names|, i requires 0 <= i < |names| => Group(names[i], CustomTable.GroupAccounts(rows, names[i])))
  }

  /**
   * The grouping partitions the accounts: every group is non-empty and holds
   * only its own accounts, and every account is in the group of its name.
   */
  lemma GroupedPartitions(rows: seq<CustomAccount>)
    ensures var gs := Grouped(rows);
      (forall j :: 0 <= j < |gs| ==> gs[j].members != []) &&
      (forall j, m :: 0 <= j < |gs| && 0 <= m < |gs[j].members| ==>
         gs[j].members[m] in rows && gs[j].members[m].account == gs[j].account) &&
      (forall i :: 0 <= i < |rows| ==> exists j :: 0 <= j < |gs| && gs[j].account == rows[i].account && rows[i] in gs[j].members)
  {
    var gs := Grouped(rows);
    var names := AccountNames(rows);
    AccountNamesSpec(rows);
    forall j | 0 <= j < |gs| ensures gs[j].members != [] {
      assert names[j] in Names(rows);
      var i :| 0 <= i < |rows| && Names(rows)[i] == names[j];
      assert CustomTable.InGroup(names[j])(rows[i]);
      assert rows[i] in gs[j].members;
    }
    forall i | 0 <= i < |rows|
      ensures exists j :: 0 <= j < |gs| && gs[j].account == rows[i].account && rows[i] in gs[j].members
    {
      var g := rows[i].account;
      assert Names(rows)[i] == g;
      assert g in names;
      var j :| 0 <= j < |names| && names[j] == g;
      assert CustomTable.InGroup(g)(rows[i]);
      assert rows[i] in gs[j].members;
    }
  }

  /** Without any stored account of that name, the group is empty. */
  lemma EmptyGroup(rows: seq<CustomAccount>, g: string)
    requires g !in AccountNames(rows)
    ensures CustomTable.GroupAccounts(rows, g) == []
  {
    forall i | 0 <= i < |rows| ensures rows[i].account != g {
      assert Names(rows)[i] == rows[i].account;
    }
    CountZero(rows, CustomTable.InGroup(g));
  }

  /** Storing one more account extends its own group only. */
  lemma GroupSnoc(rows: seq<CustomAccount>, a: CustomAccount, g: string)
    ensures CustomTable.GroupAccounts(rows + [a], g) ==
      CustomTable.GroupAccounts(rows, g) + (if a.account == g then [a] else [])
  {
    FilterSnoc(rows, a, CustomTable.InGroup(g));
  }

  /**
   * The loop of `custom` that fills `accounts_map`: a dictionary, so its key
   * order is kept beside it.
   */
  method GroupByAccount(rows: seq<CustomAccount>) returns (order: seq<string>, groups: map<string, seq<CustomAccount>>)
    ensures order == AccountNames(rows)
    ensures forall g :: g in groups <==> g in order
    ensures forall g :: g in groups ==> groups[g] == CustomTable.GroupAccounts(rows, g)
  {
    order, groups := [], map[];
    var i := 0;
    while i < |rows|
      invariant 0 <= i <= |rows|
      invariant GroupsOf(rows[..i], order, groups)
    {
      var account := rows[i];
      assert rows[..i + 1] == rows[..i] + [account];
      GroupStep(rows[..i], account, order, groups);
      if account.account in groups {
        groups := groups[account.account := groups[account.account] + [account]];
      } else {
        groups := groups[account.account := [account]];
        order := order + [account.account];
      }
      i := i + 1;
    }
    assert rows[..i] == rows;
  }

  /** `order` and `groups` are the key order and the contents of `accounts_map` after `rows`. */
  ghost predicate GroupsOf(rows: seq<CustomAccount>, order: seq<string>, groups: map<string, seq<CustomAccount>>)
  {
    order == AccountNames(rows) &&
    (forall g :: g in groups <==> g in order) &&
    (forall g :: g in groups ==> groups[g] == CustomTable.GroupAccounts(rows, g))
  }

  /** One pass of the loop: an account joins its group, or opens a new one at the end of the key order. */
  lemma GroupStep(rows: seq<CustomAccount>, a: CustomAccount, order: seq<string>, groups: map<string, seq<CustomAccount>>)
    requires GroupsOf(rows, order, groups)
    ensures a.account in groups ==> GroupsOf(rows + [a], order, groups[a.account := groups[a.account] + [a]])
    ensures a.account !in groups ==> GroupsOf(rows + [a], order + [a.account], groups[a.account := [a]])
  {
    AccountNamesSnoc(rows, a);
    if a.account in groups {
      JoinGroup(rows, a, order, groups);
    } else {
      EmptyGroup(rows, a.account);
      OpenGroup(rows, a, order, groups);
    }
  }

  lemma JoinGroup(rows: seq<CustomAccount>, a: CustomAccount, order: seq<string>, groups: map<string, seq<CustomAccount>>)
    requires a.account in groups
    requires forall g :: g in groups ==> groups[g] == CustomTable.GroupAccounts(rows, g)
    ensures forall g :: g in groups[a.account := groups[a.account] + [a]] ==>
      groups[a.account := groups[a.account] + [a]][g] == CustomTable.GroupAccounts(rows + [a], g)
  {
    var next := groups[a.account := groups[a.account] + [a]];
    forall g | g in next ensures next[g] == CustomTable.GroupAccounts(rows + [a], g) {
      GroupSnoc(rows, a, g);
    }
  }

  lemma OpenGroup(rows: seq<CustomAccount>, a: CustomAccount, order: seq<string>, groups: map<string, seq<CustomAccount>>)
    requires a.account !in groups && CustomTable.GroupAccounts(rows, a.account) == []
    requires forall g :: g in groups ==> groups[g] == CustomTable.GroupAccounts(rows, g)
    ensures forall g :: g in groups[a.account := [a]] ==> groups[a.account := [a]][g] == CustomTable.GroupAccounts(rows + [a], g)
  {
    var next := groups[a.account := [a]];
    forall g | g in next ensures next[g] == CustomTable.GroupAccounts(rows + [a], g) {
      GroupSnoc(rows, a, g);
    }
  }

  lemma AccountNamesSnoc(rows: seq<CustomAccount>, a: CustomAccount)
    ensures AccountNames(rows + [a]) ==
      if a.account in AccountNames(rows) then AccountNames(rows) else AccountNames(rows) + [a.account]
  {
    assert (rows + [a])[..|rows|] == rows;
  }

  /** A group gets a screen only with two or more accounts. */
  predicate IsLarge(g: Group)
  {
    |g.members| >= 2
  }

  /**
   * The group a screen's deleting handler removes: the key it was bound to,
   * or, when `bound` is `None`, the screen's own group.
   */
  function Deleted(bound: Option<string>, g: Group): string
  {
    if bound.Some? then bound.value else g.account
  }

  /** `KeyMode.screen_option(key.capitalize(), description, account_options, deleting_handler)` */
  function GroupScreen(g: Group, optionFor: CustomAccount -> MenuOption, deleted: string): (o: MenuOption)
    ensures o.name == Capitalize(g.account) && o.description == None
    ensures o.deletingHandler == Some(DeleteAccountGroup(deleted))
    ensures o.handler.RunScreen? && o.handler.description == Some("Change " + Capitalize(g.account) + " account")
    ensures |o.handler.options| == |g.members|
    ensures forall m :: 0 <= m < |g.members| ==> o.handler.options[m] == optionFor(g.members[m])
  {
    ScreenOption(Capitalize(g.account), Some("Change " + Capitalize(g.account) + " account"),
                 seq(|g.members|, i requires 0 <= i < |g.members| => optionFor(g.members[i])),
                 Some(DeleteAccountGroup(deleted)))
  }

  /** The loop over `accounts_map.items()` that builds `screen_options`. */
  function Screens(gs: seq<Group>, optionFor: CustomAccount -> MenuOption, bound: Option<string>): (r: seq<MenuOption>)
    ensures |r| <= |gs|
    ensures forall j :: 0 <= j < |r| ==> r[j].handler.RunScreen? && r[j].description == None
    ensures forall j :: 0 <= j < |r| ==> r[j].deletingHandler.Some? && r[j].deletingHandler.value.DeleteAccountGroup?
    ensures bound.Some? ==> forall j :: 0 <= j < |r| ==> r[j].deletingHandler == Some(DeleteAccountGroup(bound.value))
    decreases |gs|
  {
    if gs == [] then []
    else
      var before := Screens(gs[..|gs| - 1], optionFor, bound);
      var g := gs[|gs| - 1];
      if |g.members| < 2 then before else before + [GroupScreen(g, optionFor, Deleted(bound, g))]
  }

  /** The screens are exactly those of the groups with two or more accounts, in group order. */
  lemma {:induction false} ScreensOfLargeGroups(gs: seq<Group>, optionFor: CustomAccount -> MenuOption, bound: Option<string>)
    ensures var large := Filter(gs, IsLarge);
      var screens := Screens(gs, optionFor, bound);
      |screens| == |large| &&
      forall j :: 0 <= j < |large| ==> screens[j] == GroupScreen(large[j], optionFor, Deleted(bound, large[j]))
    decreases |gs|
  {
    if gs != [] {
      var before := gs[..|gs| - 1];
      var g := gs[|gs| - 1];
      ScreensOfLargeGroups(before, optionFor, bound);
      LastSplit(gs);
      FilterSnoc(before, g, IsLarge);
    }
  }

  /** There is no screen exactly when no group has two or more accounts. */
  lemma NoScreens(gs: seq<Group>, optionFor: CustomAccount -> MenuOption, bound: Option<string>)
    ensures Screens(gs, optionFor, bound) == [] <==> forall t :: 0 <= t < |gs| ==> !IsLarge(gs[t])
  {
    ScreensOfLargeGroups(gs, optionFor, bound);
    CountZero(gs, IsLarge);
  }

  /** Each screen is that of a group with two or more accounts. */
  lemma ScreenOfGroup(gs: seq<Group>, optionFor: CustomAccount -> MenuOption, bound: Option<string>, j: nat)
    requires j < |Screens(gs, optionFor, bound)|
    ensures exists t :: (0 <= t < |gs| && IsLarge(gs[t]) &&
                         Screens(gs, optionFor, bound)[j] == GroupScreen(gs[t], optionFor, Deleted(bound, gs[t])))
  {
    ScreensOfLargeGroups(gs, optionFor, bound);
    var large := Filter(gs, IsLarge);
    assert large[j] in gs && IsLarge(large[j]);
  }

  /** A group of `Grouped` holds every account of its name. */
  lemma GroupedAt(rows: seq<CustomAccount>, t: nat)
    requires t < |Grouped(rows)|
    ensures var g := Grouped(rows)[t];
      g.account == AccountNames(rows)[t] && g.account in AccountNames(rows) &&
      g.members == CustomTable.GroupAccounts(rows, g.account) &&
      |g.members| == Count(rows, CustomTable.InGroup(g.account))
  {
  }

  /** The `custom` command with each group-delete handler bound to its own group (see `CustomAsWritten`). */
  function CustomMenu(rows: seq<CustomAccount>): (r: Result<MenuCall, string>)
    ensures rows == [] ==> r == Err(NoCustomAccounts)
    ensures r.Err? ==> r.error == NoCustomAccounts
    ensures r.Ok? ==> r.value.description == Some(CustomMenuDescription) && r.value.options != []
    ensures r.Ok? ==> forall j :: 0 <= j < |r.value.options| ==>
      r.value.options[j].handler.RunScreen? && r.value.options[j].deletingHandler.Some?
  {
    if rows == [] then Err(NoCustomAccounts)
    else
      var screens := Screens(Grouped(rows), MakeCustomOption, None);
      if screens == [] then Err(NoCustomAccounts) else Ok(MenuCall(screens, Some(CustomMenuDescription)))
  }

  /** Distinct account names leave every group with at most one account. */
  lemma {:induction false} DistinctNamesCount(rows: seq<CustomAccount>, g: string)
    requires forall i, j :: 0 <= i < j < |rows| ==> rows[i].account != rows[j].account
    ensures Count(rows, CustomTable.InGroup(g)) <= 1
  {
    if rows != [] {
      DistinctNamesCount(rows[1..], g);
      if rows[0].account == g {
        CountZero(rows[1..], CustomTable.InGroup(g));
      }
    }
  }

  /** With distinct account names no group has two accounts. */
  lemma DistinctNamesNoLargeGroup(rows: seq<CustomAccount>)
    requires forall i, j :: 0 <= i < j < |rows| ==> rows[i].account != rows[j].account
    ensures forall t :: 0 <= t < |Grouped(rows)| ==> !IsLarge(Grouped(rows)[t])
  {
    forall t | 0 <= t < |Grouped(rows)| ensures !IsLarge(Grouped(rows)[t]) {
      GroupedAt(rows, t);
      DistinctNamesCount(rows, Grouped(rows)[t].account);
    }
  }

  /** Two accounts of one name make their group large. */
  lemma SharedNameLargeGroup(rows: seq<CustomAccount>, i: nat, j: nat)
    requires i < j < |rows| && rows[i].account == rows[j].account
    ensures exists t :: 0 <= t < |Grouped(rows)| && IsLarge(Grouped(rows)[t])
  {
    var g := rows[i].account;
    CountTwo(rows, i, j, CustomTable.InGroup(g));
    assert Names(rows)[i] == g;
    var names := AccountNames(rows);
    AccountNamesSpec(rows);
    assert g in names;
    var t :| 0 <= t < |names| && names[t] == g;
    GroupedAt(rows, t);
  }

  /**
   * `custom` reports the error exactly when no two stored accounts share an
   * account name, the empty store included.
   */
  lemma CustomMenuErrors(rows: seq<CustomAccount>)
    ensures CustomMenu(rows).Err? <==> forall i, j :: 0 <= i < j < |rows| ==> rows[i].account != rows[j].account
    ensures CustomMenu(rows).Err? ==> CustomMenu(rows).error == NoCustomAccounts
  {
    var gs := Grouped(rows);
    NoScreens(gs, MakeCustomOption, None);
    if forall i, j :: 0 <= i < j < |rows| ==> rows[i].account != rows[j].account {
      DistinctNamesNoLargeGroup(rows);
    } else {
      var i, j :| 0 <= i < j < |rows| && rows[i].account == rows[j].account;
      SharedNameLargeGroup(rows, i, j);
    }
  }

  /**
   * Each screen of the menu belongs to one group with two or more accounts:
   * it is named after the group, lists that group's accounts in store order,
   * and its deleting handler removes that same group.
   */
  lemma ScreenDeletesItsOwnGroup(rows: seq<CustomAccount>, j: nat)
    requires CustomMenu(rows).Ok? && j < |CustomMenu(rows).value.options|
    ensures exists g :: (g in AccountNames(rows) && |CustomTable.GroupAccounts(rows, g)| >= 2 &&
                         CustomMenu(rows).value.options[j] == GroupScreen(Group(g, CustomTable.GroupAccounts(rows, g)), MakeCustomOption, g))
  {
    var gs := Grouped(rows);
    assert CustomMenu(rows).value.options == Screens(gs, MakeCustomOption, None);
    ScreenOfGroup(gs, MakeCustomOption, None, j);
    var t :| 0 <= t < |gs| && IsLarge(gs[t]) &&
      Screens(gs, MakeCustomOption, None)[j] == GroupScreen(gs[t], MakeCustomOption, Deleted(None, gs[t]));
    GroupedAt(rows, t);
    var g := gs[t].account;
    assert gs[t] == Group(g, CustomTable.GroupAccounts(rows, g));
  }

  /**
   * `custom` as written: `deleting_handler` reads the loop variable `key`
   * when it runs, after the loop, so every screen deletes the group of the
   * last key of `accounts_map`, a skipped group included.
   */
  function CustomAsWritten(rows: seq<CustomAccount>): (r: Result<MenuCall, string>)
    ensures rows == [] ==> r == Err(NoCustomAccounts)
    ensures r.Err? ==> r.error == NoCustomAccounts
    ensures r.Ok? ==> r.value.description == Some(CustomMenuDescription) && r.value.options != []
    ensures r.Ok? ==> forall j :: 0 <= j < |r.value.options| ==>
      r.value.options[j].deletingHandler == Some(DeleteAccountGroup(Grouped(rows)[|Grouped(rows)| - 1].account))
  {
    var gs := Grouped(rows);
    if rows == [] || gs == [] then Err(NoCustomAccounts)
    else
      var screens := Screens(gs, MakeCustomOption, Some(gs[|gs| - 1].account));
      if screens == [] then Err(NoCustomAccounts) else Ok(MenuCall(screens, Some(CustomMenuDescription)))
  }

  const TwitterKey: string := "twitter"
  const DiscordKey: string := "discord"
  const TwitterTitle: string := "Twitter"

  /** Two Twitter accounts, then one Discord account (the credentials play no part). */
  function LateBindingExample(): seq<CustomAccount>
  {
    [CustomAccount(TwitterKey, "", "", "", true, []),
     CustomAccount(TwitterKey, "", "", "", false, []),
     CustomAccount(DiscordKey, "", "", "", true, [])]
  }

  lemma LateBindingExampleNames(rows: seq<CustomAccount>)
    requires rows == LateBindingExample()
    ensures AccountNames(rows) == [TwitterKey, DiscordKey]
  {
    PairThenOther(rows);
  }

  /** Two accounts of one name, then one of another: two keys, in that order. */
  lemma PairThenOther(rows: seq<CustomAccount>)
    requires |rows| == 3 && rows[0].account == rows[1].account && rows[1].account != rows[2].account
    ensures AccountNames(rows) == [rows[0].account, rows[2].account]
  {
    var x, y := rows[0].account, rows[2].account;
    var one, two := rows[..1], rows[..2];
    assert one == [] + [rows[0]] && two == one + [rows[1]] && rows == two + [rows[2]];
    AccountNamesSnoc([], rows[0]);
    assert AccountNames(one) == [x];
    AccountNamesSnoc(one, rows[1]);
    assert AccountNames(two) == [x];
    AccountNamesSnoc(two, rows[2]);
    assert y !in [x];
  }

  /** Two accounts of one name, then one of another: the first two form one group, the last its own. */
  lemma PairThenOtherGroups(rows: seq<CustomAccount>)
    requires |rows| == 3 && rows[0].account == rows[1].account && rows[1].account != rows[2].account
    ensures CustomTable.GroupAccounts(rows, rows[0].account) == rows[..2]
    ensures CustomTable.GroupAccounts(rows, rows[2].account) == rows[2..]
  {
    var g, h := rows[0].account, rows[2].account;
    var one, two := rows[..1], rows[..2];
    assert one == [] + [rows[0]] && two == one + [rows[1]] && rows == two + [rows[2]];
    GroupSnoc([], rows[0], g);
    GroupSnoc(one, rows[1], g);
    GroupSnoc(two, rows[2], g);
    GroupSnoc([], rows[0], h);
    GroupSnoc(one, rows[1], h);
    GroupSnoc(two, rows[2], h);
    EmptyGroup([], g);
    EmptyGroup([], h);
    assert rows[2..] == [rows[2]];
  }

  lemma LateBindingExampleGroups(rows: seq<CustomAccount>)
    requires rows == LateBindingExample()
    ensures Grouped(rows) == [Group(TwitterKey, rows[..2]), Group(DiscordKey, rows[2..])]
  {
    LateBindingExampleNames(rows);
    PairThenOtherGroups(rows);
  }

  /** A large group followed by a small one yields the large group's screen alone. */
  lemma LargeThenSmall(gs: seq<Group>, optionFor: CustomAccount -> MenuOption, bound: Option<string>)
    requires |gs| == 2 && IsLarge(gs[0]) && !IsLarge(gs[1])
    ensures Screens(gs, optionFor, bound) == [GroupScreen(gs[0], optionFor, Deleted(bound, gs[0]))]
  {
    ScreensStep(gs, optionFor, bound, 0);
    ScreensStep(gs, optionFor, bound, 1);
    assert gs[..0] == [] && gs[..2] == gs;
  }

  lemma LateBindingExampleScreens(rows: seq<CustomAccount>, optionFor: CustomAccount -> MenuOption, bound: Option<string>)
    requires rows == LateBindingExample()
    ensures var gs := Grouped(rows);
      |gs| == 2 && gs[0].account == TwitterKey && gs[1].account == DiscordKey &&
      Screens(gs, optionFor, bound) == [GroupScreen(gs[0], optionFor, Deleted(bound, gs[0]))]
  {
    LateBindingExampleGroups(rows);
    LargeThenSmall(Grouped(rows), optionFor, bound);
  }

  lemma CapitalizeTwitter()
    ensures Capitalize(TwitterKey) == TwitterTitle
  {
    assert Lower("") == "";
    assert Lower("r") == "r";
    assert Lower("er") == "er";
    assert Lower("ter") == "ter";
    assert Lower("tter") == "tter";
    assert Lower("itter") == "itter";
    assert Lower("witter") == "witter";
  }

  /**
   * On that example the only screen is Twitter's, and deleting it deletes
   * the Discord account, which has no screen, instead of the Twitter ones.
   */
  lemma LateBoundGroupDelete(rows: seq<CustomAccount>)
    requires rows == LateBindingExample()
    ensures var r := CustomAsWritten(rows);
      r.Ok? && |r.value.options| == 1 && r.value.options[0].name == TwitterTitle &&
      r.value.options[0].deletingHandler == Some(DeleteAccountGroup(DiscordKey))
  {
    LateBoundGroupDeleteMenu(rows);
    CapitalizeTwitter();
  }

  /** The menu of the example holds the Twitter group's screen alone. */
  lemma LateBoundGroupDeleteMenu(rows: seq<CustomAccount>)
    requires rows == LateBindingExample()
    ensures Grouped(rows) != [] && Grouped(rows)[0].account == TwitterKey
    ensures CustomAsWritten(rows) == Ok(MenuCall([GroupScreen(Grouped(rows)[0], MakeCustomOption, DiscordKey)], Some(CustomMenuDescription)))
  {
    LateBindingExampleScreens(rows, MakeCustomOption, Some(DiscordKey));
  }

  /** With each handler bound to its own group, the Twitter screen deletes the Twitter accounts. */
  lemma OwnGroupDelete(rows: seq<CustomAccount>)
    requires rows == LateBindingExample()
    ensures var r := CustomMenu(rows);
      r.Ok? && |r.value.options| == 1 && r.value.options[0].name == TwitterTitle &&
      r.value.options[0].deletingHandler == Some(DeleteAccountGroup(TwitterKey))
  {
    OwnGroupDeleteMenu(rows);
    CapitalizeTwitter();
  }

  /** The menu of the example holds the Twitter group's screen alone. */
  lemma OwnGroupDeleteMenu(rows: seq<CustomAccount>)
    requires rows == LateBindingExample()
    ensures Grouped(rows) != [] && Grouped(rows)[0].account == TwitterKey
    ensures CustomMenu(rows) == Ok(MenuCall([GroupScreen(Grouped(rows)[0], MakeCustomOption, TwitterKey)], Some(CustomMenuDescription)))
  {
    LateBindingExampleScreens(rows, MakeCustomOption, None);
  }

  /** One more group extends the screens by that group's screen, if it has two or more accounts. */
  lemma ScreensStep(gs: seq<Group>, optionFor: CustomAccount -> MenuOption, bound: Option<string>, i: nat)
    requires i < |gs|
    ensures Screens(gs[..i + 1], optionFor, bound) == Screens(gs[..i], optionFor, bound) +
      (if IsLarge(gs[i]) then [GroupScreen(gs[i], optionFor, Deleted(bound, gs[i]))] else [])
  {
    assert gs[..i + 1][..i] == gs[..i];
  }

  /** The `custom` command: group the stored accounts, then build one screen per group of two or more. */
  method Custom(rows: seq<CustomAccount>) returns (r: Result<MenuCall, string>)
    ensures r == CustomMenu(rows)
  {
    if |rows| == 0 {
      return Err(NoCustomAccounts);
    }
    var screens := CustomScreens(rows);
    CustomMenuOfScreens(rows, screens);
    if |screens| == 0 {
      return Err(NoCustomAccounts);
    }
    r := Ok(MenuCall(screens, Some(CustomMenuDescription)));
  }

  /** The two loops of `custom`: build `accounts_map`, then one screen per key with two or more accounts. */
  method CustomScreens(rows: seq<CustomAccount>) returns (screens: seq<MenuOption>)
    ensures screens == Screens(Grouped(rows), MakeCustomOption, None)
  {
    var order, groups := GroupByAccount(rows);
    ghost var gs := Grouped(rows);
    screens := [];
    var i := 0;
    while i < |order|
      invariant 0 <= i <= |order| == |gs|
      invariant screens == Screens(gs[..i], MakeCustomOption, None)
    {
      var key := order[i];
      var value := groups[key];
      GroupedAt(rows, i);
      ScreensStep(gs, MakeCustomOption, None, i);
      if |value| >= 2 {
        screens := screens + [GroupScreen(Group(key, value), MakeCustomOption, key)];
      }
      i := i + 1;
    }
    assert gs[..i] == gs;
  }

  /** The menu of a non-empty store, from its screens. */
  lemma CustomMenuOfScreens(rows: seq<CustomAccount>, screens: seq<MenuOption>)
    requires rows != [] && screens == Screens(Grouped(rows), MakeCustomOption, None)
    ensures CustomMenu(rows) == if screens == [] then Err(NoCustomAccounts) else Ok(MenuCall(screens, Some(CustomMenuDescription)))
  {
  }
}
