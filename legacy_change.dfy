/**
 * The older `change` commands of `cli/change.py`. They build the same menus
 * as `cli/_change.py` (module `Change`), but their deleting handlers only
 * delete: no replacement is promoted when the current record goes.
 */
module LegacyChange {
  import opened Wrappers
  import opened PyStr
  import opened Records
  import opened Counting
  import opened OptionModel
  import opened Menu
  import WalletTable
  import CustomTable
  import Change

  /** `_make_wallet_option`: as in `Change`, except that the deleting handler only deletes. */
  function MakeWalletOption(w: Wallet): (o: MenuOption)
    ensures o.description == Some(w.publicKey)
    ensures o.handler == SetWallet(w.privateKey, if w.current then Some(o.name) else w.walletLabel)
    ensures o.deletingHandler == Some(DeleteWallet(w.privateKey))
    ensures w.current ==> o.name == Format(w.walletLabel) + " (Current)"
    ensures !w.current ==> o.name == Format(w.walletLabel)
  {
    var name := Change.CurrentLabel(Format(w.walletLabel), w.current);
    MenuOption(name, SetWallet(w.privateKey, if w.current then Some(name) else w.walletLabel),
               Some(w.publicKey), Some(DeleteWallet(w.privateKey)))
  }

  /** `_make_custom_option`: as in `Change`, except that the deleting handler only deletes. */
  function MakeCustomOption(a: CustomAccount): (o: MenuOption)
    ensures o.description == None
    ensures o.handler == SetCustomAccount(a)
    ensures o.deletingHandler == Some(DeleteCustomAccount(a.account, a.email))
    ensures a.current ==> o.name == a.email + " (Current)"
    ensures !a.current ==> o.name == a.email
  {
    MenuOption(Change.CurrentLabel(a.email, a.current), SetCustomAccount(a), None,
               Some(DeleteCustomAccount(a.account, a.email)))
  }

  /** The two versions of each option differ in the deleting handler alone. */
  lemma OptionsDifferInDeletion(w: Wallet, a: CustomAccount)
    ensures MakeWalletOption(w) == Change.MakeWalletOption(w).(deletingHandler := Some(DeleteWallet(w.privateKey)))
    ensures MakeCustomOption(a) == Change.MakeCustomOption(a).(deletingHandler := Some(DeleteCustomAccount(a.account, a.email)))
  {
  }

  /**
   * Deleting the current wallet through its option leaves no wallet current,
   * where `cli/_change.py` promotes the last one.
   */
  lemma DeletingCurrentWalletOption(rows: seq<Wallet>, k: nat, publicKeyOf: string -> Option<string>)
    requires WalletTable.UniqueKeys(rows) && k < |rows| && 2 <= |rows|
    requires forall i :: 0 <= i < |rows| ==> (rows[i].current <==> i == k)
    ensures var rest := WalletTable.DeleteWallet(rows, MakeWalletOption(rows[k]).deletingHandler.value.privateKey);
      rest != [] && WalletTable.CountCurrent(rest) == 0 && !WalletTable.CurrentRule(rest)
    ensures var d := Change.MakeWalletOption(rows[k]).deletingHandler.value;
      WalletTable.CurrentRule(WalletTable.DeleteWalletAndPromote(rows, d.privateKey, publicKeyOf).rows)
  {
    var pk := rows[k].privateKey;
    WalletTable.DeleteWithoutPromotionLosesCurrent(rows, k);
    var other := if k == 0 then 1 else 0;
    assert rows[other].privateKey != pk;
    var rest := WalletTable.DeleteWallet(rows, pk);
    assert rows[other] in rest;
    assert WalletTable.CurrentRule(rows) by {
      CountOnly(rows, k, WalletTable.IsCurrent);
    }
    WalletTable.DeleteWalletAndPromoteKeepsRule(rows, pk, publicKeyOf);
  }

  /**
   * `_wallet`: the same menu, message and crash as in `Change`, over the older
   * options; `show_key_mode(options, description)` is taken to be
   * `KeyMode(options, description)()`.
   */
  function WalletMenu(tableExists: bool, rows: seq<Wallet>, sortWallets: seq<Wallet> -> seq<Wallet>): (r: Result<Change.MenuCall, Change.WalletMenuError>)
    ensures r == Err(Change.Echoed(Change.NoWallets)) <==> !tableExists || |rows| < 2
    ensures r == Err(Change.NameIsNone) <==>
      tableExists && 2 <= |rows| && exists i :: 0 <= i < |sortWallets(rows)| && Change.Unnamed(sortWallets(rows)[i])
    ensures r.Ok? ==> r.value.description == Some(Change.WalletMenuDescription)
    ensures r.Ok? ==> |r.value.options| == |sortWallets(rows)|
    ensures r.Ok? ==> forall i :: 0 <= i < |sortWallets(rows)| ==> r.value.options[i] == MakeWalletOption(sortWallets(rows)[i])
  {
    var wallets := if tableExists then rows else [];
    if |wallets| < 2 then Err(Change.Echoed(Change.NoWallets))
    else
      var sorted := sortWallets(wallets);
      if exists i :: 0 <= i < |sorted| && Change.Unnamed(sorted[i]) then Err(Change.NameIsNone)
      else
        Ok(Change.MenuCall(seq(|sorted|, i requires 0 <= i < |sorted| => MakeWalletOption(sorted[i])),
                           Some(Change.WalletMenuDescription)))
  }

  /** `custom` with each group-delete handler bound to its own group (see `CustomAsWritten`). */
  function CustomMenu(rows: seq<CustomAccount>): (r: Result<Change.MenuCall, string>)
    ensures rows == [] ==> r == Err(Change.NoCustomAccounts)
    ensures r.Err? ==> r.error == Change.NoCustomAccounts
    ensures r.Ok? ==> r.value.description == Some(Change.CustomMenuDescription) && r.value.options != []
    ensures r.Ok? ==> forall j :: 0 <= j < |r.value.options| ==>
      r.value.options[j].handler.RunScreen? && r.value.options[j].deletingHandler.Some?
  {
    if rows == [] then Err(Change.NoCustomAccounts)
    else
      var screens := Change.Screens(Change.Grouped(rows), MakeCustomOption, None);
      if screens == [] then Err(Change.NoCustomAccounts) else Ok(Change.MenuCall(screens, Some(Change.CustomMenuDescription)))
  }

  /**
   * Both versions of `custom` show a menu for the same stores, with the same
   * screens in the same order, and report the same error otherwise.
   */
  lemma SameScreensAsChange(rows: seq<CustomAccount>)
    ensures CustomMenu(rows).Err? <==> Change.CustomMenu(rows).Err?
    ensures CustomMenu(rows).Err? ==> CustomMenu(rows).error == Change.NoCustomAccounts
    ensures CustomMenu(rows).Ok? ==> |CustomMenu(rows).value.options| == |Change.CustomMenu(rows).value.options|
    ensures CustomMenu(rows).Ok? ==> forall j :: 0 <= j < |CustomMenu(rows).value.options| ==>
      CustomMenu(rows).value.options[j].name == Change.CustomMenu(rows).value.options[j].name &&
      CustomMenu(rows).value.options[j].deletingHandler == Change.CustomMenu(rows).value.options[j].deletingHandler
  {
    var gs := Change.Grouped(rows);
    Change.NoScreens(gs, MakeCustomOption, None);
    Change.NoScreens(gs, Change.MakeCustomOption, None);
    Change.ScreensOfLargeGroups(gs, MakeCustomOption, None);
    Change.ScreensOfLargeGroups(gs, Change.MakeCustomOption, None);
  }

  /** `custom` as written: every group-delete handler removes the group of the last key of `accounts_map`. */
  function CustomAsWritten(rows: seq<CustomAccount>): (r: Result<Change.MenuCall, string>)
    ensures rows == [] ==> r == Err(Change.NoCustomAccounts)
    ensures r.Err? ==> r.error == Change.NoCustomAccounts
    ensures r.Ok? ==> r.value.description == Some(Change.CustomMenuDescription) && r.value.options != []
    ensures r.Ok? ==> forall j :: 0 <= j < |r.value.options| ==>
      r.value.options[j].deletingHandler == Some(DeleteAccountGroup(Change.Grouped(rows)[|Change.Grouped(rows)| - 1].account))
  {
    var gs := Change.Grouped(rows);
    if rows == [] || gs == [] then Err(Change.NoCustomAccounts)
    else
      var screens := Change.Screens(gs, MakeCustomOption, Some(gs[|gs| - 1].account));
      if screens == [] then Err(Change.NoCustomAccounts) else Ok(Change.MenuCall(screens, Some(Change.CustomMenuDescription)))
  }

  /** Two Twitter accounts, then one Discord account: the Twitter screen's handler deletes the Discord account. */
  lemma LateBoundGroupDelete(rows: seq<CustomAccount>)
    requires rows == Change.LateBindingExample()
    ensures var r := CustomAsWritten(rows);
      r.Ok? && |r.value.options| == 1 && r.value.options[0].name == Change.TwitterTitle &&
      r.value.options[0].deletingHandler == Some(DeleteAccountGroup(Change.DiscordKey))
  {
    LateBoundGroupDeleteMenu(rows);
    Change.CapitalizeTwitter();
  }

  /** The menu of the example holds the Twitter group's screen alone. */
  lemma LateBoundGroupDeleteMenu(rows: seq<CustomAccount>)
    requires rows == Change.LateBindingExample()
    ensures Change.Grouped(rows) != [] && Change.Grouped(rows)[0].account == Change.TwitterKey
    ensures CustomAsWritten(rows) == Ok(Change.MenuCall([Change.GroupScreen(Change.Grouped(rows)[0], MakeCustomOption, Change.DiscordKey)], Some(Change.CustomMenuDescription)))
  {
    Change.LateBindingExampleScreens(rows, MakeCustomOption, Some(Change.DiscordKey));
  }

  /** With each handler bound to its own group, the Twitter screen deletes the Twitter accounts. */
  lemma OwnGroupDelete(rows: seq<CustomAccount>)
    requires rows == Change.LateBindingExample()
    ensures var r := CustomMenu(rows);
      r.Ok? && |r.value.options| == 1 && r.value.options[0].name == Change.TwitterTitle &&
      r.value.options[0].deletingHandler == Some(DeleteAccountGroup(Change.TwitterKey))
  {
    OwnGroupDeleteMenu(rows);
    Change.CapitalizeTwitter();
  }

  /** The menu of the example holds the Twitter group's screen alone. */
  lemma OwnGroupDeleteMenu(rows: seq<CustomAccount>)
    requires rows == Change.LateBindingExample()
    ensures Change.Grouped(rows) != [] && Change.Grouped(rows)[0].account == Change.TwitterKey
    ensures CustomMenu(rows) == Ok(Change.MenuCall([Change.GroupScreen(Change.Grouped(rows)[0], MakeCustomOption, Change.TwitterKey)], Some(Change.CustomMenuDescription)))
  {
    Change.LateBindingExampleScreens(rows, MakeCustomOption, None);
  }

  /** The `custom` command of `cli/change.py`. */
  method Custom(rows: seq<CustomAccount>) returns (r: Result<Change.MenuCall, string>)
    ensures r == CustomMenu(rows)
  {
    if |rows| == 0 {
      return Err(Change.NoCustomAccounts);
    }
    var screens := CustomScreens(rows);
    CustomMenuOfScreens(rows, screens);
    if |screens| == 0 {
      return Err(Change.NoCustomAccounts);
    }
    r := Ok(Change.MenuCall(screens, Some(Change.CustomMenuDescription)));
  }

  /** The two loops of the older `custom`: build `accounts_map`, then one screen per key with two or more accounts. */
  method CustomScreens(rows: seq<CustomAccount>) returns (screens: seq<MenuOption>)
    ensures screens == Change.Screens(Change.Grouped(rows), MakeCustomOption, None)
  {
    var order, groups := Change.GroupByAccount(rows);
    ghost var gs := Change.Grouped(rows);
    screens := [];
    var i := 0;
    while i < |order|
      invariant 0 <= i <= |order| == |gs|
      invariant screens == Change.Screens(gs[..i], MakeCustomOption, None)
    {
      var key := order[i];
      var value := groups[key];
      Change.GroupedAt(rows, i);
      Change.ScreensStep(gs, MakeCustomOption, None, i);
      if |value| >= 2 {
        screens := screens + [Change.GroupScreen(Change.Group(key, value), MakeCustomOption, key)];
      }
      i := i + 1;
    }
    assert gs[..i] == gs;
  }

  /** The older menu of a non-empty store, from its screens. */
  lemma CustomMenuOfScreens(rows: seq<CustomAccount>, screens: seq<MenuOption>)
    requires rows != [] && screens == Change.Screens(Change.Grouped(rows), MakeCustomOption, None)
    ensures CustomMenu(rows) ==
      if screens == [] then Err(Change.NoCustomAccounts) else Ok(Change.MenuCall(screens, Some(Change.CustomMenuDescription)))
  {
  }
}
