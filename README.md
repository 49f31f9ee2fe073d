# croco-cli core, modelled in Dafny

croco-cli is a command-line tool. It keeps a developer's test credentials in a local store: Ethereum wallets, a GitHub account, custom accounts grouped by service, and environment variables. It lets the developer pick the current ones from keyboard-driven menus. This project models the logic of that tool and proves what it promises:

- **Menu engine.** `KeyMode` and its `Option` entries. The cursor moves over a copy of the caller's options plus a final `Exit` entry. Up and Down wrap around. Delete runs an entry's deleting handler and removes the entry. Enter selects an entry. Column widths are fixed before the first key.
- **Current-wallet rule.** `set_wallet` in `database.py`, and the deleting handlers of `cli/_change.py` that promote the last remaining wallet or account. The older `cli/change.py` only deletes.
- **Menus of `change wallet` and `change custom`.** This includes the grouping of custom accounts by service name.
- **Configuration files.** The order in which `import` writes a configuration file, the shape `export` gives one, and the lines `make dotenv` writes.
- **Display helpers.** `croco_echo.py` and `cli/user.py`: hidden values, display keys, and the password and cookie filter.
- **String helpers.** `snake_case`, and the `poetry add` command lines of both `install` commands.

How the model is organised:

- **Store.** Each store table is a sequence of records. `Store.Database` holds these tables as fields, and its methods change them in place. The table rules are pure functions in `WalletTable` and `CustomTable`, so lemmas can state the rules those tables keep.
- **Handlers.** A menu handler is a `Command` value. `Store.Database.Perform` runs it against the store.
- **Keys.** A key press is a `Key`, and the menu loop takes a key sequence.
- **Screens and files.** Text shown on screen or written to a file is a sequence of lines.

## Model

| member | source | states |
|---|---|---|
| OptionModel.NewOption | croco_cli/tools/option.py:9-23 | an `Option` built from a name and a handler has no description and the truthy no-op deleting handler |
| OptionModel.Get | croco_cli/tools/option.py:25-32 | `get` raises exactly for a name that is not an attribute of the option; otherwise the result is the attribute when truthy, else the default |
| OptionModel.DeletingHandler | croco_cli/tools/option.py:23 | the deleting handler the engine reads is the option's own one, when it has one |
| OptionModel.DescriptionLength | croco_cli/tools/keymode.py:58-59 | `len(option.get('description', []))` is the description's length when truthy, else 0 |
| OptionModel.DescriptionDefaultsToNone | croco_cli/tools/option.py:22 | an option built without a description yields the default from `get('description', default)` |
| OptionModel.DefaultOptionIsDeletable | croco_cli/tools/option.py:23 | the default deleting handler is a callable, hence truthy, so the engine can delete such an option |
| OptionModel.FalsyFieldYieldsDefault | croco_cli/tools/option.py:32 | a `None` or empty description yields the default |
| OptionModel.UnknownAttributeRaises | croco_cli/tools/option.py:32 | `get` on a name that is not an attribute of the option raises `AttributeError` instead of returning the default |
| OptionModel.OtherAttributeReturned | croco_cli/tools/option.py:32 | a method or other non-field attribute of the instance is truthy, so `get` returns it rather than the default |
| OptionModel.GetOfGetIsMethod | croco_cli/tools/option.py:25-32 | `option.get('get')` returns the bound method itself |
| OptionModel.WeakRefYieldsDefault | croco_cli/tools/option.py:32 | `__weakref__` reads as `None`, so `get` returns the default |
| Menu.Start | croco_cli/tools/keymode.py:42-52 | the engine's list is the caller's options followed by `Exit`, and the cursor starts at 0 on an entry |
| Menu.Step | croco_cli/tools/keymode.py:89-116 | a key either moves the cursor and keeps it on an entry with the list unchanged; or removes one entry with more than one left; or ends the run when at most one would be left |
| Menu.MaxOf | croco_cli/tools/keymode.py:53 | Python's `max`: at least every element, and equal to one of them |
| Menu.NameLengths | croco_cli/tools/keymode.py:53 | the name length of every option, in order |
| Menu.DescriptionLengths | croco_cli/tools/keymode.py:59 | the description length of every option, in order |
| Menu.NameColumnFits | croco_cli/tools/keymode.py:53 | every name plus two spaces fits the name column, and the longest name fills it exactly |
| Menu.DescriptionColumnAllOrNothing | croco_cli/tools/keymode.py:55-66 | the description column exists if and only if every option has a truthy description; then every description fits it with two spaces to spare |
| Menu.DescriptionColumn | croco_cli/tools/keymode.py:55-66 | the loop with its early `break` computes exactly the description width of the layout |
| Menu.ScreenRowsAligned | croco_cli/tools/keymode.py:75-87 | on every later screen, with the layout fixed at the start, all rows have one width and only the cursor's row starts with `> ` |
| Menu.UpWraps | croco_cli/tools/keymode.py:92-96 | Up from the first entry goes to the last; otherwise it moves one up, with the list unchanged |
| Menu.DownWraps | croco_cli/tools/keymode.py:97-101 | Down from the last entry goes to the first; otherwise it moves one down, with the list unchanged |
| Menu.OtherKeysIgnored | croco_cli/tools/keymode.py:89-116 | a key that is not Up, Down, a deletion or Enter changes neither the cursor nor the list |
| Menu.DeleteWithoutHandlerIgnored | croco_cli/tools/keymode.py:102-103 | deleting an entry whose deleting handler is falsy changes nothing |
| Menu.DeleteRemovesHighlighted | croco_cli/tools/keymode.py:102-113 | deleting an entry with a truthy handler invokes that handler once and removes exactly that entry; with more than one entry left the cursor becomes `cursor - 1`, or 1 from the top; otherwise the run ends |
| Menu.DeleteToEmptyTerminates | croco_cli/tools/keymode.py:107-113 | with one entry plus Exit, a deletion ends the run with nothing selected, after invoking the one handler |
| Menu.EnterSelectsHighlighted | croco_cli/tools/keymode.py:114-118 | Enter (`'\n'` or `KEY_ENTER`) ends the run with the highlighted entry selected and no further handler invoked |
| Menu.ExitIsDeletable | croco_cli/tools/keymode.py:44-48 | `Exit` is built without a deleting handler, so it keeps the truthy default and can be deleted |
| Menu.RunKeepsInvariant | croco_cli/tools/keymode.py:69-116 | over any key sequence: while the run goes on, the cursor stays on an entry and every entry comes from the starting list; each deleting handler invoked accounts for exactly one entry removed |
| Menu.StartRunInBounds | croco_cli/tools/keymode.py:42-116 | a run from the start keeps the cursor in bounds and only ever shows the caller's options and `Exit` |
| Menu.ScreenOption | croco_cli/tools/keymode.py:120-147 | a screen option is named by the label and has no description; its handler runs a nested menu over the given options and description; its deleting handler is the given one, so it is deletable exactly when one is given |
| Menu.ScreensHideDescriptions | croco_cli/tools/keymode.py:55-62 | a menu made of screen options never shows the description column |
| Menu.KeyMode.constructor | croco_cli/tools/keymode.py:11-26 | the engine keeps the caller's options and description |
| Menu.KeyMode.Call | croco_cli/tools/keymode.py:38-118 | the imperative loop over a copy of the options produces exactly the run of the key sequence from the start state, and the layout computed before it; the engine's own fields, hence the caller's list, are left unchanged |
| Menu.LayoutOf | croco_cli/tools/keymode.py:53-66 | every name plus two fits the name column, and there is a description column exactly when every option has a truthy description |
| Menu.Screen | croco_cli/tools/keymode.py:70-87 | one line per option, after the description line when the description is truthy |
| Menu.RunFrom | croco_cli/tools/keymode.py:69-118 | a run that goes on keeps the state valid, and only appends to the handlers already invoked, at most one per key |
| PyStr.Lower | croco_cli/utils.py:17 | `str.lower()` maps each ASCII character to its lower-case form and keeps the length |
| PyStr.Capitalize | croco_cli/cli/_change.py:146 | `str.capitalize()`: first character upper case, the rest lower case, same length |
| PyStr.LJust | croco_cli/tools/keymode.py:76 | `ljust` pads on the right up to the width and never truncates |
| PyStr.Prefix | croco_cli/cli/user.py:46 | `value[:n]` is a prefix of length `min(n, len)` |
| PyStr.NegSuffix | croco_cli/cli/user.py:46 | `value[-n:]` is the last `n` characters, or the whole value when `n` is 0 or at least the length |
| Store.PrimaryEmail | croco_cli/database.py:113-116 | the loop's result is the address of the first primary e-mail; there is none exactly when no e-mail is primary |
| Store.WithEnvar | croco_cli/cli/_import.py:50 | `set_envar` keeps the length for a stored key and appends a new key, and afterwards the table holds the new entry |
| Store.WithNewEnvar | croco_cli/cli/_import.py:50 | a key not yet stored is appended with its value |
| Store.Database.constructor | croco_cli/database.py:21-47 | a fresh store has empty tables and neither the wallet nor the GitHub table exists yet |
| Store.Database.GetWallets | croco_cli/database.py:62-77 | every wallet row, in query order with its fields copied; an error when the table does not exist |
| Store.Database.GetGithubUser | croco_cli/database.py:79-93 | the first GitHub row, or `None` when the table is empty |
| Store.Database.SetGithubUser | croco_cli/database.py:95-126 | previous rows are deleted first; on success the table holds exactly one row, with the token and the first primary e-mail; without a primary e-mail it fails after the table has been created, so the table exists and is empty; other tables are untouched |
| Store.Database.SetWallet | croco_cli/database.py:139-172 | creates the wallet table and changes it as the wallet rule says; other tables are untouched |
| Store.Database.SetEnvar | croco_cli/cli/_import.py:50 | the variable table changes as `set_envar` says; other tables are untouched |
| Store.Database.Perform | croco_cli/cli/_change.py:21-88 | running a handler changes only the table it targets, as that table's rule says, and the other handlers leave the store alone; only the wallet deletions need the wallet table, and only `set_wallet` creates it |
| WalletTable.Demoted | croco_cli/database.py:153-158 | the current wallet is demoted only when exactly one is current; nothing else changes |
| WalletTable.IndexOfKey | croco_cli/database.py:151 | finds a row with the private key, or reports that no row has it |
| WalletTable.DemotedKeepsKeys | croco_cli/database.py:153-158 | demotion changes no key, so the keys stay unique |
| WalletTable.DemotedHasNoCurrent | croco_cli/database.py:153-158 | from at most one current wallet, demotion leaves none current |
| WalletTable.UniqueKeyCount | croco_cli/database.py:36-37 | with unique key columns, at most one row matches a private key |
| WalletTable.SetWalletPromotesExisting | croco_cli/database.py:151-164 | a stored private key: that row becomes current, keeping its label and public key; nothing is inserted; every other row is as demotion left it |
| WalletTable.SetWalletInsertsNew | croco_cli/database.py:165-172 | a new private key: exactly one row is appended, current, with the derived public key and the given label |
| WalletTable.SetWalletMakesSoleCurrent | croco_cli/database.py:153-164 | from at most one current wallet, a successful call leaves exactly one current wallet, the one with the given key, and the keys unique |
| WalletTable.SetWalletKeepsSeveralCurrent | croco_cli/database.py:154 | with two or more current wallets beforehand, none is demoted |
| WalletTable.SetWalletFrame | croco_cli/database.py:149-172 | rows other than the previously current one and the target are left unchanged, and at most one row is added |
| WalletTable.SetWalletErrorKeepsDemotion | croco_cli/database.py:153-172 | an error raised after the demotion (an invalid key, or a public key already stored) leaves the demotion saved |
| WalletTable.RejectedKeyLeavesNoCurrent | croco_cli/database.py:153-166 | so a rejected private key leaves a one-wallet table with no current wallet |
| WalletTable.DeleteWallet | croco_cli/cli/_change.py:25 | deleting by private key removes every row with that key and keeps every other row, so exactly the rows without the key remain |
| WalletTable.DeleteWalletAndPromoteKeepsRule | croco_cli/cli/_change.py:24-45 | deleting with promotion keeps an empty table or exactly one current wallet; when the current wallet was deleted, the last remaining one becomes current and nothing else changes |
| WalletTable.DeleteWithoutPromotionLosesCurrent | croco_cli/cli/change.py:19-20 | the older handler only deletes, so removing the sole current wallet leaves none current |
| WalletTable.DeleteFirstOfThree | croco_cli/cli/_change.py:25 | deleting the first of three wallets leaves the other two, in order |
| WalletTable.PromotesMostRecent | croco_cli/cli/_change.py:26-43 | deleting the current first wallet of three promotes the last one, `get_wallets()[-1]` |
| WalletTable.ApplyOpsKeepsRule | croco_cli/database.py:139-172 | any run of upserts and promoting deletes that raises nothing keeps unique keys and an empty table or exactly one current wallet |
| WalletTable.ApplyOpsSnoc | croco_cli/cli/_import.py:29-35 | a run of store calls stops at the first one that raises, and otherwise the last call runs on the table the others left |
| WalletTable.SetWallet | croco_cli/database.py:139-172 | at most one row is added; an error leaves the demoted table, and an invalid key is one the key derivation rejects; on success some row holds the key and is current |
| WalletTable.DeleteWalletSnoc | croco_cli/cli/_change.py:25-30 | deletion keeps order: a row appended to the table stays last when kept, so `get_wallets()[-1]` is the last surviving row |
| WalletTable.DeleteAbsentWallet | croco_cli/cli/_change.py:25 | deleting a key no row holds leaves the table as it was |
| WalletTable.PromoteLast | croco_cli/cli/_change.py:26-45 | an empty table, or one with a current wallet, is left as it is; otherwise the rows keep their number and their keys |
| WalletTable.DeleteWalletAndPromote | croco_cli/cli/_change.py:24-45 | the deleting handler leaves exactly the rows without the key, and none of them holds it |
| WalletTable.ApplyOps | croco_cli/cli/_import.py:27-35 | a run of store calls adds at most one row per call |
| CustomTable.DemotedIn | croco_cli/cli/_change.py:67 | setting an account demotes its group's current account only when it is the group's only one; other rows are unchanged |
| CustomTable.IndexOfAccount | croco_cli/cli/_change.py:67 | finds the row with the account's group and e-mail, or reports that there is none |
| CustomTable.DeleteAccountGroup | croco_cli/cli/change.py:100-102 | the group delete leaves no account of that group |
| CustomTable.DemotedInKeepsOthers | croco_cli/cli/_change.py:67 | demotion within a group leaves every other group's rows as they were |
| CustomTable.UniqueAccountCount | croco_cli/cli/_change.py:70 | with unique (account, e-mail) pairs, at most one row matches a pair |
| CustomTable.SetCustomAccountScoped | croco_cli/cli/_change.py:65-67 | setting an account changes only its own group: other rows keep their place and value, and a new row, if any, is the account made current |
| CustomTable.SetCustomAccountSoleCurrent | croco_cli/cli/_change.py:65-67 | from a group with at most one current account, setting an account leaves exactly one current account in its group, the one with that e-mail, and the pairs unique |
| CustomTable.DemotedNoneCurrent | croco_cli/cli/_change.py:67 | after the demotion the group has no current account and at most one row matches the pair |
| CustomTable.SetExistingSoleCurrent | croco_cli/cli/_change.py:67 | overwriting the stored row of the pair makes it the group's sole current account |
| CustomTable.SetNewSoleCurrent | croco_cli/cli/_change.py:67 | appending a new pair to a group with none current makes it the group's sole current account |
| CustomTable.DeleteCustomAccountAndPromoteScoped | croco_cli/cli/_change.py:69-88 | deleting an account with promotion keeps its group empty or with exactly one current account, and leaves every other group exactly as it was |
| CustomTable.SetCustomAccountKeepsOthers | croco_cli/cli/_change.py:65-67 | setting an account leaves the other groups' rows, in order, as they were |
| CustomTable.DeleteAccountGroupScoped | croco_cli/cli/change.py:100-102 | the group delete leaves every other group as it was |
| CustomTable.SetCustomAccount | croco_cli/cli/_change.py:65-67 | the stored rows then hold the account, current; a known (account, e-mail) pair adds no row, a new one adds exactly one; no row changes its pair |
| CustomTable.DeleteCustomAccount | croco_cli/cli/_change.py:70 | deleting a pair leaves exactly the rows of other pairs, every one of them kept |
| CustomTable.PromoteLastInGroup | croco_cli/cli/_change.py:72-88 | a group that is empty or has a current account is left as it is; otherwise the rows keep their number and their pairs |
| CustomTable.DeleteCustomAccountAndPromote | croco_cli/cli/_change.py:69-88 | the deleting handler leaves exactly the rows of other pairs, and the deleted pair is gone |
| CustomTable.DeleteCustomAccountSnoc | croco_cli/cli/_change.py:70 | deleting a pair keeps the surviving rows in their stored order: a row appended at the end stays last unless it holds the deleted pair |
| CustomTable.PromoteLastInGroupPicksLast | croco_cli/cli/_change.py:72-88 | when the group has rows but none is current, exactly the group's last stored row becomes current and every other row is unchanged |
| CustomTable.DeleteCustomAccountAndPromotePicksLast | croco_cli/cli/_change.py:69-88 | after the deletion, if the group still has rows and none is current, exactly its last remaining row becomes current and every other surviving row is unchanged |
| Change.MakeWalletOption | croco_cli/cli/_change.py:16-57 | the option is named by the label, plus ` (Current)` for the current wallet, and described by the public key; selecting it sets the wallet with the label read at call time (the decorated one for the current wallet); deleting it deletes and promotes |
| Change.SelectingWalletOption | croco_cli/cli/_change.py:21-22 | selecting a wallet's option makes it the only current wallet, inserts nothing and stores no decorated label |
| Change.DeletingWalletOption | croco_cli/cli/_change.py:24-45 | deleting through a wallet's option removes that wallet and keeps an empty table or exactly one current wallet |
| Change.MakeCustomOption | croco_cli/cli/_change.py:60-99 | the option is named by the e-mail, plus ` (Current)` when current, with no description; selecting it sets the account's fields; deleting it deletes by (account, e-mail) and promotes within the group |
| Change.SelectingCustomOption | croco_cli/cli/_change.py:65-67 | selecting an account's option makes it the sole current account of its group, inserts nothing and leaves the other groups unchanged |
| Change.WalletMenu | croco_cli/cli/_change.py:102-119 | the message is reported exactly when the table is missing or holds fewer than two wallets; otherwise the menu crashes exactly when a sorted wallet is unlabelled and not current (its option name is `None`), and is shown with the sorted wallets' options in order otherwise |
| Change.Names | croco_cli/cli/_change.py:133-134 | the service name of every stored account, in store order |
| Change.AccountNamesSpec | croco_cli/cli/_change.py:133-138 | the keys of `accounts_map` list no name twice and are exactly the stored accounts' names |
| Change.FirstAppearanceOrder | croco_cli/cli/_change.py:133-138 | groups come in order of first appearance: some account of an earlier group is stored before every account of a later one |
| Change.GroupedPartitions | croco_cli/cli/_change.py:133-141 | the grouping partitions the accounts: no group is empty, each holds only its own accounts, and every account is in its name's group |
| Change.EmptyGroup | croco_cli/cli/_change.py:133-138 | a name with no stored account has an empty group |
| Change.GroupSnoc | croco_cli/cli/_change.py:136 | one more account extends its own group only |
| Change.GroupByAccount | croco_cli/cli/_change.py:133-138 | the loop yields the key order of first appearance and, for each key, its accounts in store order |
| Change.GroupStep | croco_cli/cli/_change.py:134-138 | one pass of the loop: an account joins its group, or opens a new one at the end of the key order |
| Change.AccountNamesSnoc | croco_cli/cli/_change.py:138 | a new name is appended to the key order, and a known one changes nothing |
| Change.GroupScreen | croco_cli/cli/_change.py:145-158 | a group's screen is named by its capitalised key, has no description, opens the group's menu described `Change <Key> account`, and deletes the given group |
| Change.ScreensOfLargeGroups | croco_cli/cli/_change.py:140-158 | the screens are exactly those of the groups with two or more accounts, in group order |
| Change.NoScreens | croco_cli/cli/_change.py:140-162 | there is no screen exactly when no group has two or more accounts |
| Change.ScreenOfGroup | croco_cli/cli/_change.py:141-158 | each screen is that of a group with two or more accounts |
| Change.ScreensStep | croco_cli/cli/_change.py:141-158 | one more group extends the screens by its own screen when it has two or more accounts |
| Change.GroupedAt | croco_cli/cli/_change.py:133-141 | each group is a key of `accounts_map` holding every stored account of that name |
| Change.DistinctNamesCount | croco_cli/cli/_change.py:142 | with distinct names every group holds at most one account |
| Change.DistinctNamesNoLargeGroup | croco_cli/cli/_change.py:142-143 | with distinct names no group gets a screen |
| Change.SharedNameLargeGroup | croco_cli/cli/_change.py:142 | two accounts with one name give their group a screen |
| Change.CustomMenuErrors | croco_cli/cli/_change.py:128-162 | `custom` reports the error exactly when no two stored accounts share a name, the empty store included |
| Change.ScreenDeletesItsOwnGroup | croco_cli/cli/_change.py:140-158 | in the corrected menu each screen belongs to one group of two or more accounts, lists that group's accounts in store order, and its deleting handler removes that same group |
| Change.Custom | croco_cli/cli/_change.py:122-165 | the command's loops build exactly the corrected menu, with each group delete bound to its own group |
| Change.LateBindingExampleNames | croco_cli/cli/_change.py:133-138 | two Twitter accounts and then one Discord account give the keys Twitter, Discord |
| Change.PairThenOther | croco_cli/cli/_change.py:133-138 | two accounts of one name and then one of another give two keys, in that order |
| Change.PairThenOtherGroups | croco_cli/cli/_change.py:133-138 | the first two accounts form one group and the last forms its own |
| Change.LateBindingExampleGroups | croco_cli/cli/_change.py:133-141 | the example's groups are Twitter with two accounts and Discord with one |
| Change.LargeThenSmall | croco_cli/cli/_change.py:141-158 | a large group followed by a small one yields the large group's screen alone |
| Change.LateBindingExampleScreens | croco_cli/cli/_change.py:141-158 | the example's only screen is Twitter's |
| Change.CapitalizeTwitter | croco_cli/cli/_change.py:153 | the Twitter screen's title is the capitalised key |
| Change.LateBoundGroupDelete | croco_cli/cli/_change.py:148-149 | as written, the Twitter screen's handler deletes the Discord group, which has no screen |
| Change.LateBoundGroupDeleteMenu | croco_cli/cli/_change.py:140-165 | as written, the example's whole menu is the Twitter screen bound to delete Discord |
| Change.OwnGroupDelete | croco_cli/cli/_change.py:148-149 | corrected, the Twitter screen's handler deletes the Twitter accounts |
| Change.OwnGroupDeleteMenu | croco_cli/cli/_change.py:140-165 | corrected, the example's whole menu is the Twitter screen bound to delete Twitter |
| Change.ShownWalletNames | croco_cli/cli/_change.py:47-51 | a wallet shown in the menu has a label or is current, and its option is named by the label, plus ` (Current)` when current |
| Change.Grouped | croco_cli/cli/_change.py:133-138 | one group per key of `accounts_map`, and each group holds only accounts of its own name |
| Change.Screens | croco_cli/cli/_change.py:140-158 | at most one screen per group; each runs a nested menu, has no description, and deletes a whole group, the one bound when a binding is given |
| Change.CustomMenu | croco_cli/cli/_change.py:122-165 | no stored account gives the error; any error is that message; a menu is described `Change custom account` and lists screens that run nested menus and can be deleted |
| Change.CustomAsWritten | croco_cli/cli/_change.py:140-165 | as written, the same menu except that every screen deletes the last group's accounts |
| Change.CustomScreens | croco_cli/cli/_change.py:133-158 | the grouping loop and the screen loop build exactly the screens of the groups with two or more accounts, each deleting its own group |
| LegacyChange.MakeWalletOption | croco_cli/cli/change.py:12-32 | same name, description and select handler as the newer option; deleting only deletes the wallet |
| LegacyChange.MakeCustomOption | croco_cli/cli/change.py:35-55 | same name and select handler as the newer option; deleting only deletes the (account, e-mail) pair |
| LegacyChange.OptionsDifferInDeletion | croco_cli/cli/change.py:12-55 | the older options differ from the newer ones in the deleting handler alone |
| LegacyChange.DeletingCurrentWalletOption | croco_cli/cli/change.py:19-20 | deleting the current wallet through its option leaves the other wallets, none of them current |
| LegacyChange.WalletMenu | croco_cli/cli/change.py:58-72 | the same message, crash and option list as `Change.WalletMenu`, over the older options |
| LegacyChange.SameScreensAsChange | croco_cli/cli/change.py:75-117 | the older `custom` shows a menu for the same stores, with screens for the same groups in the same order, and reports the same error otherwise |
| LegacyChange.LateBoundGroupDelete | croco_cli/cli/change.py:100-102 | as written, the Twitter screen's handler deletes the Discord account |
| LegacyChange.LateBoundGroupDeleteMenu | croco_cli/cli/change.py:92-117 | as written, the example's whole menu is the Twitter screen bound to delete Discord |
| LegacyChange.OwnGroupDelete | croco_cli/cli/change.py:100-102 | corrected, the Twitter screen's handler deletes the Twitter accounts |
| LegacyChange.OwnGroupDeleteMenu | croco_cli/cli/change.py:92-117 | corrected, the example's whole menu is the Twitter screen bound to delete Twitter |
| LegacyChange.Custom | croco_cli/cli/change.py:75-117 | the command's loops build exactly the corrected older menu |
| LegacyChange.CustomMenu | croco_cli/cli/change.py:75-117 | the same error and menu shape as the newer `custom`, over the older options |
| LegacyChange.CustomAsWritten | croco_cli/cli/change.py:92-117 | as written, every screen deletes the last group's account |
| LegacyChange.CustomScreens | croco_cli/cli/change.py:85-111 | the older grouping and screen loops build exactly the screens of the groups with two or more accounts, each deleting its own group |
| ImportCommand.FirstBare | croco_cli/cli/_import.py:29-30 | finds the first wallet element that is not an object (where `pop` raises), or reports that every element is one |
| ImportCommand.NonCurrentCalls | croco_cli/cli/_import.py:29-31 | the first wallet loop makes at most one write per wallet |
| ImportCommand.LastCurrent | croco_cli/cli/_import.py:28-33 | the wallet kept aside is marked current, and there is none exactly when no wallet is marked current |
| ImportCommand.LastCurrentIsLast | croco_cli/cli/_import.py:32-33 | the wallet kept aside is the last one the file marks current |
| ImportCommand.AccountCalls | croco_cli/cli/_import.py:39-46 | one `set_custom_account` per account, in order |
| ImportCommand.EnvCalls | croco_cli/cli/_import.py:48-50 | one `set_envar` per entry, with keys as written |
| ImportCommand.ImportWallets | croco_cli/cli/_import.py:27-35 | the wallet loop appends exactly the wallet section's writes and stops with its error |
| ImportCommand.SplitAccounts | croco_cli/cli/_import.py:38-43 | the first account loop writes the non-current accounts in file order and keeps the current ones aside in file order |
| ImportCommand.ImportCustomAccounts | croco_cli/cli/_import.py:37-46 | both account loops together write the custom section: non-current accounts, then current ones |
| ImportCommand.ImportEnv | croco_cli/cli/_import.py:48-50 | the env loop writes exactly the env section |
| ImportCommand.Import | croco_cli/cli/_import.py:15-50 | the whole command writes exactly the import plan and stops with its error |
| ImportCommand.WalletPlan | croco_cli/cli/_import.py:27-35 | every wallet write is a `set_wallet`; without error there is no bare element, some wallet is current and the last write sets the wallet kept aside |
| ImportCommand.CustomPlan | croco_cli/cli/_import.py:37-46 | every account write is a `set_custom_account` of an account the file holds |
| ImportCommand.ImportPlan | croco_cli/cli/_import.py:15-50 | a truthy token is set first; an error comes from the wallet section, after only GitHub and wallet writes |
| ImportProperties.WalletCalls | croco_cli/cli/_import.py:31 | the reference: one `set_wallet(**wallet)` per wallet object, in order |
| ImportProperties.NonCurrentCallsAreFiltered | croco_cli/cli/_import.py:29-31 | the first wallet loop writes exactly the non-current wallets, in file order |
| ImportProperties.WalletPlanErrors | croco_cli/cli/_import.py:27-35 | the wallet section fails with `AttributeError` exactly when an element is not an object, with `TypeError` exactly when all are objects and none is current, and succeeds otherwise |
| ImportProperties.NoCurrentWalletWritesAll | croco_cli/cli/_import.py:28-35 | with no wallet marked current, every wallet is written before `set_wallet(**None)` fails |
| ImportProperties.WalletOps | croco_cli/cli/_import.py:29-35 | the wallet writes seen as upserts on the wallet table, one per write |
| ImportProperties.ApplyOneUpsert | croco_cli/cli/_import.py:35 | one upsert is `set_wallet` itself |
| ImportProperties.ImportedCurrentWalletIsSoleCurrent | croco_cli/cli/_import.py:27-35 | when the wallet section and its writes succeed on a table that kept the rule, exactly one wallet ends up current: the one the file marks current last |
| ImportProperties.AccountCallsAppend | croco_cli/cli/_import.py:39-46 | the writes of two account lists are the writes of one followed by the other |
| ImportProperties.SplitKeepsAccounts | croco_cli/cli/_import.py:38-43 | splitting by the current flag loses and adds no account |
| ImportProperties.CustomPlanPermutes | croco_cli/cli/_import.py:37-46 | the custom section writes every account of the file exactly once, in a permutation of the file order |
| ImportProperties.CustomPlanCurrentLast | croco_cli/cli/_import.py:37-46 | no account marked current is written before one that is not |
| ImportProperties.WalletPlanInSection | croco_cli/cli/_import.py:27-35 | the wallet section writes only wallets |
| ImportProperties.CustomPlanInSection | croco_cli/cli/_import.py:37-46 | the custom section writes only custom accounts |
| ImportProperties.EnvCallsInSection | croco_cli/cli/_import.py:48-50 | the env section writes only variables |
| ImportProperties.SectionsConcat | croco_cli/cli/_import.py:24-50 | appending a later section keeps the writes in section order |
| ImportProperties.ImportPlanOrdered | croco_cli/cli/_import.py:24-50 | the plan of store calls writes the GitHub user first when the value is truthy, then wallets, custom accounts and variables in that order; within the plan, the only early stop is a wallet-section failure (a store call that raises is not part of the plan) |
| ExportCommand.ExportPath | croco_cli/cli/_export.py:16 | an empty or absent path means `croco_config.json`; otherwise the path is kept |
| ExportCommand.Indent | croco_cli/cli/_export.py:38 | indentation is 2 exactly when the flag is set, otherwise none |
| ExportCommand.ExportWallets | croco_cli/cli/_export.py:29 | each wallet is exported as its row without the public key, or as the falsy public key itself |
| ExportCommand.ExportUser | croco_cli/cli/_export.py:27-34 | each section is present exactly when its table is non-empty; `github` holds the access token only |
| ExportCommand.Export | croco_cli/cli/_export.py:14-41 | the file is written exactly when the folders exist, at the default or given path with the chosen indent; a missing folder (`FileNotFoundError` or `NotADirectoryError`) yields the folder message instead |
| ExportCommand.LastValueSnoc | croco_cli/cli/_export.py:25 | a later variable with the same key replaces the earlier value in a lookup |
| ExportCommand.LastValueUnique | croco_cli/cli/_export.py:25 | with unique keys a lookup finds the one entry with that key |
| ExportCommand.LastValueAbsent | croco_cli/cli/_export.py:25 | a key that no variable has looks up nothing |
| ExportCommand.WithEnvarOverwrites | croco_cli/cli/_import.py:50 | `set_envar` on a stored key overwrites that one entry in place |
| ExportCommand.OverwriteKeepsUnique | croco_cli/cli/_import.py:50 | overwriting in place keeps the keys unique |
| ExportCommand.AppendKeepsUnique | croco_cli/cli/_import.py:50 | appending a new key keeps the keys unique |
| ExportCommand.LookupAfterWrite | croco_cli/cli/_import.py:50 | after writing `key: value`, `key` looks up `value` and every other key looks up what it did before |
| ExportCommand.WithEnvarIsAssignment | croco_cli/cli/_import.py:50 | `set_envar` is a dictionary assignment: keys stay unique, and only `key` changes its value |
| ExportCommand.EnvMappingIsDictionary | croco_cli/cli/_export.py:24-25 | the exported mapping has unique keys, and each key maps to the value the variables gave it last |
| ExportCommand.LaterDuplicateWins | croco_cli/cli/_export.py:25 | a later variable with a key already seen overwrites the earlier value, at the earlier position |
| ExportCommand.EnvMappingOfUnique | croco_cli/cli/_export.py:24-25 | a store's variables, whose keys `set_envar` keeps unique, export unchanged and in order |
| ExportCommand.ExportedWalletsImport | croco_cli/cli/_export.py:29 | a table with one current wallet and non-empty public keys exports a file that imports without error, with the current wallet written last |
| ExportCommand.ExportedBareWalletStopsImport | croco_cli/cli/_export.py:29 | a wallet with an empty public key exports as a bare value, on which `import` stops |
| ExportCommand.ExportedWithoutCurrentStopsImport | croco_cli/cli/_export.py:29 | a non-empty table with no current wallet, which the older delete handler can leave, exports a file that `import` rejects after writing every wallet |
| ExportCommand.ExportedEnvImports | croco_cli/cli/_export.py:24-32 | a store's variables are written back by `import` as the same `set_envar` calls, in the same order |
| ExportCommand.ExportWallet | croco_cli/cli/_export.py:29 | a wallet is exported as an object exactly when its public key is non-empty, and `import` writes it back as the same `set_wallet` call; otherwise the exported value is falsy |
| ExportCommand.EnvMapping | croco_cli/cli/_export.py:24-25 | the mapping has no more entries than variables, and holds the last variable as written |
| Dotenv.Assignment | croco_cli/cli/_make.py:26-48 | a line is the key, `=`, then the value between single quotes, with nothing escaped |
| Dotenv.FirstCurrentWallet | croco_cli/cli/_make.py:18 | the first current wallet in table order; there is none exactly when no wallet is current |
| Dotenv.WalletLines | croco_cli/cli/_make.py:24-28 | the wallet section is its header, `TEST_PRIVATE_KEY`, `TEST_MNEMONIC` and a blank line |
| Dotenv.EnvLines | croco_cli/cli/_make.py:32-33 | one line per variable, keys as stored |
| Dotenv.AccountLines | croco_cli/cli/_make.py:38-50 | an account's remaining fields and then its data entries, each keyed by `constant_case('{account}_{field}')`, then a blank line |
| Dotenv.WriteAccount | croco_cli/cli/_make.py:39-50 | the inner loops write exactly the account's lines |
| Dotenv.WriteEnv | croco_cli/cli/_make.py:32-33 | the env loop writes exactly the env lines |
| Dotenv.WriteAccounts | croco_cli/cli/_make.py:38-50 | the account loop writes exactly the accounts' lines, one account after the other |
| Dotenv.Dotenv | croco_cli/cli/_make.py:13-52 | the command produces exactly the outcome of the file specification |
| Dotenv.DotenvOutcomes | croco_cli/cli/_make.py:18-52 | the file is written exactly when some wallet is current and the folders exist, and a missing folder yields the folder message; a missing current wallet raises before the folder check |
| Dotenv.AccountsLinesCount | croco_cli/cli/_make.py:38-50 | the account lines number one per field and data entry, plus one blank line per account |
| Dotenv.DotenvLayout | croco_cli/cli/_make.py:24-50 | the sections come in the order wallet, env, custom; each starts with its header; the env section holds one line per variable and ends with a blank line; empty sections are left out |
| Dotenv.DotenvSections | croco_cli/cli/_make.py:24-50 | the wallet section opens the file, and the file's length is the sum of its sections |
| Dotenv.DotenvEnvSection | croco_cli/cli/_make.py:30-34 | with variables, the env section follows the wallet section |
| Dotenv.DotenvCustomSection | croco_cli/cli/_make.py:36-50 | with accounts, the custom section follows the env section and closes the file |
| Dotenv.DotenvLines | croco_cli/cli/_make.py:24-50 | the file opens with the wallet header and ends with a blank line |
| Dotenv.DotenvSpec | croco_cli/cli/_make.py:13-52 | a written file needs a current wallet and existing folders, and its second line is the first current wallet's private key; a missing folder gives the folder message |
| UserCommand.HideValueShowsEnds | croco_cli/cli/user.py:45-47 | when the two ends do not overlap, only `begin_part` leading and `end_part` trailing characters show, around `****...` |
| UserCommand.HideValueEdges | croco_cli/cli/user.py:46 | a prefix at least as long as the value is the whole value, and an end of 0 or at least the length shows the whole value again |
| UserCommand.HideTokenExample | croco_cli/cli/user.py:53 | a 20-character token hidden with 10 and the default 8 keeps 10 and 8 characters |
| UserCommand.ShowLabel | croco_cli/cli/user.py:34-36 | five spaces per padding level, then the label in brackets |
| UserCommand.ShowDetail | croco_cli/cli/user.py:39-42 | five spaces per padding level, `key: `, then the value, on one line |
| UserCommand.WalletScreen | croco_cli/cli/user.py:65-70 | each wallet takes three lines |
| UserCommand.ScreensLayout | croco_cli/cli/user.py:64-70 | with three lines per screen, the screen of element `i` takes lines `3i` to `3i + 2` |
| UserCommand.ShowWalletsLayout | croco_cli/cli/user.py:60-70 | each wallet shows its heading, public key and private key hidden with 5 and 5, at lines `3i` to `3i + 2`, in sorted order |
| UserCommand.ShowGithub | croco_cli/cli/user.py:50-57 | the GitHub label, login, e-mail, and the token hidden with 10 and the default 8; a missing user is an error |
| UserCommand.User | croco_cli/cli/user.py:25-31 | `--wallets` takes precedence and shows only the wallets; otherwise `--git` shows GitHub; with neither flag nothing is shown |
| UserCommand.HideValue | croco_cli/cli/user.py:45-47 | the value's prefix comes first, then `****...`; the result is at most twice the value plus the ellipsis long |
| UserCommand.WalletHeading | croco_cli/cli/user.py:65 | the heading starts with the label as an f-string renders it and grows by ` (Current)` exactly when current |
| UserCommand.ShowWallets | croco_cli/cli/user.py:60-70 | three lines per wallet |
| CrocoEcho.Words | croco_cli/croco_echo.py:62 | `split()` yields non-empty words without white space, and none exactly when the string is all white space |
| CrocoEcho.UnderscoresToSpaces | croco_cli/croco_echo.py:62 | `replace('_', ' ')` changes underscores and nothing else |
| CrocoEcho.CapitalizeAll | croco_cli/croco_echo.py:62 | every word capitalised, in order |
| CrocoEcho.WalletHeading | croco_cli/croco_echo.py:17-18 | the label, or `Wallet` when it is falsy, plus ` (Current)` when current |
| CrocoEcho.AccountDict | croco_cli/croco_echo.py:46-63 | the loop produces exactly the heading, when truthy, then one line per entry that is not skipped |
| CrocoEcho.GithubLines | croco_cli/croco_echo.py:67-81 | without a user, the error alone; otherwise four lines, the token hidden with 10 leading characters |
| CrocoEcho.EnvarsLines | croco_cli/croco_echo.py:108-123 | an error when there are no variables, else one line per variable |
| CrocoEcho.RenderAll | croco_cli/tools/echo.py:34-57 | each line rendered as `Echo.label` or `Echo.detail` prints it |
| CrocoEcho.DisplayKey | croco_cli/croco_echo.py:62 | the display key is empty exactly when the key holds only underscores and white space |
| CrocoEcho.WalletOutput | croco_cli/croco_echo.py:10-27 | the heading comes first, the private key is never shown in clear, and an error is raised exactly for a truthy mnemonic with no word |
| CrocoEcho.WalletsOutput | croco_cli/croco_echo.py:29-43 | the listing fails only on a wallet with a blank mnemonic, and never shows a private key in clear |
| CrocoEcho.CustomAccountLines | croco_cli/croco_echo.py:84-93 | with a truthy heading, the account's heading comes first |
| CrocoEcho.CustomAccountsLines | croco_cli/croco_echo.py:95-106 | no account gives the error alone; otherwise the first account's heading opens the listing when truthy |
| CrocoEchoProperties.WordsOfJoin | croco_cli/croco_echo.py:62 | splitting a space-joined list of plain words gives the words back |
| CrocoEchoProperties.CapitalizeTwice | croco_cli/croco_echo.py:62 | `capitalize` is idempotent |
| CrocoEchoProperties.DisplayKeyWords | croco_cli/croco_echo.py:62 | the words of a display key are the key's words capitalised, and it holds no underscore |
| CrocoEchoProperties.DisplayKeyIdempotent | croco_cli/croco_echo.py:62 | displaying a display key changes nothing |
| CrocoEchoProperties.DisplaySnakeKey | croco_cli/croco_echo.py:62 | a snake-case key reads as its words capitalised and separated by single spaces |
| CrocoEchoProperties.DisplayOneWord | croco_cli/croco_echo.py:62 | `email` displays as `Email` |
| CrocoEchoProperties.AccountDictShowsOnlyAllowed | croco_cli/croco_echo.py:54-63 | after the optional heading there is one line per entry whose key holds neither `password` nor `cookie`, and every line comes from such an entry |
| CrocoEchoProperties.SecretValuesHidden | croco_cli/croco_echo.py:59-60 | a key holding `token`, `secret` or `private`, in any case, has its value hidden with `len // 5` at each end |
| CrocoEchoProperties.SkippedEntriesNeverShown | croco_cli/croco_echo.py:56-57 | an entry whose key holds `password` or `cookie` never has a line |
| CrocoEchoProperties.CustomAccountShowsEmailOnly | croco_cli/croco_echo.py:84-93 | a custom account shows its heading and its e-mail, never its password or e-mail password, then its data when there is any |
| CrocoEchoProperties.FilterRemaining | croco_cli/croco_echo.py:89-91 | of the fields left after the pops, only the e-mail is shown, under `Email` |
| CrocoEchoProperties.PasswordKeysSkipped | croco_cli/croco_echo.py:56 | `password` and `email_password` are skipped keys |
| CrocoEchoProperties.EmailIsShown | croco_cli/croco_echo.py:56 | `email` holds neither `password` nor `cookie` |
| CrocoEchoProperties.EmailIsPlain | croco_cli/croco_echo.py:59 | `email` is not a secret key |
| CrocoEchoProperties.WalletMatchesUserScreen | croco_cli/croco_echo.py:10-23 | a labelled wallet without a mnemonic renders exactly the `user --wallets` screen of that wallet |
| CrocoEchoProperties.WalletMnemonic | croco_cli/croco_echo.py:20-27 | the private key is hidden with 5 and 5; a truthy mnemonic shows as a fourth line hiding all but the first and last words' lengths; a blank one raises |
| CrocoEchoProperties.GithubMatchesUserScreen | croco_cli/croco_echo.py:67-81 | the GitHub display renders the four lines `user --git` prints, and both fail without a user |
| CrocoEchoProperties.WalletsErrorIffBlank | croco_cli/croco_echo.py:29-43 | the wallet listing stops with an error exactly when some wallet has a mnemonic with no word |
| CrocoEchoProperties.WalletsLineCount | croco_cli/croco_echo.py:29-43 | without a mnemonic every wallet shows three lines, and the listing raises nothing |
| CrocoEchoProperties.EnvarsShownInClear | croco_cli/croco_echo.py:108-111 | a variable is shown as `key: value`, unpadded and never hidden |
| SnakeCase.LowerRun | croco_cli/utils.py:15 | the maximal run of lower-case letters at the start |
| SnakeCase.NonWordRun | croco_cli/utils.py:17 | the maximal run of non-word characters at the start |
| SnakeCase.UnderscoreRun | croco_cli/utils.py:18 | the maximal run of underscores at the start |
| SnakeCase.SplitWords | croco_cli/utils.py:15 | the first substitution inserts at most one underscore per character |
| SnakeCase.SplitCase | croco_cli/utils.py:16 | the second substitution inserts at most one underscore per character |
| SnakeCase.ReplaceNonWord | croco_cli/utils.py:17 | replacing runs of non-word characters never lengthens the string, and empties only the empty string |
| SnakeCase.CollapseUnderscores | croco_cli/utils.py:18 | collapsing runs of underscores never lengthens the string, and empties only the empty string |
| SnakeCase.Snake | croco_cli/utils.py:11-19 | the result is empty exactly when the input is, and at most four times as long |
| SnakeCaseProperties.SnakeNoDoubleUnderscore | croco_cli/utils.py:18 | the output never holds two underscores side by side |
| SnakeCaseProperties.SnakeIsLowerWord | croco_cli/utils.py:17-18 | the output is made of word characters only and holds no upper-case letter |
| SnakeCaseProperties.CollapseNoDouble | croco_cli/utils.py:18 | collapsing leaves no `__` |
| SnakeCaseProperties.ReplaceNonWordIsWord | croco_cli/utils.py:17 | replacing the runs of non-word characters leaves only word characters |
| SnakeCaseProperties.SplitCaseSeparates | croco_cli/utils.py:16 | after the second substitution no lower-case letter or digit is directly followed by an upper-case letter |
| SnakeCaseProperties.SnakeIdempotent | croco_cli/utils.py:11-19 | `snake_case(snake_case(s)) == snake_case(s)` |
| SnakeCaseProperties.SnakeCamelExample | croco_cli/utils.py:15-19 | `CrocoCli` becomes `croco_cli` |
| SnakeCaseProperties.SnakeAcronymExample | croco_cli/utils.py:15-19 | `HTTPServer` becomes `http_server` |
| SnakeCaseProperties.SplitWordsAcronym | croco_cli/utils.py:15 | the first substitution splits `Server` from the acronym before it |
| InstallCommand.MakeInstallOption | croco_cli/cli/_install.py:43-71 | a PyPI package gives an option named by the package, and the package is unchanged; a GitHub package gets the user's token and a ` (GitHub)` name; with no user the call fails |
| InstallCommand.MakeSetInstallOption | croco_cli/cli/_install.py:74-93 | a set's option is named by its key, described by its description, and installs its packages in order |
| InstallCommand.PackageOptions | croco_cli/cli/_install.py:102-103 | one option per package when no call fails |
| InstallCommand.SetCommands | croco_cli/cli/_install.py:83-87 | one command line per package of the set, in order |
| InstallCommand.RunSetHandler | croco_cli/cli/_install.py:85-87 | the handler loop runs exactly the set's command lines, in order |
| InstallCommand.PoetryAdd | croco_cli/cli/_install.py:25-38 | the command is `poetry add ` then the package name, or for a GitHub package the `git+https://` URL |
| InstallCommand.GetOptions | croco_cli/cli/_install.py:96-108 | set mode gives one option per package set, named and run by that set; otherwise one per PyPI and GitHub package, failing only without a GitHub user |
| InstallProperties.PypiCommand | croco_cli/cli/_install.py:26-28 | a PyPI package installs with `poetry add <name>`, whatever token or branch it carries |
| InstallProperties.TokenInsertion | croco_cli/cli/_install.py:32-35 | a truthy token is inserted right after `git+https://`, followed by `@`; the rest of the line is as without a token |
| InstallProperties.EmptyTokenIsNoToken | croco_cli/cli/_install.py:32 | an empty token is the same as none |
| InstallProperties.BranchSuffix | croco_cli/cli/_install.py:37-38 | `@branch` is appended if and only if the branch is truthy |
| InstallProperties.GithubRepository | croco_cli/cli/_install.py:33-35 | without a branch, a GitHub line starts with `poetry add git+https://` and ends with `<name>.git` |
| InstallProperties.GithubOptionUsesUserToken | croco_cli/cli/_install.py:56-65 | a GitHub package's option runs the line with the user's token, whatever token the package carried |
| InstallProperties.PackageOptionsAt | croco_cli/cli/_install.py:102-103 | option `i` of a package list is the option of package `i` |
| InstallProperties.PackageOptionsFail | croco_cli/cli/_install.py:53-59 | a package list fails exactly when some GitHub package meets a missing user |
| InstallProperties.OptionsOrder | croco_cli/cli/_install.py:96-108 | without set mode the PyPI options come first, then the GitHub ones, in listed order; in set mode there is one option per set |
| InstallProperties.SetRunsInOrder | croco_cli/cli/_install.py:83-87 | a set option runs its packages' lines in listed order, and a set of two lists runs one list after the other |
| InstallProperties.LegacyAgreesWithNew | croco_cli/cli/install.py:73-75 | the older option list equals the newer one without set mode when the token is the stored user's |
| LegacyInstall.MakeInstallOption | croco_cli/cli/install.py:42-70 | a GitHub package gets the token written into it and ` (GitHub)` after its name; other packages are unchanged |
| LegacyInstall.Options | croco_cli/cli/install.py:73-75 | one option per package: the PyPI ones, then the GitHub ones |

## Left out

- OptionModel.Get: the instance's attributes are the four dataclass fields, the names in `OtherAttributes` and `__weakref__`. `OtherAttributes` holds the `get` method, the attributes the dataclass decorator generates and those inherited from `object`, as in Python 3.10. Attributes that later Python versions add (such as `__getstate__`) are treated as missing, so `get` raises for them in the model, where Python returns them. Every non-field attribute except `__weakref__` is an opaque truthy `Attribute`, so only its name is known.
- Terminal handling is not modelled: the `blessed` contexts, screen printing, colours and reading keys. A screen is a pure function of the engine state, and keys are an input sequence.
- The `Exit` entry's handler is the value of `term.clear()`. It is modelled as the opaque command `ClearTerminal`, which changes nothing in the store. That value is the clear sequence as text, so selecting `Exit` would call a string at keymode.py:118 and raise `TypeError` after the screen is left. The model treats the selection as a command that does nothing, because the type of that value belongs to the terminal library, which is not part of this model.
- Menu.KeyMode.Call: returns the selected entry rather than running its handler. Running a handler is `Store.Database.Perform`, and a nested screen's menu is a `RunScreen` command that is not unfolded.
- The wallet and custom-account tables and their reads and writes follow `database.py`. `delete_wallet`, `get_custom_accounts`, `set_custom_account`, `delete_custom_accounts`, `set_envar` and `get_env_variables` belong to `croco_cli/_database.py`, which is not part of this model. They are modelled by analogy with `set_wallet`:
  - a group's current account is demoted when it is the only one;
  - an account is matched by (account, e-mail);
  - a variable is replaced in place or appended.
- The wallet record carries the `mnemonic` that the newer store keeps and that `cli/_change.py` and `cli/_make.py` read. `database.py` has no such column and never sets it.
- The record field order that `**account` passes to the newer store is taken to be the stored order: password, e-mail, e-mail password, then `data`. `AccountFields` and `RemainingFields` list the fields in that order.
- Deriving a public key from a private key uses `eth_account`. It is the parameter `publicKeyOf`, which fails (`None`) for an invalid key.
- The GitHub API is not modelled. The user's profile and e-mail list are a parameter of `SetGithubUser`.
- `pickle`, JSON parsing and printing, file opening and writing, and `os.system` or `run_poetry_command` are not modelled:
  - a configuration is a `UserConfig` value;
  - a file is its list of lines;
  - whether every folder of a path exists is a boolean parameter. It stands for the two errors the export and `.env` commands catch, `FileNotFoundError` and `NotADirectoryError` (_export.py:40, _make.py:51). Any other error from `open` is not modelled; in the source it propagates, for example `IsADirectoryError` for a path that names a directory, or a permission error;
  - an install handler is the command lines it would run.
- `sort_wallets`, `hide_value`, `constant_case` and `is_github_package` belong to the part of `croco_cli/utils.py` that is not part of this model. They are parameters:
  - `sort_wallets` is an uninterpreted parameter;
  - `constant_case` and `is_github_package` are functions passed in;
  - the display helpers keep a hidden value as the `hide_value` call. Only the lemmas that relate the two displays assume that it behaves like `_hide_value` in `cli/user.py`.
- The decorators `require_wallet`, `require_github`, `check_poetry`, `catch_wallet_errors` and `catch_github_errors` are not part of this model. The model shows the undecorated commands, with their errors as values.
- Character classes are ASCII:
  - `str.lower`, `str.capitalize`, `str.split` and the regular-expression classes `\W` and `[A-Z]` treat other characters as non-letters and non-white-space;
  - case folding beyond ASCII is not modelled.
- Popping a key the handler popped before raises `KeyError`: selecting a custom account's option twice pops `current` twice. This is not modelled. Each selection passes the account's fields.
- Aliasing is not modelled. This covers the account dictionaries `custom_account`, `_make.py` and the handlers pop from, and the package dictionaries that `_make_install_option` writes a token into. The model returns the changed record as a new value.
- `set_wallet` in `database.py` takes no mnemonic, while the handlers of `cli/_change.py` pass one. The model follows the newer store and accepts a mnemonic in both.
- Change.MakeWalletOption: for an unlabelled wallet that is not current the source's option name is `None`, which a `MenuOption` name (a string) cannot hold. The model writes `"None"` there. `Change.WalletMenu` reports the `TypeError` that `KeyMode` raises for such a name, so no menu shown by the model contains that option.
- LegacyChange.MakeWalletOption: the same `None` name as `Change.MakeWalletOption`, reported the same way by `LegacyChange.WalletMenu`.
- LegacyChange.WalletMenu and LegacyChange.Custom: `cli/change.py` imports `show_key_mode`, `echo_error` and `make_screen_option` from a version of `croco_cli/utils.py` that is not part of this model. They are taken to be `KeyMode(options, description)()`, `CrocoEcho.error` and `KeyMode.screen_option`.
- ImportProperties.ImportedCurrentWalletIsSoleCurrent: assumes that every `set_wallet` call of the import succeeds. An invalid key or a duplicate public key is covered by `WalletTable.SetWalletErrorKeepsDemotion` instead.
- CrocoEchoProperties.WalletMatchesUserScreen: covers only labelled wallets without a mnemonic. The `user` screen prints `None` for a missing label, while `croco_echo.py` prints `Wallet`.
- InstallProperties.LegacyAgreesWithNew: assumes that `GITHUB_API_TOKEN` is the stored user's token. The older command reads it from `globals.py` at import time, which is not part of this model.
- `init`, `reset`, `set`, `_set`, `_user`, `make`, the click wiring and `globals.py` are not modelled. Neither are the messages in `exceptions.py` and the aliases in `types.py`. They are glue around the modelled core.

## Findings

| source | as written | input that shows it | evidently intended | confidence | as-written member | corrected member |
|---|---|---|---|---|---|---|
| croco_cli/cli/_change.py:148-149 | each screen's `deleting_handler` reads the loop variable `key` when it runs, after the loop, so every screen deletes the group of the last key of `accounts_map` | two Twitter accounts, then one Discord account: the only screen is Twitter's, and deleting it deletes the Discord account | each screen deletes its own group | high (not executed) | Change.LateBoundGroupDelete | Change.OwnGroupDelete |
| croco_cli/cli/change.py:100-102 | the same late-bound `key` in the older group delete | the same three accounts: deleting the Twitter screen removes the Discord account | each screen deletes its own group | high (not executed) | LegacyChange.LateBoundGroupDelete | LegacyChange.OwnGroupDelete |

In both cases the as-written menu is `CustomAsWritten`, and the menu the rest of the model uses is `CustomMenu`, which the `Custom` methods build. `ScreenDeletesItsOwnGroup` and `SameScreensAsChange` prove the intended property for every store.
