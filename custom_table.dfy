/**
 * The custom-account table, grouped by `account`. The store methods the
 * commands call (`set_custom_account`, `delete_custom_accounts`,
 * `get_custom_accounts`) belong to a store module that is not part of this
 * model; they are modelled on the rule `set_wallet` follows, scoped to one
 * group: demote the group's current account when it is the only one, then
 * update the matching (account, email) row and mark it current, or append a
 * new current row.
 */
module CustomTable {
  import opened Wrappers
  import opened Records
  import opened Counting

  function InGroup(group: string): CustomAccount -> bool
  {
    (a: CustomAccount) => a.account == group
  }

  function OutsideGroup(group: string): CustomAccount -> bool
  {
    (a: CustomAccount) => a.account != group
  }

  function CurrentIn(group: string): CustomAccount -> bool
  {
    (a: CustomAccount) => a.account == group && a.current
  }

  function SameAccount(group: string, email: string): CustomAccount -> bool
  {
    (a: CustomAccount) => a.account == group && a.email == email
  }

  function OtherAccount(group: string, email: string): CustomAccount -> bool
  {
    (a: CustomAccount) => !(a.account == group && a.email == email)
  }

  /** Number of current accounts in one group. */
  function CountCurrentIn(rows: seq<CustomAccount>, group: string): nat
  {
    Count(rows, CurrentIn(group))
  }

  /** The intended state of one group: no accounts, or exactly one current. */
  predicate GroupRule(rows: seq<CustomAccount>, group: string)
  {
    Count(rows, InGroup(group)) == 0 || CountCurrentIn(rows, group) == 1
  }

  /** (account, email) is unique. */
  predicate UniqueAccounts(rows: seq<CustomAccount>)
  {
    forall i, j :: 0 <= i < j < |rows| ==> !(rows[i].account == rows[j].account && rows[i].email == rows[j].email)
  }

  /** Demote the group's current account when it is the only one. */
  function DemotedIn(rows: seq<CustomAccount>, group: string): (r: seq<CustomAccount>)
    ensures |r| == |rows|
    ensures forall i :: 0 <= i < |rows| ==>
      r[i] == if CountCurrentIn(rows, group) == 1 && rows[i].account == group then rows[i].(current := false) else rows[i]
  {
    if CountCurrentIn(rows, group) == 1 then
      seq(|rows|, i requires 0 <= i < |rows| => if rows[i].account == group then rows[i].(current := false) else rows[i])
    else rows
  }

  /** The first row with this account and email. */
  function IndexOfAccount(rows: seq<CustomAccount>, group: string, email: string): (r: Option<nat>)
    ensures r.Some? ==> r.value < |rows| && rows[r.value].account == group && rows[r.value].email == email
    ensures r.None? ==> Count(rows, SameAccount(group, email)) == 0
  {
    if rows == [] then None
    else if rows[0].account == group && rows[0].email == email then Some(0)
    else match IndexOfAccount(rows[1..], group, email)
      case None => None
      case Some(k) => Some(k + 1)
  }

  /** `set_custom_account(**fields)`: the fields of `a` (its `current` flag is not passed) become the group's current account. */
  function SetCustomAccount(rows: seq<CustomAccount>, a: CustomAccount): (r: seq<CustomAccount>)
    ensures exists k :: 0 <= k < |r| && r[k] == a.(current := true)
    ensures |rows| <= |r| <= |rows| + 1
    ensures (exists j :: 0 <= j < |rows| && rows[j].account == a.account && rows[j].email == a.email) ==> |r| == |rows|
    ensures forall i :: 0 <= i < |rows| ==> r[i].account == rows[i].account && r[i].email == rows[i].email
  {
    var d := DemotedIn(rows, a.account);
    match IndexOfAccount(d, a.account, a.email)
    case Some(k) =>
      var r := d[k := a.(current := true)];
      assert r[k] == a.(current := true);
      r
    case None =>
      CountZero(d, SameAccount(a.account, a.email));
      var r := d + [a.(current := true)];
      assert r[|d|] == a.(current := true);
      r
  }

  /** `delete_custom_accounts(account, email)`: removes that account. */
  function DeleteCustomAccount(rows: seq<CustomAccount>, group: string, email: string): (r: seq<CustomAccount>)
    ensures |r| == Count(rows, OtherAccount(group, email))
    ensures forall i :: 0 <= i < |r| ==> !(r[i].account == group && r[i].email == email)
    ensures forall i :: 0 <= i < |rows| && !(rows[i].account == group && rows[i].email == email) ==> rows[i] in r
  {
    Filter(rows, OtherAccount(group, email))
  }

  /** `delete_custom_accounts(account)` and the older `delete().where(account == key)`: removes the whole group. */
  function DeleteAccountGroup(rows: seq<CustomAccount>, group: string): (r: seq<CustomAccount>)
    ensures Count(r, InGroup(group)) == 0
  {
    var r := Filter(rows, OutsideGroup(group));
    CountZero(r, InGroup(group));
    r
  }

  /** `get_custom_accounts(account)`: the group's accounts, in store order. */
  function GroupAccounts(rows: seq<CustomAccount>, group: string): seq<CustomAccount>
  {
    Filter(rows, InGroup(group))
  }

  /** `cli/_change.py` lines 72-88: with accounts left in the group and none current, the group's last one is set again. */
  function PromoteLastInGroup(rows: seq<CustomAccount>, group: string): (r: seq<CustomAccount>)
    ensures (GroupAccounts(rows, group) == [] || CountCurrentIn(rows, group) != 0) ==> r == rows
    ensures |r| == |rows|
    ensures forall i :: 0 <= i < |rows| ==> r[i].account == rows[i].account && r[i].email == rows[i].email
  {
    var members := GroupAccounts(rows, group);
    if members != [] && CountCurrentIn(rows, group) == 0 then SetCustomAccount(rows, members[|members| - 1])
    else rows
  }

  /** The deleting handler of a custom-account option in `cli/_change.py`. */
  function DeleteCustomAccountAndPromote(rows: seq<CustomAccount>, group: string, email: string): (r: seq<CustomAccount>)
    ensures |r| == Count(rows, OtherAccount(group, email))
    ensures forall i :: 0 <= i < |r| ==> !(r[i].account == group && r[i].email == email)
  {
    PromoteLastInGroup(DeleteCustomAccount(rows, group, email), group)
  }

  /**
   * Deletion keeps order: a row appended to the table stays last when it is
   * kept, so `custom_accounts[-1]` after a deletion is the group's last
   * surviving row.
   */
  lemma DeleteCustomAccountSnoc(rows: seq<CustomAccount>, a: CustomAccount, group: string, email: string)
    ensures DeleteCustomAccount(rows + [a], group, email) ==
      DeleteCustomAccount(rows, group, email) + (if !(a.account == group && a.email == email) then [a] else [])
  {
    FilterSnoc(rows, a, OtherAccount(group, email));
  }

  /** With unique pairs, two rows with the same (account, email) are the same row. */
  lemma SamePairSameIndex(rows: seq<CustomAccount>, i: nat, j: nat)
    requires UniqueAccounts(rows) && i < |rows| && j < |rows|
    requires rows[i].account == rows[j].account && rows[i].email == rows[j].email
    ensures i == j
  {
  }

  /**
   * The promotion picks the group's last account in store order: with
   * accounts in the group and none current, the row holding that account's
   * (account, email) becomes current and every other row is left as it was.
   */
  lemma PromoteLastInGroupPicksLast(rows: seq<CustomAccount>, group: string)
    requires UniqueAccounts(rows)
    ensures var m, r := GroupAccounts(rows, group), PromoteLastInGroup(rows, group);
      m != [] && CountCurrentIn(rows, group) == 0 ==>
        forall i :: 0 <= i < |rows| ==>
          r[i] == if AccountKey(rows[i]) == AccountKey(m[|m| - 1]) then rows[i].(current := true) else rows[i]
  {
    var m := GroupAccounts(rows, group);
    if m != [] && CountCurrentIn(rows, group) == 0 {
      var last := m[|m| - 1];
      assert last in rows;
      var j :| 0 <= j < |rows| && rows[j] == last;
      assert last.account == group;
      assert DemotedIn(rows, group) == rows;
      CountZero(rows, SameAccount(group, last.email));
      var k := IndexOfAccount(rows, group, last.email).value;
      SamePairSameIndex(rows, k, j);
      var r := rows[k := last.(current := true)];
      assert PromoteLastInGroup(rows, group) == r;
      forall i | 0 <= i < |rows|
        ensures r[i] == if AccountKey(rows[i]) == AccountKey(last) then rows[i].(current := true) else rows[i]
      {
        if AccountKey(rows[i]) == AccountKey(last) {
          SamePairSameIndex(rows, i, j);
        }
      }
    }
  }

  /**
   * The deleting handler of a custom-account option: after the delete, a group
   * left with accounts and none current gets its last remaining account set
   * current again; every other row of the table after the delete stays as it is.
   */
  lemma DeleteCustomAccountAndPromotePicksLast(rows: seq<CustomAccount>, group: string, email: string)
    requires UniqueAccounts(rows)
    ensures var rest := DeleteCustomAccount(rows, group, email);
      var m, r := GroupAccounts(rest, group), DeleteCustomAccountAndPromote(rows, group, email);
      m != [] && CountCurrentIn(rest, group) == 0 ==>
        |r| == |rest| &&
        forall i :: 0 <= i < |rest| ==>
          r[i] == if AccountKey(rest[i]) == AccountKey(m[|m| - 1]) then rest[i].(current := true) else rest[i]
  {
    FilterKeepsUnique(rows, OtherAccount(group, email));
    PromoteLastInGroupPicksLast(DeleteCustomAccount(rows, group, email), group);
  }

  lemma DemotedInKeepsOthers(rows: seq<CustomAccount>, group: string)
    ensures Filter(DemotedIn(rows, group), OutsideGroup(group)) == Filter(rows, OutsideGroup(group))
  {
    FilterAgree(DemotedIn(rows, group), rows, OutsideGroup(group));
  }

  lemma {:induction false} UniqueAccountCount(rows: seq<CustomAccount>, group: string, email: string)
    requires UniqueAccounts(rows)
    ensures Count(rows, SameAccount(group, email)) <= 1
  {
    if rows != [] {
      UniqueAccountCount(rows[1..], group, email);
      if rows[0].account == group && rows[0].email == email {
        CountZero(rows[1..], SameAccount(group, email));
      }
    }
  }

  /**
   * Setting an account touches only its own group: every row of another group
   * keeps its place and its value, and a new row, if any, belongs to the group.
   */
  lemma SetCustomAccountScoped(rows: seq<CustomAccount>, a: CustomAccount)
    ensures var r := SetCustomAccount(rows, a);
      |rows| <= |r| <= |rows| + 1 &&
      (forall i :: 0 <= i < |rows| && rows[i].account != a.account ==> r[i] == rows[i]) &&
      (forall i :: |rows| <= i < |r| ==> r[i] == a.(current := true))
  {
  }

  /**
   * From a group with at most one current account and unique (account, email)
   * pairs, setting an account leaves exactly one current account in its group:
   * the one with that email.
   */
  lemma SetCustomAccountSoleCurrent(rows: seq<CustomAccount>, a: CustomAccount)
    requires UniqueAccounts(rows) && CountCurrentIn(rows, a.account) <= 1
    ensures var r := SetCustomAccount(rows, a);
      (forall i :: 0 <= i < |r| && r[i].account == a.account ==> (r[i].current <==> r[i].email == a.email)) &&
      CountCurrentIn(r, a.account) == 1 && UniqueAccounts(r)
  {
    var d := DemotedIn(rows, a.account);
    DemotedNoneCurrent(rows, a);
    match IndexOfAccount(d, a.account, a.email)
    case Some(k) => SetExistingSoleCurrent(d, a, k);
    case None => SetNewSoleCurrent(d, a);
  }

  /** After the demotion no account of the group is current, and at most one row matches (account, email). */
  lemma DemotedNoneCurrent(rows: seq<CustomAccount>, a: CustomAccount)
    requires UniqueAccounts(rows) && CountCurrentIn(rows, a.account) <= 1
    ensures var d := DemotedIn(rows, a.account);
      (forall i :: 0 <= i < |d| ==> !(d[i].account == a.account && d[i].current)) &&
      UniqueAccounts(d) && Count(d, SameAccount(a.account, a.email)) <= 1
  {
    var g := a.account;
    var d := DemotedIn(rows, g);
    if CountCurrentIn(rows, g) == 0 {
      CountZero(rows, CurrentIn(g));
    }
    assert forall i :: 0 <= i < |d| ==> !(d[i].account == g && d[i].current);
    assert UniqueAccounts(d);
    CountSame(d, rows, SameAccount(g, a.email), SameAccount(g, a.email));
    UniqueAccountCount(rows, g, a.email);
  }

  /** Overwriting the one matching row of a group with none current makes it the sole current one. */
  lemma SetExistingSoleCurrent(d: seq<CustomAccount>, a: CustomAccount, k: nat)
    requires k < |d| && d[k].account == a.account && d[k].email == a.email
    requires forall i :: 0 <= i < |d| ==> !(d[i].account == a.account && d[i].current)
    requires UniqueAccounts(d) && Count(d, SameAccount(a.account, a.email)) <= 1
    ensures var r := d[k := a.(current := true)];
      (forall i :: 0 <= i < |r| && r[i].account == a.account ==> (r[i].current <==> r[i].email == a.email)) &&
      CountCurrentIn(r, a.account) == 1 && UniqueAccounts(r)
  {
    var g := a.account;
    var r := d[k := a.(current := true)];
    forall i | 0 <= i < |r| && i != k ensures !(r[i].account == g && r[i].email == a.email) {
      assert r[i] == d[i];
      assert i < k || k < i;
    }
    CountOnly(r, k, CurrentIn(g));
  }

  /** Appending a group's first row for (account, email), with none current, makes it the sole current one. */
  lemma SetNewSoleCurrent(d: seq<CustomAccount>, a: CustomAccount)
    requires forall i :: 0 <= i < |d| ==> !(d[i].account == a.account && d[i].current)
    requires UniqueAccounts(d) && Count(d, SameAccount(a.account, a.email)) == 0
    ensures var r := d + [a.(current := true)];
      (forall i :: 0 <= i < |r| && r[i].account == a.account ==> (r[i].current <==> r[i].email == a.email)) &&
      CountCurrentIn(r, a.account) == 1 && UniqueAccounts(r)
  {
    var g := a.account;
    var r := d + [a.(current := true)];
    CountZero(d, SameAccount(g, a.email));
    var n := |d|;
    forall i | 0 <= i < |r| ensures (r[i].account == g && r[i].current) <==> i == n {
      if i < n { assert r[i] == d[i]; }
    }
    CountOnly(r, n, CurrentIn(g));
  }

  /**
   * Deleting an account with promotion keeps its group's rule and leaves every
   * other group exactly as it was.
   */
  lemma DeleteCustomAccountAndPromoteScoped(rows: seq<CustomAccount>, group: string, email: string)
    requires UniqueAccounts(rows) && GroupRule(rows, group)
    ensures var r := DeleteCustomAccountAndPromote(rows, group, email);
      GroupRule(r, group) && UniqueAccounts(r) &&
      Filter(r, OutsideGroup(group)) == Filter(rows, OutsideGroup(group))
  {
    var rest := DeleteCustomAccount(rows, group, email);
    FilterKeepsUnique(rows, OtherAccount(group, email));
    FilterFilter(rows, OtherAccount(group, email), OutsideGroup(group));
    CountFilter(rows, OtherAccount(group, email), CurrentIn(group));
    CountFilter(rows, OtherAccount(group, email), InGroup(group));
    var members := GroupAccounts(rest, group);
    if members != [] && CountCurrentIn(rest, group) == 0 {
      var last := members[|members| - 1];
      SetCustomAccountSoleCurrent(rest, last);
      SetCustomAccountKeepsOthers(rest, last);
    } else if members != [] {
      assert Count(rest, InGroup(group)) > 0;
    } else {
      assert Count(rest, InGroup(group)) == 0;
    }
  }

  /** Setting an account leaves the rows of the other groups, in order, as they were. */
  lemma SetCustomAccountKeepsOthers(rows: seq<CustomAccount>, a: CustomAccount)
    ensures Filter(SetCustomAccount(rows, a), OutsideGroup(a.account)) == Filter(rows, OutsideGroup(a.account))
  {
    var g := a.account;
    var d := DemotedIn(rows, g);
    DemotedInKeepsOthers(rows, g);
    match IndexOfAccount(d, g, a.email)
    case Some(k) =>
      FilterAgree(d[k := a.(current := true)], d, OutsideGroup(g));
    case None =>
      FilterSnoc(d, a.(current := true), OutsideGroup(g));
  }

  /** The identity of a stored account: its group and e-mail. */
  function AccountKey(a: CustomAccount): (string, string)
  {
    (a.account, a.email)
  }

  /** Filtering never makes two stored accounts share a group and e-mail. */
  lemma FilterKeepsUnique(rows: seq<CustomAccount>, keep: CustomAccount -> bool)
    requires UniqueAccounts(rows)
    ensures UniqueAccounts(Filter(rows, keep))
  {
    FilterKeepsDistinct(rows, AccountKey, keep);
    var r := Filter(rows, keep);
    forall i, j | 0 <= i < j < |r| ensures !(r[i].account == r[j].account && r[i].email == r[j].email) {
      assert AccountKey(r[i]) != AccountKey(r[j]);
    }
  }

  /** The older group delete empties the group and leaves every other group as it was. */
  lemma DeleteAccountGroupScoped(rows: seq<CustomAccount>, group: string, other: string)
    requires other != group
    ensures Filter(DeleteAccountGroup(rows, group), InGroup(other)) == Filter(rows, InGroup(other))
  {
    FilterFilter(rows, OutsideGroup(group), InGroup(other));
  }
}
