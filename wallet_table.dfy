/**
 * The `wallets` table as a sequence of rows in query (insertion) order, and
 * the rule that keeps one wallet current: `Database.set_wallet` in
 * `database.py`, and the delete handlers of `cli/_change.py` (which promote a
 * replacement) and `cli/change.py` (which do not).
 *
 * Deriving the public key from a private key is a parameter `publicKeyOf`;
 * `None` stands for a key the derivation rejects (it raises).
 */
module WalletTable {
  import opened Wrappers
  import opened Records
  import opened Counting

  function IsCurrent(w: Wallet): bool { w.current }

  function HasPrivateKey(privateKey: string): Wallet -> bool
  {
    (w: Wallet) => w.privateKey == privateKey
  }

  function LacksPrivateKey(privateKey: string): Wallet -> bool
  {
    (w: Wallet) => w.privateKey != privateKey
  }

  /** `len(wallets.select().where(wallets.current))` */
  function CountCurrent(rows: seq<Wallet>): nat
  {
    Count(rows, IsCurrent)
  }

  /** The intended state: an empty table, or exactly one current wallet. */
  predicate CurrentRule(rows: seq<Wallet>)
  {
    rows == [] || CountCurrent(rows) == 1
  }

  /** `private_key` and `public_key` are unique columns. */
  predicate UniqueKeys(rows: seq<Wallet>)
  {
    forall i, j :: 0 <= i < j < |rows| ==>
      rows[i].privateKey != rows[j].privateKey && rows[i].publicKey != rows[j].publicKey
  }

  /** Why a write raises: the key cannot be derived from, or a unique column would collide. */
  datatype WalletError = InvalidPrivateKey | IntegrityError

  /** A write's outcome: the error it raised, if any, and the table afterwards (rows saved before the error stay saved). */
  datatype Update = Update(error: Option<WalletError>, rows: seq<Wallet>)

  /** Lines 153-158: the current wallet is demoted only when exactly one is current. */
  function Demoted(rows: seq<Wallet>): (r: seq<Wallet>)
    ensures |r| == |rows|
    ensures forall i :: 0 <= i < |rows| ==>
      r[i] == if CountCurrent(rows) == 1 then rows[i].(current := false) else rows[i]
  {
    if CountCurrent(rows) == 1 then seq(|rows|, i requires 0 <= i < |rows| => rows[i].(current := false))
    else rows
  }

  /** The first row holding `privateKey`. */
  function IndexOfKey(rows: seq<Wallet>, privateKey: string): (r: Option<nat>)
    ensures r.Some? ==> r.value < |rows| && rows[r.value].privateKey == privateKey
    ensures r.None? ==> forall i :: 0 <= i < |rows| ==> rows[i].privateKey != privateKey
    ensures r.None? ==> Count(rows, HasPrivateKey(privateKey)) == 0
  {
    if rows == [] then None
    else if rows[0].privateKey == privateKey then Some(0)
    else match IndexOfKey(rows[1..], privateKey)
      case None => None
      case Some(k) => Some(k + 1)
  }

  /** `Database.set_wallet(private_key, label)`, with the mnemonic the newer store also keeps. */
  function SetWallet(rows: seq<Wallet>, privateKey: string, newLabel: Option<string>, mnemonic: Option<string>,
                     publicKeyOf: string -> Option<string>): (u: Update)
    ensures |rows| <= |u.rows| <= |rows| + 1
    ensures u.error.Some? ==> u.rows == Demoted(rows)
    ensures u.error == Some(InvalidPrivateKey) ==> publicKeyOf(privateKey).None?
    ensures u.error.None? ==> exists k :: 0 <= k < |u.rows| && u.rows[k].privateKey == privateKey && u.rows[k].current
  {
    var d := Demoted(rows);
    if Count(d, HasPrivateKey(privateKey)) == 1 then
      var k := IndexOfKey(d, privateKey).value;
      var promoted := d[k := d[k].(current := true)];
      assert promoted[k].privateKey == privateKey && promoted[k].current;
      Update(None, promoted)
    else
      match publicKeyOf(privateKey)
      case None => Update(Some(InvalidPrivateKey), d)
      case Some(publicKey) =>
        if publicKey in PublicKeys(d) || privateKey in PrivateKeys(d) then Update(Some(IntegrityError), d)
        else
          var inserted := d + [Wallet(publicKey, privateKey, true, newLabel, mnemonic)];
          assert inserted[|d|].privateKey == privateKey && inserted[|d|].current;
          Update(None, inserted)
  }

  lemma DemotedKeepsKeys(rows: seq<Wallet>, privateKey: string)
    ensures Count(Demoted(rows), HasPrivateKey(privateKey)) == Count(rows, HasPrivateKey(privateKey))
    ensures UniqueKeys(rows) ==> UniqueKeys(Demoted(rows))
  {
    CountSame(Demoted(rows), rows, HasPrivateKey(privateKey), HasPrivateKey(privateKey));
  }

  /** From at most one current wallet, demotion leaves none. */
  lemma DemotedHasNoCurrent(rows: seq<Wallet>)
    requires CountCurrent(rows) <= 1
    ensures CountCurrent(Demoted(rows)) == 0
  {
    var d := Demoted(rows);
    if CountCurrent(rows) == 0 {
      CountZero(rows, IsCurrent);
    }
    CountZero(d, IsCurrent);
  }

  /** With unique private keys at most one row matches a key. */
  lemma {:induction false} UniqueKeyCount(rows: seq<Wallet>, privateKey: string)
    requires UniqueKeys(rows)
    ensures Count(rows, HasPrivateKey(privateKey)) <= 1
  {
    if rows != [] {
      UniqueKeyCount(rows[1..], privateKey);
      if rows[0].privateKey == privateKey {
        CountZero(rows[1..], HasPrivateKey(privateKey));
      }
    }
  }

  /** A private key already stored: that row becomes current, nothing is inserted, its label and public key stay. */
  lemma SetWalletPromotesExisting(rows: seq<Wallet>, k: nat, newLabel: Option<string>, mnemonic: Option<string>,
                                  publicKeyOf: string -> Option<string>)
    requires UniqueKeys(rows) && k < |rows|
    ensures var u := SetWallet(rows, rows[k].privateKey, newLabel, mnemonic, publicKeyOf);
      u.error == None && |u.rows| == |rows| &&
      u.rows[k] == rows[k].(current := true) &&
      forall i :: 0 <= i < |rows| && i != k ==> u.rows[i] == Demoted(rows)[i]
  {
    var pk := rows[k].privateKey;
    var d := Demoted(rows);
    DemotedKeepsKeys(rows, pk);
    UniqueKeyCount(rows, pk);
    CountZero(rows, HasPrivateKey(pk));
    assert Count(d, HasPrivateKey(pk)) == 1;
    var j := IndexOfKey(d, pk).value;
    assert j == k;
  }

  /** A new private key: exactly one row is appended, current, with the derived public key and the given label. */
  lemma SetWalletInsertsNew(rows: seq<Wallet>, privateKey: string, newLabel: Option<string>, mnemonic: Option<string>,
                            publicKeyOf: string -> Option<string>)
    requires forall i :: 0 <= i < |rows| ==> rows[i].privateKey != privateKey
    requires publicKeyOf(privateKey).Some?
    requires forall i :: 0 <= i < |rows| ==> rows[i].publicKey != publicKeyOf(privateKey).value
    ensures SetWallet(rows, privateKey, newLabel, mnemonic, publicKeyOf) ==
      Update(None, Demoted(rows) + [Wallet(publicKeyOf(privateKey).value, privateKey, true, newLabel, mnemonic)])
  {
    var d := Demoted(rows);
    CountZero(d, HasPrivateKey(privateKey));
    assert privateKey !in PrivateKeys(d);
    assert publicKeyOf(privateKey).value !in PublicKeys(d);
  }

  /**
   * From a table with at most one current wallet, a successful `set_wallet`
   * leaves exactly one current wallet, the one with the given private key,
   * and keeps the keys unique.
   */
  lemma SetWalletMakesSoleCurrent(rows: seq<Wallet>, privateKey: string, newLabel: Option<string>,
                                  mnemonic: Option<string>, publicKeyOf: string -> Option<string>)
    requires UniqueKeys(rows) && CountCurrent(rows) <= 1
    ensures var u := SetWallet(rows, privateKey, newLabel, mnemonic, publicKeyOf);
      u.error == None ==>
        (forall i :: 0 <= i < |u.rows| ==> (u.rows[i].current <==> u.rows[i].privateKey == privateKey)) &&
        CountCurrent(u.rows) == 1 && UniqueKeys(u.rows) && CurrentRule(u.rows)
  {
    var d := Demoted(rows);
    var u := SetWallet(rows, privateKey, newLabel, mnemonic, publicKeyOf);
    DemotedHasNoCurrent(rows);
    CountZero(d, IsCurrent);
    DemotedKeepsKeys(rows, privateKey);
    UniqueKeyCount(rows, privateKey);
    if u.error == None {
      if Count(d, HasPrivateKey(privateKey)) == 1 {
        var k := IndexOfKey(d, privateKey).value;
        forall i | 0 <= i < |u.rows| ensures u.rows[i].current <==> i == k {
          assert i != k ==> u.rows[i] == d[i];
        }
        forall i | 0 <= i < |u.rows| ensures u.rows[i].privateKey == privateKey <==> i == k {
          assert i != k ==> u.rows[i] == d[i] && d[i].privateKey != d[k].privateKey;
        }
        CountOnly(u.rows, k, IsCurrent);
      } else {
        CountZero(d, HasPrivateKey(privateKey));
        var n := |d|;
        assert u.rows[..n] == d;
        forall i | 0 <= i < |u.rows| ensures u.rows[i].current <==> i == n {
          if i < n { assert u.rows[i] == d[i]; }
        }
        CountOnly(u.rows, n, IsCurrent);
        forall i, j | 0 <= i < j < |u.rows|
          ensures u.rows[i].privateKey != u.rows[j].privateKey && u.rows[i].publicKey != u.rows[j].publicKey
        {
          if j == n {
            assert u.rows[i] == d[i];
            assert PrivateKeys(d)[i] == d[i].privateKey && PublicKeys(d)[i] == d[i].publicKey;
          }
        }
      }
    }
  }

  /** With two or more wallets current beforehand, none is demoted (the `len == 1` guard). */
  lemma SetWalletKeepsSeveralCurrent(rows: seq<Wallet>, privateKey: string, newLabel: Option<string>,
                                     mnemonic: Option<string>, publicKeyOf: string -> Option<string>)
    requires CountCurrent(rows) >= 2
    ensures var u := SetWallet(rows, privateKey, newLabel, mnemonic, publicKeyOf);
      |u.rows| >= |rows| && forall i :: 0 <= i < |rows| && rows[i].current ==> u.rows[i].current
  {
  }

  /** Rows other than the previously current one and the target are left as they were. */
  lemma SetWalletFrame(rows: seq<Wallet>, privateKey: string, newLabel: Option<string>,
                       mnemonic: Option<string>, publicKeyOf: string -> Option<string>)
    ensures var u := SetWallet(rows, privateKey, newLabel, mnemonic, publicKeyOf);
      |rows| <= |u.rows| <= |rows| + 1 &&
      forall i :: 0 <= i < |rows| && !rows[i].current && rows[i].privateKey != privateKey ==> u.rows[i] == rows[i]
  {
    var d := Demoted(rows);
    if Count(d, HasPrivateKey(privateKey)) == 1 {
      var k := IndexOfKey(d, privateKey).value;
      assert d[k].privateKey == privateKey;
    }
  }

  /** An error raised after the demotion leaves the demotion saved. */
  lemma SetWalletErrorKeepsDemotion(rows: seq<Wallet>, privateKey: string, newLabel: Option<string>,
                                    mnemonic: Option<string>, publicKeyOf: string -> Option<string>)
    ensures var u := SetWallet(rows, privateKey, newLabel, mnemonic, publicKeyOf);
      u.error.Some? ==> u.rows == Demoted(rows) && forall i :: 0 <= i < |rows| ==> u.rows[i].privateKey == rows[i].privateKey
  {
  }

  /** So a rejected key, stored against a table with one current wallet, leaves no wallet current. */
  lemma RejectedKeyLeavesNoCurrent()
    ensures var rows := [Wallet("0xA", "k1", true, None, None)];
      var u := SetWallet(rows, "bad", None, None, (k: string) => if k == "k1" then Some("0xA") else None);
      u.error == Some(InvalidPrivateKey) && |u.rows| == 1 && CountCurrent(u.rows) == 0
  {
    var rows := [Wallet("0xA", "k1", true, None, None)];
    assert CountCurrent(rows) == 1;
    var d := Demoted(rows);
    assert d == [Wallet("0xA", "k1", false, None, None)];
    assert Count(d, HasPrivateKey("bad")) == 0;
    assert CountCurrent(d) == 0;
  }

  /** `delete_wallet(private_key)`: every row with that private key is removed, the rest keep their order. */
  function DeleteWallet(rows: seq<Wallet>, privateKey: string): (r: seq<Wallet>)
    ensures forall i :: 0 <= i < |r| ==> r[i] in rows && r[i].privateKey != privateKey
    ensures forall i :: 0 <= i < |rows| && rows[i].privateKey != privateKey ==> rows[i] in r
    ensures |r| == Count(rows, LacksPrivateKey(privateKey))
  {
    Filter(rows, LacksPrivateKey(privateKey))
  }

  /**
   * Deletion keeps order: a row appended to the table stays last when it is
   * kept, so `get_wallets()[-1]` after a deletion is the last surviving row.
   */
  lemma DeleteWalletSnoc(rows: seq<Wallet>, w: Wallet, privateKey: string)
    ensures DeleteWallet(rows + [w], privateKey) == DeleteWallet(rows, privateKey) + (if w.privateKey != privateKey then [w] else [])
  {
    FilterSnoc(rows, w, LacksPrivateKey(privateKey));
  }

  /** Deleting a key no row holds leaves the table as it was. */
  lemma DeleteAbsentWallet(rows: seq<Wallet>, privateKey: string)
    requires forall i :: 0 <= i < |rows| ==> rows[i].privateKey != privateKey
    ensures DeleteWallet(rows, privateKey) == rows
  {
    FilterAll(rows, LacksPrivateKey(privateKey));
  }

  /** `cli/_change.py` lines 26-45: with wallets left and none current, the last one is set again (promoted). */
  function PromoteLast(rows: seq<Wallet>, publicKeyOf: string -> Option<string>): (u: Update)
    ensures (rows == [] || CountCurrent(rows) != 0) ==> u == Update(None, rows)
    ensures |u.rows| == |rows|
    ensures forall i :: 0 <= i < |rows| ==>
      u.rows[i].privateKey == rows[i].privateKey && u.rows[i].publicKey == rows[i].publicKey
  {
    if rows != [] && CountCurrent(rows) == 0 then
      var last := rows[|rows| - 1];
      SetWallet(rows, last.privateKey, last.walletLabel, last.mnemonic, publicKeyOf)
    else Update(None, rows)
  }

  /** The deleting handler of a wallet option in `cli/_change.py`. */
  function DeleteWalletAndPromote(rows: seq<Wallet>, privateKey: string, publicKeyOf: string -> Option<string>): (u: Update)
    ensures |u.rows| == Count(rows, LacksPrivateKey(privateKey))
    ensures forall i :: 0 <= i < |u.rows| ==> u.rows[i].privateKey != privateKey
  {
    PromoteLast(DeleteWallet(rows, privateKey), publicKeyOf)
  }

  lemma {:induction false} FilterKeepsUnique(rows: seq<Wallet>, keep: Wallet -> bool)
    requires UniqueKeys(rows)
    ensures UniqueKeys(Filter(rows, keep))
  {
    if rows != [] {
      FilterKeepsUnique(rows[1..], keep);
      FilterHead(rows, keep);
      var t := Filter(rows[1..], keep);
      if keep(rows[0]) {
        forall j | 0 <= j < |t|
          ensures rows[0].privateKey != t[j].privateKey && rows[0].publicKey != t[j].publicKey
        {
          HeadDiffers(rows, t[j]);
        }
        PrependUnique(rows[0], t);
      }
    }
  }

  lemma HeadDiffers(rows: seq<Wallet>, x: Wallet)
    requires UniqueKeys(rows) && rows != [] && x in rows[1..]
    ensures rows[0].privateKey != x.privateKey && rows[0].publicKey != x.publicKey
  {
    var m :| 0 <= m < |rows[1..]| && rows[1..][m] == x;
    assert rows[m + 1] == x;
  }

  lemma PrependUnique(w: Wallet, t: seq<Wallet>)
    requires UniqueKeys(t)
    requires forall j :: 0 <= j < |t| ==> w.privateKey != t[j].privateKey && w.publicKey != t[j].publicKey
    ensures UniqueKeys([w] + t)
  {
    var r := [w] + t;
    forall i, j | 0 <= i < j < |r|
      ensures r[i].privateKey != r[j].privateKey && r[i].publicKey != r[j].publicKey
    {
      assert r[j] == t[j - 1];
      if i > 0 { assert r[i] == t[i - 1]; }
    }
  }

  /**
   * Deleting with promotion keeps the rule: from a table with unique keys and
   * an empty table or exactly one current wallet, the result is again an empty
   * table or has exactly one current wallet; when the deleted wallet was the
   * current one, the last remaining wallet becomes current and nothing else changes.
   */
  lemma DeleteWalletAndPromoteKeepsRule(rows: seq<Wallet>, privateKey: string, publicKeyOf: string -> Option<string>)
    requires UniqueKeys(rows) && CurrentRule(rows)
    ensures var rest := DeleteWallet(rows, privateKey);
      var u := DeleteWalletAndPromote(rows, privateKey, publicKeyOf);
      u.error == None && UniqueKeys(u.rows) && CurrentRule(u.rows) && |u.rows| == |rest| &&
      (CountCurrent(rest) == 0 && rest != [] ==> u.rows == rest[|rest| - 1 := rest[|rest| - 1].(current := true)]) &&
      (CountCurrent(rest) != 0 ==> u.rows == rest)
  {
    var rest := DeleteWallet(rows, privateKey);
    FilterKeepsUnique(rows, LacksPrivateKey(privateKey));
    CountFilter(rows, LacksPrivateKey(privateKey), IsCurrent);
    if rest != [] && CountCurrent(rest) == 0 {
      var n := |rest| - 1;
      SetWalletPromotesExisting(rest, n, rest[n].walletLabel, rest[n].mnemonic, publicKeyOf);
      var u := DeleteWalletAndPromote(rows, privateKey, publicKeyOf);
      assert Demoted(rest) == rest;
      assert u.rows == rest[n := rest[n].(current := true)];
      SetWalletMakesSoleCurrent(rest, rest[n].privateKey, rest[n].walletLabel, rest[n].mnemonic, publicKeyOf);
    }
  }

  /** The older handler of `cli/change.py` only deletes: removing the sole current wallet leaves none current. */
  lemma DeleteWithoutPromotionLosesCurrent(rows: seq<Wallet>, k: nat)
    requires k < |rows| && forall i :: 0 <= i < |rows| ==> (rows[i].current <==> i == k)
    ensures CountCurrent(DeleteWallet(rows, rows[k].privateKey)) == 0
  {
    var rest := DeleteWallet(rows, rows[k].privateKey);
    forall i | 0 <= i < |rest| ensures !rest[i].current {
      var m :| 0 <= m < |rows| && rows[m] == rest[i];
    }
    CountZero(rest, IsCurrent);
  }

  /** Deleting the first of three wallets by its private key leaves the other two, in order. */
  lemma DeleteFirstOfThree(a: Wallet, b: Wallet, c: Wallet)
    requires a.privateKey != b.privateKey && a.privateKey != c.privateKey
    ensures DeleteWallet([a, b, c], a.privateKey) == [b, c]
  {
    var keep := LacksPrivateKey(a.privateKey);
    assert [a, b, c][1..] == [b, c] && [b, c][1..] == [c] && [c][1..] == [];
    FilterHead([a, b, c], keep);
    FilterHead([b, c], keep);
    FilterHead([c], keep);
  }

  /** Deleting the current wallet A of A, B, C (B and C not current) promotes C, the most recently added. */
  lemma PromotesMostRecent(a: Wallet, b: Wallet, c: Wallet, publicKeyOf: string -> Option<string>)
    requires a.current && !b.current && !c.current
    requires UniqueKeys([a, b, c])
    ensures DeleteWalletAndPromote([a, b, c], a.privateKey, publicKeyOf) == Update(None, [b, c.(current := true)])
  {
    var rows := [a, b, c];
    assert CountCurrent(rows) == 1 by { CountOnly(rows, 0, IsCurrent); }
    assert rows[0] == a && rows[1] == b && rows[2] == c;
    DeleteFirstOfThree(a, b, c);
    assert CountCurrent([b, c]) == 0 by { CountZero([b, c], IsCurrent); }
    DeleteWalletAndPromoteKeepsRule(rows, a.privateKey, publicKeyOf);
    assert [b, c][1 := c.(current := true)] == [b, c.(current := true)];
  }

  /** A store operation reachable from the commands: an upsert (`set_wallet`) or a delete with promotion. */
  datatype WalletOp = Upsert(privateKey: string, newLabel: Option<string>, mnemonic: Option<string>) | Remove(privateKey: string)

  /** Runs the operations in order, stopping at the first one that raises. */
  function ApplyOps(rows: seq<Wallet>, ops: seq<WalletOp>, publicKeyOf: string -> Option<string>): (u: Update)
    ensures |u.rows| <= |rows| + |ops|
    decreases |ops|
  {
    if ops == [] then Update(None, rows)
    else
      var u := match ops[0]
        case Upsert(pk, l, m) => SetWallet(rows, pk, l, m, publicKeyOf)
        case Remove(pk) => DeleteWalletAndPromote(rows, pk, publicKeyOf);
      if u.error.Some? then u else ApplyOps(u.rows, ops[1..], publicKeyOf)
  }

  /** After any run of upserts and deletes that raises nothing, the table is empty or has exactly one current wallet. */
  lemma {:induction false} ApplyOpsKeepsRule(rows: seq<Wallet>, ops: seq<WalletOp>, publicKeyOf: string -> Option<string>)
    requires UniqueKeys(rows) && CurrentRule(rows)
    ensures var u := ApplyOps(rows, ops, publicKeyOf);
      u.error == None ==> UniqueKeys(u.rows) && CurrentRule(u.rows)
    decreases |ops|
  {
    if ops != [] {
      assert CountCurrent(rows) <= 1;
      match ops[0]
      case Upsert(pk, l, m) =>
        SetWalletMakesSoleCurrent(rows, pk, l, m, publicKeyOf);
        var u := SetWallet(rows, pk, l, m, publicKeyOf);
        if u.error.None? { ApplyOpsKeepsRule(u.rows, ops[1..], publicKeyOf); }
      case Remove(pk) =>
        DeleteWalletAndPromoteKeepsRule(rows, pk, publicKeyOf);
        var u := DeleteWalletAndPromote(rows, pk, publicKeyOf);
        ApplyOpsKeepsRule(u.rows, ops[1..], publicKeyOf);
    }
  }

  /** Running `ops` then one more operation: the last one runs on the table the others left, unless they raised. */
  lemma {:induction false} ApplyOpsSnoc(rows: seq<Wallet>, ops: seq<WalletOp>, op: WalletOp, publicKeyOf: string -> Option<string>)
    ensures var u := ApplyOps(rows, ops, publicKeyOf);
      ApplyOps(rows, ops + [op], publicKeyOf) == if u.error.Some? then u else ApplyOps(u.rows, [op], publicKeyOf)
    decreases |ops|
  {
    if ops != [] {
      assert (ops + [op])[0] == ops[0] && (ops + [op])[1..] == ops[1..] + [op];
      var u := match ops[0]
        case Upsert(pk, l, m) => SetWallet(rows, pk, l, m, publicKeyOf)
        case Remove(pk) => DeleteWalletAndPromote(rows, pk, publicKeyOf);
      if u.error.None? {
        ApplyOpsSnoc(u.rows, ops[1..], op, publicKeyOf);
      }
    } else {
      assert ops + [op] == [op];
    }
  }
}
