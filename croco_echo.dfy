/**
 * `croco_echo.py`: how the CLI displays a wallet, an account dictionary, a
 * custom account and the GitHub user. A screen is a sequence of lines; a
 * value passed through `hide_value` (which belongs to a helper module that
 * is not part of this model) is kept as the call that hides it, so what the
 * screen shows in clear is visible in the model.
 */
module CrocoEcho {
  import opened Wrappers
  import opened PyStr
  import opened Records
  import opened Counting
  import UserCommand

  /** A displayed value: shown as is, or the call `hide_value(value, begin, end)` (`end` omitted when `None`). */
  datatype Shown = Plain(text: string) | Hidden(value: string, beginPart: nat, endPart: Option<nat>)

  /** `Echo.label`, `Echo.detail` and `Echo.error`. */
  datatype Line =
    | Label(text: string, padding: nat)
    | Detail(key: string, value: Shown, padding: nat)
    | ErrorLine(message: string)

  /** The output of a call, and the error that cut it short, if any. */
  datatype Output = Output(lines: seq<Line>, error: Option<EchoError>)

  /** `mnemonic.split()[0]` on a mnemonic made only of white space. */
  datatype EchoError = IndexError

  const NoGithubMessage: string := "There is no GitHub to show"

  // Words, as `str.split()` with no argument finds them.

  /** ASCII white space as `str.split()` treats it. */
  predicate IsSpace(c: char)
  {
    c == ' ' || c == '\t' || c == '\n' || c == '\r' || c == '\U{B}' || c == '\U{C}' ||
    c == '\U{1C}' || c == '\U{1D}' || c == '\U{1E}' || c == '\U{1F}'
  }

  predicate NoSpace(w: string) { forall i :: 0 <= i < |w| ==> !IsSpace(w[i]) }

  /** The length of the word `s` starts with. */
  function WordLength(s: string): (n: nat)
    requires s != [] && !IsSpace(s[0])
    ensures 1 <= n <= |s| && NoSpace(s[..n]) && (n == |s| || IsSpace(s[n]))
    decreases |s|
  {
    if |s| == 1 || IsSpace(s[1]) then 1
    else
      var m := WordLength(s[1..]);
      assert forall i :: 1 <= i < m + 1 ==> s[i] == s[1..][i - 1];
      m + 1
  }

  /** `s.split()`: the maximal runs of non-space characters, in order. */
  function Words(s: string): (r: seq<string>)
    ensures forall i :: 0 <= i < |r| ==> r[i] != [] && NoSpace(r[i])
    ensures r == [] <==> forall i :: 0 <= i < |s| ==> IsSpace(s[i])
    decreases |s|
  {
    if s == [] then []
    else if IsSpace(s[0]) then
      assert forall i :: 1 <= i < |s| ==> s[i] == s[1..][i - 1];
      Words(s[1..])
    else
      var n := WordLength(s);
      [s[..n]] + Words(s[n..])
  }

  /** `' '.join(words)`. */
  function Join(words: seq<string>): string
  {
    if words == [] then "" else if |words| == 1 then words[0] else words[0] + " " + Join(words[1..])
  }

  /** `str.replace('_', ' ')`. */
  function UnderscoresToSpaces(s: string): (r: string)
    ensures |r| == |s|
    ensures forall i :: 0 <= i < |s| ==> r[i] == if s[i] == '_' then ' ' else s[i]
  {
    seq(|s|, i requires 0 <= i < |s| => if s[i] == '_' then ' ' else s[i])
  }

  function CapitalizeAll(words: seq<string>): (r: seq<string>)
    ensures |r| == |words|
    ensures forall i :: 0 <= i < |words| ==> r[i] == Capitalize(words[i])
  {
    seq(|words|, i requires 0 <= i < |words| => Capitalize(words[i]))
  }

  /** The display form of a dictionary key: `' '.join(word.capitalize() for word in key.replace('_', ' ').split())`. */
  function DisplayKey(key: string): (r: string)
    ensures r == [] <==> forall i :: 0 <= i < |key| ==> key[i] == '_' || IsSpace(key[i])
  {
    Join(CapitalizeAll(Words(UnderscoresToSpaces(key))))
  }

  // The display of a wallet.

  /** The heading: the label, or `Wallet` when it is empty or missing, marked when current. */
  function WalletHeading(w: Wallet): (r: string)
    ensures TruthyOpt(w.walletLabel) && !w.current ==> r == w.walletLabel.value
    ensures !TruthyOpt(w.walletLabel) && !w.current ==> r == "Wallet"
    ensures w.current ==> r == (if TruthyOpt(w.walletLabel) then w.walletLabel.value else "Wallet") + " (Current)"
  {
    var text := if TruthyOpt(w.walletLabel) then w.walletLabel.value else "Wallet";
    if w.current then text + " (Current)" else text
  }

  /**
   * `CrocoEcho.wallet`: heading, public key, private key hidden with 5 and 5,
   * and, for a non-empty mnemonic, the mnemonic hidden but for the lengths of
   * its first and last words.
   */
  function WalletOutput(w: Wallet): (o: Output)
    ensures |o.lines| >= 3 && o.lines[0] == Label(WalletHeading(w), 0)
    ensures forall i :: 0 <= i < |o.lines| ==> o.lines[i].Detail? && o.lines[i].key == "Private Key" ==> o.lines[i].value.Hidden?
    ensures o.error.Some? <==> BlankMnemonic(w)
  {
    var lines := [Label(WalletHeading(w), 0), Detail("Public Key", Plain(w.publicKey), 1),
                  Detail("Private Key", Hidden(w.privateKey, 5, Some(5)), 1)];
    if !TruthyOpt(w.mnemonic) then Output(lines, None)
    else
      var words := Words(w.mnemonic.value);
      if words == [] then Output(lines, Some(IndexError))
      else Output(lines + [Detail("Mnemonic", Hidden(w.mnemonic.value, |words[0]|, Some(|words[|words| - 1]|)), 1)], None)
  }

  // Account dictionaries.

  /** Keys whose entries are never shown: those containing `password` or `cookie` (case matters). */
  predicate IsSkippedKey(key: string)
  {
    Contains(key, PasswordWord) || Contains(key, CookieWord)
  }

  const PasswordWord: string := "password"
  const CookieWord: string := "cookie"
  const SecretWords: seq<string> := ["token", "secret", "private"]

  predicate IsShownEntry(entry: (string, string)) { !IsSkippedKey(entry.0) }

  /** Keys whose values are hidden: those containing `token`, `secret` or `private`, in any case. */
  predicate IsSecretKey(key: string)
  {
    exists i :: 0 <= i < |SecretWords| && Contains(Lower(key), SecretWords[i])
  }

  /** The line of an entry that is shown. */
  function EntryLine(entry: (string, string)): Line
  {
    var value := entry.1;
    var shown := if IsSecretKey(entry.0) then Hidden(value, |value| / 5, Some(|value| / 5)) else Plain(value);
    Detail(DisplayKey(entry.0), shown, 1)
  }

  function EntryLines(entries: seq<(string, string)>): (r: seq<Line>)
    ensures |r| == |entries|
    ensures forall i :: 0 <= i < |entries| ==> r[i] == EntryLine(entries[i])
  {
    seq(|entries|, i requires 0 <= i < |entries| => EntryLine(entries[i]))
  }

  /** The reference: the heading line when the heading is truthy, then one line per entry that is not skipped, in order. */
  function AccountDictLines(entries: seq<(string, string)>, heading: Option<string>): seq<Line>
  {
    (if TruthyOpt(heading) then [Label(heading.value, 0)] else []) + EntryLines(Filter(entries, IsShownEntry))
  }

  /** `CrocoEcho.account_dict`: the loop that skips, hides and relabels the entries. */
  method AccountDict(entries: seq<(string, string)>, heading: Option<string>) returns (lines: seq<Line>)
    ensures lines == AccountDictLines(entries, heading)
  {
    lines := if TruthyOpt(heading) then [Label(heading.value, 0)] else [];
    ghost var head := lines;
    ghost var done: seq<(string, string)> := [];
    var i := 0;
    while i < |entries|
      invariant 0 <= i <= |entries|
      invariant done == Filter(entries[..i], IsShownEntry)
      invariant lines == head + EntryLines(done)
    {
      var key, value := entries[i].0, entries[i].1;
      FilterStep(entries, i);
      if IsSkippedKey(key) {
        i := i + 1;
        continue;
      }
      var line;
      if IsSecretKey(key) {
        line := Detail(DisplayKey(key), Hidden(value, |value| / 5, Some(|value| / 5)), 1);
      } else {
        line := Detail(DisplayKey(key), Plain(value), 1);
      }
      EntryLinesSnoc(head, done, entries[i]);
      lines := lines + [line];
      done := done + [entries[i]];
      i := i + 1;
    }
    assert entries[..i] == entries;
  }

  /** One step of the loop over the entries. */
  lemma FilterStep(entries: seq<(string, string)>, i: nat)
    requires i < |entries|
    ensures Filter(entries[..i + 1], IsShownEntry)
      == Filter(entries[..i], IsShownEntry) + (if IsShownEntry(entries[i]) then [entries[i]] else [])
  {
    assert entries[..i + 1] == entries[..i] + [entries[i]];
    FilterSnoc(entries[..i], entries[i], IsShownEntry);
  }

  lemma EntryLinesSnoc(head: seq<Line>, done: seq<(string, string)>, entry: (string, string))
    ensures head + EntryLines(done + [entry]) == head + EntryLines(done) + [EntryLine(entry)]
  {
    assert EntryLines(done + [entry]) == EntryLines(done) + [EntryLine(entry)];
  }

  // Custom accounts and the GitHub user.

  /** `custom_account.pop("account").capitalize()`, marked when current. */
  function CustomHeading(a: CustomAccount): string
  {
    if a.current then Capitalize(a.account) + " (Current)" else Capitalize(a.account)
  }

  /** The fields left after popping `data`, `current` and `account`. */
  function RemainingFields(a: CustomAccount): seq<(string, string)>
  {
    [("password", a.password), ("email", a.email), ("email_password", a.emailPassword)]
  }

  /** `CrocoEcho.custom_account`: the remaining fields under the heading, then the data when there is any. */
  function CustomAccountLines(a: CustomAccount): (r: seq<Line>)
    ensures a.account != [] || a.current ==> r != [] && r[0] == Label(CustomHeading(a), 0)
  {
    AccountDictLines(RemainingFields(a), Some(CustomHeading(a)))
    + (if a.data != [] then AccountDictLines(a.data, None) else [])
  }

  /** `CrocoEcho.github`: the heading, login, e-mail and the token hidden with 10 leading characters. */
  function GithubLines(user: Option<GithubUser>): (r: seq<Line>)
    ensures user.None? ==> r == [ErrorLine(NoGithubMessage)]
    ensures user.Some? ==> |r| == 4 && r[3] == Detail("Access token", Hidden(user.value.accessToken, 10, None), 1)
  {
    match user
    case None => [ErrorLine(NoGithubMessage)]
    case Some(u) =>
      [Label("GitHub", 0), Detail("Login", Plain(u.login), 1), Detail("Email", Plain(u.email), 1),
       Detail("Access token", Hidden(u.accessToken, 10, None), 1)]
  }

  // The listings.

  const NoCustomAccountsMessage: string := "There are no custom accounts to show"
  const NoEnvarsMessage: string := "There are no environment variables to show"

  /** A wallet whose mnemonic is non-empty but has no word. */
  predicate BlankMnemonic(w: Wallet)
  {
    TruthyOpt(w.mnemonic) && forall i :: 0 <= i < |w.mnemonic.value| ==> IsSpace(w.mnemonic.value[i])
  }

  /** `CrocoEcho.wallets`, over the wallets in the order `sort_wallets` gives: the first blank mnemonic stops the loop. */
  function WalletsOutput(sorted: seq<Wallet>): (o: Output)
    ensures o.error.Some? ==> exists i :: 0 <= i < |sorted| && BlankMnemonic(sorted[i])
    ensures forall i :: 0 <= i < |o.lines| ==> o.lines[i].Detail? && o.lines[i].key == "Private Key" ==> o.lines[i].value.Hidden?
    decreases |sorted|
  {
    if sorted == [] then Output([], None)
    else
      var first := WalletOutput(sorted[0]);
      if first.error.Some? then first
      else
        var rest := WalletsOutput(sorted[1..]);
        Output(first.lines + rest.lines, rest.error)
  }

  /** `CrocoEcho.custom_accounts`: an error when there are none, else each account in turn. */
  function CustomAccountsLines(accounts: seq<CustomAccount>): (r: seq<Line>)
    ensures accounts == [] ==> r == [ErrorLine(NoCustomAccountsMessage)]
    ensures accounts != [] && (accounts[0].account != [] || accounts[0].current) ==>
      r != [] && r[0] == Label(CustomHeading(accounts[0]), 0)
  {
    if accounts == [] then [ErrorLine(NoCustomAccountsMessage)]
    else
      var first := CustomAccountLines(accounts[0]);
      assert AllCustomAccountLines(accounts) == first + AllCustomAccountLines(accounts[1..]);
      AllCustomAccountLines(accounts)
  }

  function AllCustomAccountLines(accounts: seq<CustomAccount>): seq<Line>
    decreases |accounts|
  {
    if accounts == [] then [] else CustomAccountLines(accounts[0]) + AllCustomAccountLines(accounts[1..])
  }

  /** `CrocoEcho.envar`: key and value, unpadded and never hidden. */
  function EnvarLine(v: EnvVar): Line
  {
    Detail(v.key, Plain(v.value), 0)
  }

  /** `CrocoEcho.envars`: an error when there are none, else one line per variable. */
  function EnvarsLines(vars: seq<EnvVar>): (r: seq<Line>)
    ensures vars == [] ==> r == [ErrorLine(NoEnvarsMessage)]
    ensures vars != [] ==> |r| == |vars|
  {
    if vars == [] then [ErrorLine(NoEnvarsMessage)]
    else seq(|vars|, i requires 0 <= i < |vars| => EnvarLine(vars[i]))
  }

  // Rendering, with `hide_value` behaving as the `user` command's helper (default end of 8).

  function ShownText(v: Shown): string
  {
    match v
    case Plain(t) => t
    case Hidden(value, b, e) => UserCommand.HideValue(value, b, if e.Some? then e.value else 8)
  }

  function Render(line: Line): string
  {
    match line
    case Label(t, p) => UserCommand.ShowLabel(t, p)
    case Detail(k, v, p) => UserCommand.ShowDetail(k, ShownText(v), p)
    case ErrorLine(m) => " x  " + m
  }

  function RenderAll(lines: seq<Line>): (r: seq<string>)
    ensures |r| == |lines|
    ensures forall i :: 0 <= i < |lines| ==> r[i] == Render(lines[i])
  {
    seq(|lines|, i requires 0 <= i < |lines| => Render(lines[i]))
  }
}

/** What `croco_echo.py` shows, and how it agrees with the `user` command. */
module CrocoEchoProperties {
  import opened Wrappers
  import opened PyStr
  import opened Records
  import opened Counting
  import opened CrocoEcho
  import UserCommand

  // Words and display keys.

  predicate NoUnderscore(w: string) { forall i :: 0 <= i < |w| ==> w[i] != '_' }

  /** A well-formed word list: non-empty words without white space or underscores. */
  predicate PlainWords(ws: seq<string>)
  {
    forall i :: 0 <= i < |ws| ==> ws[i] != [] && NoSpace(ws[i]) && NoUnderscore(ws[i])
  }

  /** A word followed by a space (or by nothing) is read back whole. */
  lemma {:induction false} WordLengthOf(w: string, tail: string)
    requires w != [] && NoSpace(w)
    requires tail == [] || IsSpace(tail[0])
    ensures WordLength(w + tail) == |w|
    decreases |w|
  {
    if |w| > 1 {
      assert (w + tail)[1..] == w[1..] + tail;
      WordLengthOf(w[1..], tail);
    }
  }

  /** Splitting a joined list of plain words gives the words back. */
  lemma {:induction false} WordsOfJoin(ws: seq<string>)
    requires PlainWords(ws)
    ensures Words(Join(ws)) == ws
    decreases |ws|
  {
    if |ws| == 1 {
      WordLengthOf(ws[0], []);
      assert ws[0] + [] == ws[0];
      assert ws[0][|ws[0]|..] == [];
    } else if |ws| > 1 {
      var rest := Join(ws[1..]);
      var s := ws[0] + " " + rest;
      WordLengthOf(ws[0], " " + rest);
      assert s == ws[0] + (" " + rest);
      assert s[|ws[0]|..] == " " + rest;
      assert (" " + rest)[1..] == rest;
      WordsOfJoin(ws[1..]);
      assert [ws[0]] + ws[1..] == ws;
    }
  }

  /** Joining plain words with spaces adds no underscore. */
  lemma {:induction false} JoinNoUnderscore(ws: seq<string>)
    requires PlainWords(ws)
    ensures NoUnderscore(Join(ws))
    decreases |ws|
  {
    if |ws| > 1 {
      JoinNoUnderscore(ws[1..]);
      var j := ws[0] + " " + Join(ws[1..]);
      forall i | 0 <= i < |j| ensures j[i] != '_' {
        if i > |ws[0]| { assert j[i] == Join(ws[1..])[i - |ws[0]| - 1]; }
      }
    }
  }

  /** A string without underscores is left as it is by the replacement. */
  lemma NoUnderscoreUnchanged(s: string)
    requires NoUnderscore(s)
    ensures UnderscoresToSpaces(s) == s
  {
  }

  /** Capitalizing keeps a word plain. */
  lemma CapitalizeKeepsPlain(w: string)
    requires w != [] && NoSpace(w) && NoUnderscore(w)
    ensures var c := Capitalize(w); c != [] && NoSpace(c) && NoUnderscore(c)
  {
    var c := Capitalize(w);
    forall i | 0 <= i < |c| ensures !IsSpace(c[i]) && c[i] != '_' {
      if i > 0 { assert c[i] == c[1..][i - 1] == ToLowerChar(w[i]); }
    }
  }

  /** `capitalize` is idempotent. */
  lemma CapitalizeTwice(w: string)
    ensures Capitalize(Capitalize(w)) == Capitalize(w)
  {
    if w != [] {
      var c := Capitalize(w);
      assert Lower(c[1..]) == c[1..];
    }
  }

  /** The words of a display key are the capitalized words of the key, and it holds no underscore. */
  lemma DisplayKeyWords(key: string)
    ensures Words(DisplayKey(key)) == CapitalizeAll(Words(UnderscoresToSpaces(key)))
    ensures NoUnderscore(DisplayKey(key))
  {
    var s := UnderscoresToSpaces(key);
    var ws := Words(s);
    var cs := CapitalizeAll(ws);
    forall i | 0 <= i < |ws| ensures NoUnderscore(ws[i]) {
      WordCharsFrom(s, i);
    }
    forall i | 0 <= i < |cs| ensures cs[i] != [] && NoSpace(cs[i]) && NoUnderscore(cs[i]) {
      CapitalizeKeepsPlain(ws[i]);
    }
    WordsOfJoin(cs);
    JoinNoUnderscore(cs);
  }

  /** A word of a string without underscores holds no underscore. */
  lemma {:induction false} WordCharsFrom(s: string, k: nat)
    requires NoUnderscore(s) && k < |Words(s)|
    ensures NoUnderscore(Words(s)[k])
    decreases |s|
  {
    if IsSpace(s[0]) {
      WordCharsFrom(s[1..], k);
    } else {
      var n := WordLength(s);
      if k > 0 { WordCharsFrom(s[n..], k - 1); }
    }
  }

  /** Displaying a display key changes nothing. */
  lemma DisplayKeyIdempotent(key: string)
    ensures DisplayKey(DisplayKey(key)) == DisplayKey(key)
  {
    var d := DisplayKey(key);
    DisplayKeyWords(key);
    NoUnderscoreUnchanged(d);
    var cs := CapitalizeAll(Words(UnderscoresToSpaces(key)));
    forall i | 0 <= i < |cs| ensures Capitalize(cs[i]) == cs[i] {
      CapitalizeTwice(Words(UnderscoresToSpaces(key))[i]);
    }
    assert CapitalizeAll(cs) == cs;
  }

  /** `'_'.join(words)`. */
  function SnakeJoin(ws: seq<string>): string
  {
    if ws == [] then "" else if |ws| == 1 then ws[0] else ws[0] + "_" + SnakeJoin(ws[1..])
  }

  lemma UnderscoresToSpacesAppend(a: string, b: string)
    ensures UnderscoresToSpaces(a + b) == UnderscoresToSpaces(a) + UnderscoresToSpaces(b)
  {
  }

  lemma {:induction false} SnakeToSpaces(ws: seq<string>)
    requires PlainWords(ws)
    ensures UnderscoresToSpaces(SnakeJoin(ws)) == Join(ws)
    decreases |ws|
  {
    if |ws| == 1 {
      NoUnderscoreUnchanged(ws[0]);
    } else if |ws| > 1 {
      SnakeToSpaces(ws[1..]);
      NoUnderscoreUnchanged(ws[0]);
      UnderscoresToSpacesAppend(ws[0] + "_", SnakeJoin(ws[1..]));
      UnderscoresToSpacesAppend(ws[0], "_");
      assert UnderscoresToSpaces("_") == " ";
    }
  }

  /** A snake-case key reads as its words capitalized and separated by single spaces. */
  lemma DisplaySnakeKey(ws: seq<string>)
    requires PlainWords(ws)
    ensures DisplayKey(SnakeJoin(ws)) == Join(CapitalizeAll(ws))
  {
    SnakeToSpaces(ws);
    WordsOfJoin(ws);
  }

  // Account dictionaries.

  /** The line comes from an entry that is shown. */
  predicate ShownFrom(line: Line, entries: seq<(string, string)>)
  {
    exists e :: e in entries && IsShownEntry(e) && line == EntryLine(e)
  }

  /**
   * After the optional heading there is one line per entry whose key holds
   * neither `password` nor `cookie`, and every line comes from such an entry.
   */
  lemma AccountDictShowsOnlyAllowed(entries: seq<(string, string)>, heading: Option<string>)
    ensures var lines := AccountDictLines(entries, heading);
      var off := if TruthyOpt(heading) then 1 else 0;
      |lines| == off + Count(entries, IsShownEntry) &&
      (TruthyOpt(heading) ==> lines[0] == Label(heading.value, 0)) &&
      forall j :: off <= j < |lines| ==> ShownFrom(lines[j], entries)
  {
    var lines := AccountDictLines(entries, heading);
    var off := if TruthyOpt(heading) then 1 else 0;
    var shown := Filter(entries, IsShownEntry);
    var head: seq<Line> := if TruthyOpt(heading) then [Label(heading.value, 0)] else [];
    assert lines == head + EntryLines(shown);
    forall j | off <= j < |lines| ensures ShownFrom(lines[j], entries) {
      var e := shown[j - off];
      assert e in entries && IsShownEntry(e);
      assert lines[j] == EntryLines(shown)[j - off] == EntryLine(e);
    }
  }

  /**
   * The line of a secret key passes its value through `hide_value` with
   * `len // 5` characters at each end. For a value shorter than five
   * characters that end is 0, and `value[-0:]` is the whole value, so such a
   * value still shows in clear after the ellipsis (`HideValueEdges`).
   */
  lemma SecretValuesHidden(e: (string, string))
    requires IsSecretKey(e.0)
    ensures EntryLine(e).value == Hidden(e.1, |e.1| / 5, Some(|e.1| / 5))
  {
  }

  /** An entry whose key holds `password` or `cookie` never has a line. */
  lemma SkippedEntriesNeverShown(entries: seq<(string, string)>, heading: Option<string>, k: nat)
    requires k < |entries| && IsSkippedKey(entries[k].0)
    requires forall i :: 0 <= i < |entries| && i != k ==> entries[i].1 != entries[k].1
    ensures forall line :: line in AccountDictLines(entries, heading) && line.Detail? ==>
      line.value.Plain? ==> line.value.text != entries[k].1
  {
    AccountDictShowsOnlyAllowed(entries, heading);
    var lines := AccountDictLines(entries, heading);
    var off := if TruthyOpt(heading) then 1 else 0;
    forall line | line in lines && line.Detail? && line.value.Plain?
      ensures line.value.text != entries[k].1
    {
      var j :| 0 <= j < |lines| && lines[j] == line;
      assert j >= off;
      assert ShownFrom(lines[j], entries);
      var e :| e in entries && IsShownEntry(e) && lines[j] == EntryLine(e);
      var i :| 0 <= i < |entries| && entries[i] == e;
      assert i != k;
    }
  }

  /**
   * A custom account shows its heading and its e-mail, never its password or
   * e-mail password, and then its data entries.
   */
  lemma CustomAccountShowsEmailOnly(a: CustomAccount)
    requires Truthy(CustomHeading(a))
    ensures CustomAccountLines(a) ==
      [Label(CustomHeading(a), 0), Detail("Email", Plain(a.email), 1)]
      + (if a.data != [] then AccountDictLines(a.data, None) else [])
  {
    FilterRemaining(a);
  }

  /** Of the remaining fields only the e-mail is shown, under the key `Email`. */
  lemma FilterRemaining(a: CustomAccount)
    ensures EntryLines(Filter(RemainingFields(a), IsShownEntry)) == [Detail("Email", Plain(a.email), 1)]
  {
    PasswordKeysSkipped();
    EmailIsShown();
    FilterMiddle(("password", a.password), ("email", a.email), ("email_password", a.emailPassword), IsShownEntry);
    EmailIsPlain();
    DisplayOneWord();
    assert EntryLines([("email", a.email)]) == [EntryLine(("email", a.email))];
  }

  lemma FilterMiddle<T>(x: T, y: T, z: T, p: T -> bool)
    requires !p(x) && p(y) && !p(z)
    ensures Filter([x, y, z], p) == [y]
  {
    FilterHead([x, y, z], p);
    assert [x, y, z][1..] == [y, z];
    FilterHead([y, z], p);
    assert [y, z][1..] == [z];
    FilterHead([z], p);
  }

  lemma PasswordKeysSkipped()
    ensures IsSkippedKey("password") && IsSkippedKey("email_password")
  {
    ContainsAt("password", PasswordWord, 0);
    ContainsAt("email_password", PasswordWord, 6);
  }

  lemma EmailIsShown()
    ensures !Contains("email", PasswordWord) && !Contains("email", CookieWord)
  {
    ContainsTooLong("email", PasswordWord);
    ContainsTooLong("email", CookieWord);
  }

  lemma EmailIsPlain()
    ensures !IsSecretKey("email")
  {
    assert Lower("email") == "email";
    ContainsSameLength("email", SecretWords[0]);
    ContainsTooLong("email", SecretWords[1]);
    ContainsTooLong("email", SecretWords[2]);
  }

  lemma DisplayOneWord()
    ensures DisplayKey("email") == "Email"
  {
    assert UnderscoresToSpaces("email") == "email";
    WordLengthOf("email", []);
    assert "email" + [] == "email" && "email"[5..] == [];
    assert Words("email") == ["email"];
    assert Capitalize("email") == "Email";
  }

  // Wallets and GitHub, against the `user` command.

  /**
   * For a labelled wallet without a mnemonic, the wallet display renders
   * exactly the `user --wallets` screen of that wallet, given `hide_value`
   * behaves as the `user` command's helper.
   */
  lemma WalletMatchesUserScreen(w: Wallet)
    requires TruthyOpt(w.walletLabel) && !TruthyOpt(w.mnemonic)
    ensures WalletOutput(w).error.None?
    ensures RenderAll(WalletOutput(w).lines) == UserCommand.WalletScreen(w)
  {
    assert Format(w.walletLabel) == w.walletLabel.value;
  }

  /** With a mnemonic, the fourth line hides all but the first and last words' lengths; blank mnemonics raise. */
  lemma WalletMnemonic(w: Wallet)
    requires TruthyOpt(w.mnemonic)
    ensures var out := WalletOutput(w);
      var words := Words(w.mnemonic.value);
      |out.lines| >= 3 && out.lines[2] == Detail("Private Key", Hidden(w.privateKey, 5, Some(5)), 1) &&
      (out.error.Some? <==> forall i :: 0 <= i < |w.mnemonic.value| ==> IsSpace(w.mnemonic.value[i])) &&
      (out.error.Some? ==> |out.lines| == 3) &&
      (out.error.None? ==>
        |out.lines| == 4 &&
        out.lines[3] == Detail("Mnemonic", Hidden(w.mnemonic.value, |words[0]|, Some(|words[|words| - 1]|)), 1))
  {
  }

  /**
   * The GitHub display renders the lines `user --git` prints: the same four
   * lines, the token hidden with 10 leading and the default 8 trailing
   * characters; without a user both stop with an error.
   */
  lemma GithubMatchesUserScreen(user: Option<GithubUser>)
    ensures user.None? <==> UserCommand.ShowGithub(user).Err?
    ensures user.None? ==> GithubLines(user) == [ErrorLine(NoGithubMessage)]
    ensures user.Some? ==> RenderAll(GithubLines(user)) == UserCommand.ShowGithub(user).value
  {
  }

  // The listings.

  /** The wallet listing stops with an error exactly when some wallet has a blank mnemonic. */
  lemma {:induction false} WalletsErrorIffBlank(sorted: seq<Wallet>)
    ensures WalletsOutput(sorted).error.Some? <==> exists i :: 0 <= i < |sorted| && BlankMnemonic(sorted[i])
    decreases |sorted|
  {
    if sorted != [] {
      WalletsErrorIffBlank(sorted[1..]);
      assert forall i :: 1 <= i < |sorted| ==> sorted[i] == sorted[1..][i - 1];
      if exists i :: 1 <= i < |sorted| && BlankMnemonic(sorted[i]) {
        var i :| 1 <= i < |sorted| && BlankMnemonic(sorted[i]);
        assert BlankMnemonic(sorted[1..][i - 1]);
      }
    }
  }

  /** With no mnemonic set on any wallet, the listing succeeds and shows three lines per wallet. */
  lemma {:induction false} WalletsLineCount(sorted: seq<Wallet>)
    requires forall i :: 0 <= i < |sorted| ==> !TruthyOpt(sorted[i].mnemonic)
    ensures WalletsOutput(sorted) == Output(WalletsOutput(sorted).lines, None)
    ensures |WalletsOutput(sorted).lines| == 3 * |sorted|
    decreases |sorted|
  {
    if sorted != [] {
      assert forall i :: 0 <= i < |sorted[1..]| ==> sorted[1..][i] == sorted[i + 1];
      WalletsLineCount(sorted[1..]);
    }
  }

  /** Environment variables are shown as stored, whatever their key: `key: value` with no indentation. */
  lemma EnvarsShownInClear(vars: seq<EnvVar>, i: nat)
    requires i < |vars|
    ensures RenderAll(EnvarsLines(vars))[i] == vars[i].key + ": " + vars[i].value
  {
    assert Spaces(0) == "";
  }
}
