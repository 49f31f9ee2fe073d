/**
 * `cli/user.py`: the `user` command, which shows the wallets or the GitHub
 * account, and its text helpers. Each screen line is the text `click.echo`
 * prints (colours are not modelled). `sort_wallets` belongs to a helper
 * module that is not part of this model: the wallets arrive already sorted.
 */
module UserCommand {
  import opened Wrappers
  import opened PyStr
  import opened Records

  const Ellipsis: string := "****..."

  /** `value[:begin_part] + '****...' + value[-end_part:]`; `end_part` is 8 unless given. */
  function HideValue(value: string, beginPart: nat, endPart: nat): (r: string)
    ensures |Ellipsis| <= |r| <= 2 * |value| + |Ellipsis|
    ensures Prefix(value, beginPart) + Ellipsis <= r
  {
    Prefix(value, beginPart) + Ellipsis + NegSuffix(value, endPart)
  }

  /** When the two ends do not reach the whole value, only `beginPart` leading and `endPart` trailing characters show. */
  lemma HideValueShowsEnds(value: string, beginPart: nat, endPart: nat)
    requires 0 < endPart && beginPart + endPart <= |value|
    ensures var r := HideValue(value, beginPart, endPart);
      |r| == beginPart + |Ellipsis| + endPart &&
      r[..beginPart] == value[..beginPart] &&
      r[beginPart..beginPart + |Ellipsis|] == Ellipsis &&
      r[|r| - endPart..] == value[|value| - endPart..]
  {
    var r := HideValue(value, beginPart, endPart);
    assert r == value[..beginPart] + Ellipsis + value[|value| - endPart..];
  }

  /**
   * The slicing edge cases: a prefix at least as long as the value is the
   * whole value, and an end of zero is `value[-0:]`, the whole value again.
   */
  lemma HideValueEdges(value: string, beginPart: nat, endPart: nat)
    ensures beginPart >= |value| ==> HideValue(value, beginPart, endPart)[..|value|] == value
    ensures endPart == 0 ==> HideValue(value, beginPart, endPart) == Prefix(value, beginPart) + Ellipsis + value
    ensures endPart >= |value| ==> HideValue(value, beginPart, endPart) == Prefix(value, beginPart) + Ellipsis + value
  {
  }

  /** A 20-character value hidden with the token parameters (10 and the default 8) keeps 10 and 8 characters. */
  lemma HideTokenExample()
    ensures HideValue("ghp_0123456789abcdef", 10, 8) == "ghp_012345****...89abcdef"
  {
    assert "ghp_0123456789abcdef"[..10] == "ghp_012345";
    assert "ghp_0123456789abcdef"[12..] == "89abcdef";
  }

  /** `_show_label`: five spaces per padding level, then the label in brackets. */
  function ShowLabel(text: string, padding: nat): (r: string)
    ensures |r| == 5 * padding + |text| + 2
    ensures r[..5 * padding] == Spaces(5 * padding)
    ensures r[5 * padding] == '[' && r[|r| - 1] == ']' && r[5 * padding + 1..|r| - 1] == text
  {
    Spaces(5 * padding) + "[" + text + "]"
  }

  /** `_show_detail`: five spaces per padding level, `key: `, then the value, on one line. */
  function ShowDetail(key: string, value: string, padding: nat): (r: string)
    ensures |r| == 5 * padding + |key| + 2 + |value|
    ensures r[..5 * padding] == Spaces(5 * padding)
    ensures r[5 * padding..5 * padding + |key|] == key
    ensures r[5 * padding + |key|..5 * padding + |key| + 2] == ": "
    ensures r[|r| - |value|..] == value
  {
    Spaces(5 * padding) + key + ": " + value
  }

  /** The heading of a wallet: its label as an f-string renders it (`None` included), marked when current. */
  function WalletHeading(w: Wallet): (r: string)
    ensures Format(w.walletLabel) <= r
    ensures |r| == |Format(w.walletLabel)| + if w.current then |" (Current)"| else 0
  {
    if w.current then Format(w.walletLabel) + " (Current)" else Format(w.walletLabel)
  }

  /** One wallet: heading, public key, and the private key hidden with 5 and 5. */
  function WalletScreen(w: Wallet): (r: seq<string>)
    ensures |r| == 3
  {
    [ShowLabel(WalletHeading(w), 0),
     ShowDetail("Public Key", w.publicKey, 1),
     ShowDetail("Private Key", HideValue(w.privateKey, 5, 5), 1)]
  }

  /** The screens of `xs` one after the other, as a loop echoing each in turn prints them. */
  function Screens<T>(xs: seq<T>, screen: T -> seq<string>): seq<string>
    decreases |xs|
  {
    if xs == [] then [] else Screens(xs[..|xs| - 1], screen) + screen(xs[|xs| - 1])
  }

  /** With three lines per screen, the screen of `xs[i]` takes lines `3i` to `3i + 2`. */
  lemma {:induction false} ScreensLayout<T>(xs: seq<T>, screen: T -> seq<string>, i: nat)
    requires forall x :: |screen(x)| == 3
    requires i < |xs|
    ensures |Screens(xs, screen)| == 3 * |xs|
    ensures Screens(xs, screen)[3 * i..3 * i + 3] == screen(xs[i])
    decreases |xs|
  {
    var last := |xs| - 1;
    var init := xs[..last];
    var all, front := Screens(xs, screen), Screens(init, screen);
    assert all == front + screen(xs[last]);
    if i < last {
      ScreensLayout(init, screen, i);
      assert init[i] == xs[i];
      assert all[3 * i..3 * i + 3] == front[3 * i..3 * i + 3];
    } else {
      if last > 0 {
        ScreensLayout(init, screen, last - 1);
      }
      assert |front| == 3 * last;
    }
  }

  /** `_show_wallets`, over the wallets in the order `sort_wallets` gives. */
  function ShowWallets(sorted: seq<Wallet>): (r: seq<string>)
    ensures |r| == 3 * |sorted|
  {
    if sorted == [] then []
    else
      ScreensLayout(sorted, WalletScreen, 0);
      Screens(sorted, WalletScreen)
  }

  /** Three lines per wallet; those of the `i`-th wallet sit at positions `3i` to `3i + 2`, in the sorted order. */
  lemma ShowWalletsLayout(sorted: seq<Wallet>, i: nat)
    requires i < |sorted|
    ensures |ShowWallets(sorted)| == 3 * |sorted|
    ensures ShowWallets(sorted)[3 * i..3 * i + 3] == WalletScreen(sorted[i])
  {
    ScreensLayout(sorted, WalletScreen, i);
  }

  datatype UserError = NoGithubUser

  /**
   * `_show_github`: the GitHub heading, login, e-mail, and the token hidden
   * with 10 leading and the default 8 trailing characters. Subscripting a
   * missing user raises.
   */
  function ShowGithub(user: Option<GithubUser>): (r: Result<seq<string>, UserError>)
    ensures user.None? <==> r.Err?
    ensures r.Ok? ==> r.value == [ShowLabel("GitHub", 0), ShowDetail("Login", user.value.login, 1),
                                  ShowDetail("Email", user.value.email, 1),
                                  ShowDetail("Access token", HideValue(user.value.accessToken, 10, 8), 1)]
  {
    match user
    case None => Err(NoGithubUser)
    case Some(u) =>
      Ok([ShowLabel("GitHub", 0), ShowDetail("Login", u.login, 1), ShowDetail("Email", u.email, 1),
          ShowDetail("Access token", HideValue(u.accessToken, 10, 8), 1)])
  }

  /** `user --git/--wallets`: `--wallets` shows the wallets and returns; otherwise `--git` (on by default) shows GitHub. */
  function User(git: bool, wallets: bool, sorted: seq<Wallet>, github: Option<GithubUser>): (r: Result<seq<string>, UserError>)
    ensures wallets ==> r == Ok(ShowWallets(sorted))
    ensures !wallets && git ==> r == ShowGithub(github)
    ensures !wallets && !git ==> r == Ok([])
  {
    if wallets then Ok(ShowWallets(sorted))
    else if git then ShowGithub(github)
    else Ok([])
  }
}
