/**
 * The `install` command of `cli/_install.py`: the `poetry add` command line
 * for a package, the menu options that install one package or a package set,
 * and the list of options. Running the command line is left to the shell and
 * is not modelled; a handler is modelled by the command lines it runs.
 * `is_github_package` belongs to a helper module that is not part of this
 * model and is a parameter.
 */
module InstallCommand {
  import opened Wrappers
  import opened PyStr
  import opened Records
  import opened OptionModel

  const AddCommand: string := "poetry add "
  const GitScheme: string := "git+https://"
  const GithubOwner: string := "blnkoff"
  const GithubSuffix: string := " (GitHub)"

  /** `git+https://` and the token followed by `@` when the token is truthy. */
  function GitPrefix(token: Option<string>): string
  {
    if TruthyOpt(token) then GitScheme + token.value + "@" else GitScheme
  }

  /** The `poetry add` line `_install_package` runs for a package. */
  function PoetryAdd(p: Package, github: bool): (r: string)
    ensures |AddCommand| <= |r| && r[..|AddCommand|] == AddCommand
    ensures !github ==> r[|AddCommand|..] == p.name
    ensures github ==> |AddCommand + GitScheme| <= |r| && r[|AddCommand|..|AddCommand + GitScheme|] == GitScheme
  {
    if !github then AddCommand + p.name
    else
      var command := AddCommand + GitPrefix(p.accessToken) + "github.com/" + GithubOwner + "/" + p.name + ".git";
      if TruthyOpt(p.branch) then command + "@" + p.branch.value else command
  }

  /** A package set: the values of `PACKAGE_SETS`, with their key. */
  datatype PackageSet = PackageSet(key: string, description: string, packages: seq<Package>)

  datatype InstallError = NoGithubUser

  /**
   * `_make_install_option`: the option and the package as the call leaves it.
   * A GitHub package gets the user's access token written into it and
   * ` (GitHub)` after its name; reading the token of a missing user raises.
   * The handler's GitHub flag is fixed here. `_install_package` asks
   * `is_github_package` again when it runs, on the package with the token
   * written in, and is taken to get the same answer.
   */
  function MakeInstallOption(p: Package, isGithub: Package -> bool, user: Option<GithubUser>)
    : (r: Result<(MenuOption, Package), InstallError>)
    ensures !isGithub(p) ==> r == Ok((MenuOption(p.name, InstallPackage(p, false), Some(p.description), Some(DoNothing)), p))
    ensures isGithub(p) && user.None? ==> r == Err(NoGithubUser)
    ensures isGithub(p) && user.Some? ==>
      r.Ok? &&
      r.value.1 == p.(accessToken := Some(user.value.accessToken)) &&
      r.value.0 == MenuOption(p.name + GithubSuffix, InstallPackage(r.value.1, true), Some(p.description), Some(DoNothing))
  {
    if isGithub(p) then
      if user.None? then Err(NoGithubUser)
      else
        var updated := p.(accessToken := Some(user.value.accessToken));
        Ok((MenuOption(p.name + GithubSuffix, InstallPackage(updated, true), Some(p.description), Some(DoNothing)), updated))
    else Ok((MenuOption(p.name, InstallPackage(p, false), Some(p.description), Some(DoNothing)), p))
  }

  /** `_make_set_install_option`: the set's key, its description, and a handler over its packages in order. */
  function MakeSetInstallOption(s: PackageSet): (o: MenuOption)
    ensures o.name == s.key && o.description == Some(s.description)
    ensures o.handler == InstallPackageSet(s.packages)
  {
    MenuOption(s.key, InstallPackageSet(s.packages), Some(s.description), Some(DoNothing))
  }

  /** The options of one package list, in order; the first missing user stops the comprehension. */
  function PackageOptions(ps: seq<Package>, isGithub: Package -> bool, user: Option<GithubUser>)
    : (r: Result<seq<MenuOption>, InstallError>)
    ensures r.Ok? ==> |r.value| == |ps|
    ensures r.Err? ==> user.None?
    decreases |ps|
  {
    if ps == [] then Ok([])
    else
      match MakeInstallOption(ps[0], isGithub, user)
      case Err(e) => Err(e)
      case Ok(first) =>
        match PackageOptions(ps[1..], isGithub, user)
        case Err(e) => Err(e)
        case Ok(rest) => Ok([first.0] + rest)
  }

  /** `_get_options`: the PyPI options then the GitHub options, or one option per package set in key order. */
  function GetOptions(setMode: bool, pypi: seq<Package>, githubPackages: seq<Package>, sets: seq<PackageSet>,
                      isGithub: Package -> bool, user: Option<GithubUser>): (r: Result<seq<MenuOption>, InstallError>)
    ensures setMode ==> r.Ok? && |r.value| == |sets|
    ensures setMode ==> forall i :: 0 <= i < |sets| ==> r.value[i].name == sets[i].key && r.value[i].handler == InstallPackageSet(sets[i].packages)
    ensures !setMode && r.Ok? ==> |r.value| == |pypi| + |githubPackages|
    ensures r.Err? ==> !setMode && user.None?
  {
    if !setMode then
      match PackageOptions(pypi, isGithub, user)
      case Err(e) => Err(e)
      case Ok(pypiOptions) =>
        match PackageOptions(githubPackages, isGithub, user)
        case Err(e) => Err(e)
        case Ok(githubOptions) => Ok(pypiOptions + githubOptions)
    else Ok(seq(|sets|, i requires 0 <= i < |sets| => MakeSetInstallOption(sets[i])))
  }

  /** The command lines a set runs, one package after the other. */
  function SetCommands(ps: seq<Package>, isGithub: Package -> bool): (r: seq<string>)
    ensures |r| == |ps|
    ensures forall i :: 0 <= i < |ps| ==> r[i] == PoetryAdd(ps[i], isGithub(ps[i]))
  {
    seq(|ps|, i requires 0 <= i < |ps| => PoetryAdd(ps[i], isGithub(ps[i])))
  }

  /** `set_handler`: calls each package's handler in turn. */
  method RunSetHandler(ps: seq<Package>, isGithub: Package -> bool) returns (commands: seq<string>)
    ensures commands == SetCommands(ps, isGithub)
  {
    commands := [];
    var i := 0;
    while i < |ps|
      invariant 0 <= i <= |ps|
      invariant commands == SetCommands(ps[..i], isGithub)
    {
      commands := commands + [PoetryAdd(ps[i], isGithub(ps[i]))];
      i := i + 1;
    }
    assert ps[..i] == ps;
  }

  /** The command lines an install handler runs; other handlers run none. */
  function Executed(c: Command, isGithub: Package -> bool): seq<string>
  {
    match c
    case InstallPackage(p, github) => [PoetryAdd(p, github)]
    case InstallPackageSet(ps) => SetCommands(ps, isGithub)
    case _ => []
  }
}

/** What the install command lines and options promise. */
module InstallProperties {
  import opened Wrappers
  import opened PyStr
  import opened Records
  import opened OptionModel
  import opened InstallCommand
  import LegacyInstall

  /** A PyPI package installs by name alone; nothing of its token or branch is used. */
  lemma PypiCommand(p: Package)
    ensures PoetryAdd(p, false) == "poetry add " + p.name
    ensures PoetryAdd(p, false) == PoetryAdd(p.(branch := None, accessToken := None), false)
  {
  }

  /**
   * A truthy token is inserted right after `git+https://`, followed by `@`;
   * everything else is the command line without a token.
   */
  lemma TokenInsertion(p: Package, token: string)
    requires token != ""
    ensures var with := PoetryAdd(p.(accessToken := Some(token)), true);
      var without := PoetryAdd(p.(accessToken := None), true);
      var k := |AddCommand + GitScheme|;
      without[..k] == with[..k] == AddCommand + GitScheme &&
      with == without[..k] + token + "@" + without[k..]
  {
    var head := AddCommand + GitScheme;
    var rest := RepositoryPart(p);
    GithubLine(p.(accessToken := Some(token)));
    GithubLine(p.(accessToken := None));
    Halves(head, rest);
    Halves(head, token + "@" + rest);
  }

  /** What follows the scheme and token: the repository, and the branch when truthy. */
  function RepositoryPart(p: Package): string
  {
    "github.com/" + GithubOwner + "/" + p.name + ".git" + (if TruthyOpt(p.branch) then "@" + p.branch.value else "")
  }

  lemma GithubLine(p: Package)
    ensures PoetryAdd(p, true) == AddCommand + GitScheme + (if TruthyOpt(p.accessToken) then p.accessToken.value + "@" else "") + RepositoryPart(p)
  {
  }

  lemma Halves(head: string, rest: string)
    ensures (head + rest)[..|head|] == head && (head + rest)[|head|..] == rest
  {
  }

  /** An empty token is the same as none: the line has no `token@` part. */
  lemma EmptyTokenIsNoToken(p: Package)
    ensures PoetryAdd(p.(accessToken := Some("")), true) == PoetryAdd(p.(accessToken := None), true)
  {
  }

  /** `@branch` is appended exactly when the branch is truthy, after the line without a branch. */
  lemma BranchSuffix(p: Package)
    ensures var base := PoetryAdd(p.(branch := None), true);
      (TruthyOpt(p.branch) ==> PoetryAdd(p, true) == base + "@" + p.branch.value) &&
      (!TruthyOpt(p.branch) ==> PoetryAdd(p, true) == base)
  {
  }

  /** The GitHub line of a package without branch names the repository `blnkoff/<name>.git`. */
  lemma GithubRepository(p: Package)
    requires !TruthyOpt(p.branch)
    ensures var r := PoetryAdd(p, true);
      |r| >= |p.name| + 4 && r[|r| - |p.name| - 4..] == p.name + ".git" &&
      r[..|"poetry add git+https://"|] == "poetry add git+https://"
  {
    var r := PoetryAdd(p, true);
    var head := "poetry add " + GitPrefix(p.accessToken) + "github.com/" + GithubOwner + "/";
    assert r == head + (p.name + ".git");
  }

  /**
   * The handler of a GitHub package's option runs the line with the user's
   * token, whatever token the package carried before.
   */
  lemma GithubOptionUsesUserToken(p: Package, isGithub: Package -> bool, u: GithubUser)
    requires isGithub(p)
    ensures var r := MakeInstallOption(p, isGithub, Some(u));
      r.Ok? && r.value.0.name == p.name + GithubSuffix &&
      Executed(r.value.0.handler, isGithub) == [PoetryAdd(p.(accessToken := Some(u.accessToken)), true)] &&
      (u.accessToken != "" ==>
        var without := PoetryAdd(p.(accessToken := None), true);
        var k := |AddCommand + GitScheme|;
        Executed(r.value.0.handler, isGithub) == [without[..k] + u.accessToken + "@" + without[k..]])
  {
    if u.accessToken != "" {
      TokenInsertion(p, u.accessToken);
    }
  }

  /** Option `i` of a package list is the option of package `i`. */
  lemma {:induction false} PackageOptionsAt(ps: seq<Package>, isGithub: Package -> bool, user: Option<GithubUser>, i: nat)
    requires PackageOptions(ps, isGithub, user).Ok? && i < |ps|
    ensures MakeInstallOption(ps[i], isGithub, user).Ok?
    ensures PackageOptions(ps, isGithub, user).value[i] == MakeInstallOption(ps[i], isGithub, user).value.0
    decreases |ps|
  {
    if i > 0 {
      PackageOptionsAt(ps[1..], isGithub, user, i - 1);
    }
  }

  /** A package list fails exactly when some GitHub package meets a missing user. */
  lemma {:induction false} PackageOptionsFail(ps: seq<Package>, isGithub: Package -> bool, user: Option<GithubUser>)
    ensures PackageOptions(ps, isGithub, user).Err? <==> user.None? && exists i :: 0 <= i < |ps| && isGithub(ps[i])
    decreases |ps|
  {
    if ps != [] {
      PackageOptionsFail(ps[1..], isGithub, user);
      assert forall i :: 1 <= i < |ps| ==> ps[i] == ps[1..][i - 1];
      if user.None? && exists i :: 1 <= i < |ps| && isGithub(ps[i]) {
        var i :| 1 <= i < |ps| && isGithub(ps[i]);
        assert isGithub(ps[1..][i - 1]);
      }
    }
  }

  /**
   * Without set mode the options are the PyPI packages' then the GitHub
   * packages', in their listed order; in set mode, one option per set.
   */
  lemma OptionsOrder(setMode: bool, pypi: seq<Package>, githubPackages: seq<Package>, sets: seq<PackageSet>,
                     isGithub: Package -> bool, u: GithubUser)
    ensures var r := GetOptions(setMode, pypi, githubPackages, sets, isGithub, Some(u));
      r.Ok? &&
      (!setMode ==>
        |r.value| == |pypi| + |githubPackages| &&
        (forall i :: 0 <= i < |pypi| ==> r.value[i] == MakeInstallOption(pypi[i], isGithub, Some(u)).value.0) &&
        (forall i :: 0 <= i < |githubPackages| ==>
          r.value[|pypi| + i] == MakeInstallOption(githubPackages[i], isGithub, Some(u)).value.0)) &&
      (setMode ==> |r.value| == |sets| && forall i :: 0 <= i < |sets| ==>
        r.value[i].name == sets[i].key && r.value[i].handler == InstallPackageSet(sets[i].packages))
  {
    if !setMode {
      PackageOptionsFail(pypi, isGithub, Some(u));
      PackageOptionsFail(githubPackages, isGithub, Some(u));
      var a := PackageOptions(pypi, isGithub, Some(u)).value;
      var b := PackageOptions(githubPackages, isGithub, Some(u)).value;
      forall i | 0 <= i < |pypi| ensures (a + b)[i] == MakeInstallOption(pypi[i], isGithub, Some(u)).value.0 {
        PackageOptionsAt(pypi, isGithub, Some(u), i);
      }
      forall i | 0 <= i < |githubPackages|
        ensures (a + b)[|pypi| + i] == MakeInstallOption(githubPackages[i], isGithub, Some(u)).value.0
      {
        PackageOptionsAt(githubPackages, isGithub, Some(u), i);
      }
    }
  }

  /** A set option runs its packages' lines in their listed order, and a set made of two lists runs one after the other. */
  lemma SetRunsInOrder(s: PackageSet, more: seq<Package>, isGithub: Package -> bool)
    ensures Executed(MakeSetInstallOption(s).handler, isGithub) == SetCommands(s.packages, isGithub)
    ensures SetCommands(s.packages + more, isGithub) == SetCommands(s.packages, isGithub) + SetCommands(more, isGithub)
  {
  }

  /**
   * The older command builds the same options as the newer one without set
   * mode, when `is_github_package` picks out exactly the GitHub list and the
   * token is the stored user's.
   */
  lemma LegacyAgreesWithNew(pypi: seq<Package>, githubPackages: seq<Package>, isGithub: Package -> bool, u: GithubUser)
    requires forall i :: 0 <= i < |pypi| ==> !isGithub(pypi[i])
    requires forall i :: 0 <= i < |githubPackages| ==> isGithub(githubPackages[i])
    ensures GetOptions(false, pypi, githubPackages, [], isGithub, Some(u)) == Ok(LegacyInstall.Options(pypi, githubPackages, u.accessToken))
  {
    OptionsOrder(false, pypi, githubPackages, [], isGithub, u);
    var r := GetOptions(false, pypi, githubPackages, [], isGithub, Some(u)).value;
    var l := LegacyInstall.Options(pypi, githubPackages, u.accessToken);
    forall i | 0 <= i < |r| ensures r[i] == l[i] {
      if i >= |pypi| {
        assert r[i] == MakeInstallOption(githubPackages[i - |pypi|], isGithub, Some(u)).value.0;
        assert l[i] == LegacyInstall.MakeInstallOption(githubPackages[i - |pypi|], true, u.accessToken).0;
      } else {
        assert l[i] == LegacyInstall.MakeInstallOption(pypi[i], false, u.accessToken).0;
      }
    }
    assert r == l;
  }
}
