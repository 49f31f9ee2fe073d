/**
 * The older `install` command of `cli/install.py`. Its command line is the
 * same as the newer one's (`InstallCommand.PoetryAdd`), with GitHub-ness
 * given by the caller; its options are built once, from the two package
 * lists, with the token read from the stored GitHub user when the module
 * is loaded.
 */
module LegacyInstall {
  import opened Wrappers
  import opened Records
  import opened OptionModel
  import InstallCommand

  /**
   * `_make_install_option(package, github_package=...)`: the option and the
   * package as the call leaves it; a GitHub package gets `token` written into
   * it and ` (GitHub)` after its name.
   */
  function MakeInstallOption(p: Package, github: bool, token: string): (r: (MenuOption, Package))
    ensures !github ==> r.1 == p && r.0.name == p.name
    ensures github ==> r.1 == p.(accessToken := Some(token)) && r.0.name == p.name + InstallCommand.GithubSuffix
    ensures r.0.description == Some(p.description) && r.0.handler == InstallPackage(r.1, github)
  {
    if github then
      var updated := p.(accessToken := Some(token));
      (MenuOption(p.name + InstallCommand.GithubSuffix, InstallPackage(updated, true), Some(p.description), Some(DoNothing)), updated)
    else (MenuOption(p.name, InstallPackage(p, false), Some(p.description), Some(DoNothing)), p)
  }

  /** `_OPTIONS`: the PyPI options, then the GitHub options. */
  function Options(pypi: seq<Package>, githubPackages: seq<Package>, token: string): (r: seq<MenuOption>)
    ensures |r| == |pypi| + |githubPackages|
  {
    seq(|pypi|, i requires 0 <= i < |pypi| => MakeInstallOption(pypi[i], false, token).0)
    + seq(|githubPackages|, i requires 0 <= i < |githubPackages| => MakeInstallOption(githubPackages[i], true, token).0)
  }
}
