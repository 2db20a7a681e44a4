/** `get_shell_config_file` (shell_utils.py): which startup file belongs to the user's
    shell. The `SHELL` value, the home directory and which files exist are inputs. */
module RcLocate {
  import opened Wrappers
  import opened Text
  import opened Files

  /** A `SHELL` value that names one of the shells with a fixed config file. */
  predicate KnownShell(shell: string) {
    Contains(shell, "bash") || Contains(shell, "zsh") || Contains(shell, "fish")
  }

  /** `bash` is checked first, then `zsh`, then `fish`, by substring. For bash an existing
      `.bashrc` wins over an existing `.bash_profile`, and `.bashrc` is the default even
      if it does not exist yet; zsh and fish get their file whether or not it exists; any
      other shell gets `.profile` only if that exists, and otherwise no file at all. */
  function GetShellConfigFile(h: Host): (r: Option<string>)
    ensures r.None? <==> !KnownShell(h.shell) && !Exists(h, HomeFile(h.home, ".profile"))
    ensures r.Some? ==> StartsWith(r.value, h.home + "/")
    ensures r.Some? && !Contains(h.shell, "zsh") && !Contains(h.shell, "fish") ==>
      Exists(h, r.value) || r.value == HomeFile(h.home, ".bashrc")
    ensures Contains(h.shell, "bash") && Exists(h, HomeFile(h.home, ".bashrc")) ==>
      r == Some(HomeFile(h.home, ".bashrc"))
    ensures Contains(h.shell, "bash") && !Exists(h, HomeFile(h.home, ".bashrc")) &&
            Exists(h, HomeFile(h.home, ".bash_profile")) ==>
      r == Some(HomeFile(h.home, ".bash_profile"))
    ensures Contains(h.shell, "bash") && !Exists(h, HomeFile(h.home, ".bashrc")) &&
            !Exists(h, HomeFile(h.home, ".bash_profile")) ==>
      r == Some(HomeFile(h.home, ".bashrc"))
    ensures !Contains(h.shell, "bash") && Contains(h.shell, "zsh") ==>
      r == Some(HomeFile(h.home, ".zshrc"))
    ensures !Contains(h.shell, "bash") && !Contains(h.shell, "zsh") && Contains(h.shell, "fish") ==>
      r == Some(HomeFile(h.home, ".config/fish/config.fish"))
    ensures !KnownShell(h.shell) && Exists(h, HomeFile(h.home, ".profile")) ==>
      r == Some(HomeFile(h.home, ".profile"))
  {
    var bashrc := HomeFile(h.home, ".bashrc");
    var bashProfile := HomeFile(h.home, ".bash_profile");
    var profile := HomeFile(h.home, ".profile");
    if Contains(h.shell, "bash") then
      if Exists(h, bashrc) then Some(bashrc)
      else if Exists(h, bashProfile) then Some(bashProfile)
      else Some(bashrc)
    else if Contains(h.shell, "zsh") then Some(HomeFile(h.home, ".zshrc"))
    else if Contains(h.shell, "fish") then Some(HomeFile(h.home, ".config/fish/config.fish"))
    else if Exists(h, profile) then Some(profile)
    else None
  }

  /** Creating the located file does not move the locator elsewhere: the file that is
      written on a save is the file a later delete reads. */
  lemma LocatorStable(h: Host, p: string, st: FileState)
    requires GetShellConfigFile(h) == Some(p)
    ensures GetShellConfigFile(h.(files := h.files[p := st])) == Some(p)
  {
    var bashrc := HomeFile(h.home, ".bashrc");
    var bashProfile := HomeFile(h.home, ".bash_profile");
    assert |bashrc| != |bashProfile|;
  }
}
