/** The host configuration read from a host's `config.yml`: for each package
    source, the package manager that serves it. Only its shape matters here. */
module HostConfig {
  import opened Wrappers

  /** Command templates; `<package>` stands for the package name(s). */
  datatype PackageManagerCommands = PackageManagerCommands(install: string, uninstall: string, clean: Option<string>)

  /** `multiple`: the manager accepts several space-separated names in one call. */
  datatype PackageManager = PackageManager(multiple: bool, commands: PackageManagerCommands)

  datatype HostConfiguration = HostConfiguration(packageManagers: map<string, PackageManager>)
}
