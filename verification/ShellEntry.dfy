/** Directory entries as the shell sees them (shell.h). */
module ShellEntry {

  /** A SHELL_ENTRY, as far as the shell looks into it. */
  datatype Entry = Entry(name: string, isDirectory: bool, size: nat)
}
