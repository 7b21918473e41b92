/**
 * What the engine can observe of the repository's working directory:
 * for each path (relative to the working directory), nothing, a
 * directory, or a regular file with its text.
 */
module Workdir {

  datatype Node = Missing | Directory | Regular(content: string)

  /**
   * A snapshot of the working directory, looked up by the path relative
   * to it. The empty path names the working directory itself.
   */
  type Tree = t: string -> Node | t("") == Directory witness (p: string) => Directory

  /** `File.exist?` (true for directories as well as files). */
  predicate Exists(t: Tree, path: string) {
    !t(path).Missing?
  }

  /**
   * A path holding a NUL character: `File.exist?`, `File.directory?`
   * and a backtick command raise `ArgumentError` on such a string.
   */
  predicate HasNul(path: string) {
    '\0' in path
  }

  /** `File.file?` */
  predicate IsFile(t: Tree, path: string) {
    t(path).Regular?
  }
}
