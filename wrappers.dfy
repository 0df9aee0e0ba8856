/** The optional-value datatype and the one-level directory tree shared by the
    other modules. */
module Wrappers {

  datatype Option<+T> = None | Some(value: T)

  /** A directory tree one level deep: directory name to file name to contents. */
  type Tree<T> = map<string, map<string, T>>

  /** The contents of `dir/file`, if that file exists. */
  function Lookup<T>(t: Tree<T>, dir: string, file: string): Option<T>
  {
    if dir in t && file in t[dir] then Some(t[dir][file]) else None
  }
}
