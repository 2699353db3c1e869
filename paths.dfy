/** Paths as the sequence of components `Path::components` yields, root first. */
module Paths {
  /** One component of a path, after the variants of `std::path::Component`. */
  datatype Component =
    | Prefix(prefix: string)  // a Windows drive or UNC prefix
    | RootDir                 // the leading separator
    | CurDir                  // `.`
    | ParentDir               // `..`
    | Normal(name: string)    // an ordinary file or directory name

  /** A path; its last component is the one nearest the filename. */
  type Path = seq<Component>
}
