/** A value that may be missing, and the two parts of a list that grows at its
    end. */
module Common {
  datatype Option<T> = None | Some(value: T)

  ghost function Front<T>(xs: seq<T>): seq<T>
    requires xs != []
  {
    xs[..|xs| - 1]
  }

  ghost function Last<T>(xs: seq<T>): T
    requires xs != []
  {
    xs[|xs| - 1]
  }
}
