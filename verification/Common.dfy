/** What several models share. */
module Common {
  datatype Option<+T> = None | Some(value: T)

  function Min(x: int, y: int): int {
    if x < y then x else y
  }

  function Max(x: int, y: int): int {
    if x > y then x else y
  }

  ghost function Elements(s: seq<string>): set<string> {
    set x | x in s
  }
}
