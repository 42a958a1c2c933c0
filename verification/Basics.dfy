/**
 Types shared by the models: bytes, the byte strings Go calls `string`, and
 slash paths split into their components.
 */
module Basics {
  type byte = x: int | 0 <= x < 256
  type Bytes = seq<byte>
  type Name = Bytes
  type Path = seq<Name>

  datatype Option<+T> = None | Some(value: T)

  const U32: nat := 0x1_0000_0000

  const SLASH: byte := 47
  const DOT: Name := [46]
  const DOTDOT: Name := [46, 46]

  function Parent(p: Path): Path
    requires p != []
  {
    p[..|p| - 1]
  }

  function Last(p: Path): Name
    requires p != []
  {
    p[|p| - 1]
  }

  function Min(a: nat, b: nat): nat {
    if a < b then a else b
  }
}
