/** The characters that mean something to the code. */
module Characters {
  import opened Bytes

  /** The bytes of a text. */
  function Ascii(s: string): (r: seq<byte>)
    requires forall i :: 0 <= i < |s| ==> s[i] as int < 0x100
    ensures |r| == |s| && forall i :: 0 <= i < |s| ==> r[i] == s[i] as int
  {
    seq(|s|, i requires 0 <= i < |s| => s[i] as int)
  }

  const BACKSPACE: byte := 8
  const TAB: byte := 9
  const NEWLINE: byte := 10
  const RETURN: byte := 13
  const SPACE: byte := 32
  const PERCENT: byte := 37
  const MINUS: byte := 45
  const DOT: byte := 46
  const SLASH: byte := 47
}
