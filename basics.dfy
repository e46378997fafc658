/** Values shared by every stage of the pipeline: Python `str` values as
    sequences of code points, and the Option wrapper. */
module Basics {

  /** One element of a Python `str`: any code point, lone surrogates included. */
  type CodePoint = c: int | 0 <= c < 0x11_0000

  /** A Python `str`. */
  type Text = seq<CodePoint>

  datatype Option<+T> = None | Some(value: T)

  /** Line feed, `'\n'`. */
  const LF: CodePoint := 0x0A
  /** Carriage return, `'\r'`. */
  const CR: CodePoint := 0x0D
  /** The plain space, `' '`. */
  const SP: CodePoint := 0x20

  /** A Dafny string literal read as a Python `str`. */
  function Lit(s: string): (t: Text)
    ensures |t| == |s|
  {
    seq(|s|, i requires 0 <= i < |s| => s[i] as int)
  }

  /** `c * n`: n copies of one code point. */
  function Rep(c: CodePoint, n: nat): (r: Text)
    ensures |r| == n
  {
    seq(n, _ => c)
  }

  /** `str.isspace()` for one code point, as Python 3 defines it: the
      characters of bidirectional class WS, B or S and of category Zs. */
  predicate IsSpace(c: CodePoint)
  {
    || 0x09 <= c <= 0x0D
    || 0x1C <= c <= 0x20
    || c == 0x85 || c == 0xA0 || c == 0x1680
    || 0x2000 <= c <= 0x200A
    || c == 0x2028 || c == 0x2029 || c == 0x202F || c == 0x205F || c == 0x3000
  }
}
