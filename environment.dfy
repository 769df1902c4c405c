/** The per-run ABI configuration (lib/src/env.rs). */
module Environment {
  import opened Util

  datatype WordSize = Size16 | Size32 | Size64

  /** Width of a machine word, also taken as the width of `long` and of every pointer. */
  function Bits(w: WordSize): (b: nat)
    ensures b == 8 * Bytes(w)
    ensures b == 16 || b == 32 || b == 64
  {
    match w
    case Size16 => 16
    case Size32 => 32
    case Size64 => 64
  }

  function Bytes(w: WordSize): (n: nat)
    ensures n == 2 || n == 4 || n == 8
  {
    match w
    case Size16 => 2
    case Size32 => 4
    case Size64 => 8
  }

  /** The `-m<bits>` flag that asks the front end for this word size. */
  function ClangArg(w: WordSize): (arg: string)
    ensures arg == "-m" + Decimal(Bits(w))
  {
    match w
    case Size16 => "-m16"
    case Size32 => "-m32"
    case Size64 => "-m64"
  }

  /** Distinct word sizes are requested with distinct flags. */
  lemma ClangArgInjective(a: WordSize, b: WordSize)
    requires ClangArg(a) == ClangArg(b)
    ensures a == b
  {
    assert ClangArg(a)[2..] == Decimal(Bits(a)) && ClangArg(b)[2..] == Decimal(Bits(b));
    DecimalRoundTrip(Bits(a));
    DecimalRoundTrip(Bits(b));
  }

  datatype EnvOptions = EnvOptions(wordSize: WordSize, shortEnums: bool, signedChar: bool)

  datatype Env = Env(wordSize: WordSize, shortEnums: bool, signedChar: bool)

  /** 64-bit words, short enums and signed plain `char`. */
  function DefaultOptions(): (o: EnvOptions)
    ensures Bits(o.wordSize) == 64 && o.shortEnums && o.signedChar
  {
    EnvOptions(Size64, true, true)
  }

  function NewEnv(options: EnvOptions): (env: Env)
    ensures env.wordSize == options.wordSize
    ensures env.shortEnums == options.shortEnums
    ensures env.signedChar == options.signedChar
  {
    var EnvOptions(wordSize, shortEnums, signedChar) := options;
    Env(wordSize, shortEnums, signedChar)
  }

  function ShortEnumsClangArg(env: Env): (arg: string)
    ensures arg == "-fshort-enums" <==> env.shortEnums
    ensures arg == "-fno-short-enums" <==> !env.shortEnums
  {
    if env.shortEnums then "-fshort-enums" else "-fno-short-enums"
  }

  function SignedCharClangArg(env: Env): (arg: string)
    ensures arg == "-fsigned-char" <==> env.signedChar
    ensures arg == "-funsigned-char" <==> !env.signedChar
  {
    if env.signedChar then "-fsigned-char" else "-funsigned-char"
  }
}
