/** Shared vocabulary of the model: optional values, the three ways a Rust
    call can end, bytes and the platform's integer limits.

    Text is modelled as `string`, one `char` per byte: the server only ever
    handles ASCII commands, so Rust's `str::len` (a byte count) is `|s|`. */
module Base {

  /** Rust's `Option<T>`. */
  datatype Option<+T> = None | Some(value: T)

  /** The error values a `?` can return in the modelled code. */
  datatype Error =
    | InvalidCommand   // `anyhow!("invalid command")`
    | ParseInt         // a `ParseIntError` from `str::parse` (empty, bad digit or overflow)
    | UnknownCommand   // `anyhow!("unknown command")`

  /** How a Rust call ends: a value, an `Err` handed back by `?`, or a panic
      (an `unwrap` of `None`/`Err`, an out-of-range index or slice, an
      unsigned underflow) that ends the calling thread. */
  datatype Outcome<+T> = Ok(value: T) | Err(error: Error) | Panic

  /** An octet, Rust's `u8`. */
  newtype byte = x: int | 0 <= x < 0x100

  /** One past the largest `u64`; `usize` is 64 bits wide on the platforms
      the server targets. */
  const U64_LIMIT: nat := 0x1_0000_0000_0000_0000
  const USIZE_LIMIT: nat := U64_LIMIT

  /** One past `isize::MAX`: no Rust string or vector is longer than this. */
  const ISIZE_LIMIT: nat := 0x8000_0000_0000_0000

  /** `c` occurs nowhere in `s`. */
  predicate NoChar(s: string, c: char) {
    forall i :: 0 <= i < |s| ==> s[i] != c
  }

  /** The bytes `bs` viewed as text, one `char` per byte. */
  function Latin1(bs: seq<byte>): (s: string)
    ensures |s| == |bs|
  {
    if bs == [] then [] else [bs[0] as int as char] + Latin1(bs[1..])
  }

  /** ASCII upper-casing of one character (`char::to_uppercase` restricted to
      ASCII). */
  function UpperChar(c: char): char {
    if 'a' <= c <= 'z' then (c as int - 32) as char else c
  }

  /** `str::to_uppercase`, restricted to ASCII letters. */
  function ToUpper(s: string): string {
    if s == [] then [] else [UpperChar(s[0])] + ToUpper(s[1..])
  }

  /** Text with no lower-case letter is its own upper case. */
  lemma {:induction false} ToUpperFixes(s: string)
    requires forall i :: 0 <= i < |s| ==> !('a' <= s[i] <= 'z')
    ensures ToUpper(s) == s
  {
    if s != [] {
      ToUpperFixes(s[1..]);
    }
  }

  /** Upper-casing twice is upper-casing once. */
  lemma {:induction false} ToUpperIdempotent(s: string)
    ensures ToUpper(ToUpper(s)) == ToUpper(s)
  {
    if s != [] {
      ToUpperIdempotent(s[1..]);
      assert ToUpper(s)[1..] == ToUpper(s[1..]);
    }
  }
}
