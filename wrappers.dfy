/** Small shared datatypes: an optional value (JavaScript `null`, Python `None`) and byte sequences. */
module Wrappers {

  /** `None` stands for `null` / `None` / a rejected promise, depending on the caller. */
  datatype Option<+T> = None | Some(value: T)

  /** An octet, as held in a `Uint8Array` or a Python `bytes` object. */
  type byte = x: int | 0 <= x < 256

  /** `Uint8Array.prototype.slice(0, n)`: the first `n` elements, or all of them when shorter. */
  function Take<T>(s: seq<T>, n: nat): (r: seq<T>)
    ensures |r| == if n <= |s| then n else |s|
    ensures r <= s
  {
    if n <= |s| then s[..n] else s
  }

  /** `Uint8Array.prototype.slice(n)`: everything from index `n` on, or nothing when shorter. */
  function Drop<T>(s: seq<T>, n: nat): (r: seq<T>)
    ensures |r| == if n <= |s| then |s| - n else 0
    ensures Take(s, n) + r == s
  {
    if n <= |s| then s[n..] else []
  }
}
