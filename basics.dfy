/** Shared vocabulary: bytes, half-open byte ranges, and the Option/Result
    wrappers the rest of the model uses for the source's `Option`, `Result`
    and panics. */
module Basics {

  /** One byte. Rust `&str` is UTF-8; the model works on its bytes, and a
      character below 256 stands for one byte so that literals stay readable. */
  type Byte = c: char | c as int < 256 witness 'a'

  type Bytes = seq<Byte>

  datatype Option<T> = None | Some(value: T)

  datatype Result<T, E> = Ok(value: T) | Err(error: E) {
    predicate IsFailure() { Err? }

    function PropagateFailure<U>(): Result<U, E>
      requires Err?
    {
      Err(error)
    }

    function Extract(): T
      requires Ok?
    {
      value
    }
  }

  /** A half-open byte range `start..end`, as Rust's `Range<usize>`. */
  datatype Span = Span(start: nat, end: nat) {
    predicate Valid() { start <= end }

    function Len(): nat
      requires Valid()
    {
      end - start
    }

    /** The range moved `k` bytes to the right. */
    function Shift(k: nat): Span {
      Span(start + k, end + k)
    }

    /** The range fits inside a text of `n` bytes. */
    predicate Within(n: nat) { start <= end <= n }
  }

  /** Moving the first element of `xs` onto `acc` changes nothing overall. */
  lemma AppendFirst<T>(acc: seq<T>, xs: seq<T>)
    requires xs != []
    ensures acc + [xs[0]] + xs[1..] == acc + xs
  {
    assert [xs[0]] + xs[1..] == xs;
  }

  /** A suffix of the tail of `h` is a suffix of `h`. */
  lemma SuffixOfTail<T>(h: seq<T>, r: seq<T>)
    requires h != [] && |r| <= |h| - 1 && r == h[1..][|h| - 1 - |r|..]
    ensures r == h[|h| - |r|..]
  {
    assert h[1..][|h| - 1 - |r|..] == h[|h| - |r|..];
  }

  /** Appending to nothing. */
  lemma EmptyThen<T>(xs: seq<T>)
    ensures [] + xs == xs
  {
  }

  /** Appending nothing. */
  lemma AppendEmpty<T>(xs: seq<T>)
    ensures xs + [] == xs
  {
  }

  /** Appending one element and then more is appending them together. */
  lemma ConsAssoc<T>(acc: seq<T>, x: T, tail: seq<T>)
    ensures acc + [x] + tail == acc + ([x] + tail)
  {
  }

  /** Appending the only element of `xs` is appending `xs`. */
  lemma AppendOnly<T>(acc: seq<T>, xs: seq<T>)
    requires |xs| == 1
    ensures acc + [xs[0]] == acc + xs
  {
    assert xs == [xs[0]];
  }

  /** A sequence that starts with `acc + [x]` starts with `acc`. */
  lemma PrefixOfExtended<T>(xs: seq<T>, acc: seq<T>, x: T)
    requires |acc| + 1 <= |xs| && xs[..|acc| + 1] == acc + [x]
    ensures xs[..|acc|] == acc
  {
    assert xs[..|acc|] == xs[..|acc| + 1][..|acc|];
  }

  /** `p` is a prefix of `s` (Rust `s.starts_with(p)`). */
  predicate IsPrefix<T(==)>(p: seq<T>, s: seq<T>) {
    |p| <= |s| && s[..|p|] == p
  }
}
