/** Bytes, decoding errors and the result type shared by every decoder of the memory-card model. */
module Base {

  /** One byte of a memory-card image. */
  type byte = b: nat | b < 256

  /** The two ways decoding fails in the program: an index past the end of a buffer (Python's
      IndexError) and a character byte that names no member of CHARACTER (Python's ValueError). */
  datatype Error = IndexOutOfRange | UnknownCharacter(value: byte)

  /** A value that may be absent; `None` stands for Python's `None`. */
  datatype Option<+T> = None | Some(value: T)

  /** The outcome of a decoding step; failure-compatible, so `:-` propagates the first error. */
  datatype Result<+T> = Ok(value: T) | Err(error: Error) {

    predicate IsFailure() {
      Err?
    }

    function PropagateFailure<U>(): Result<U>
      requires Err?
    {
      Err(error)
    }

    function Extract(): T
      requires Ok?
    {
      value
    }
  }

  function Min(a: nat, b: nat): (r: nat) {
    if a <= b then a else b
  }

  function Max(a: nat, b: nat): (r: nat) {
    if a <= b then b else a
  }

  /** Python's `s[lo:hi]` for non-negative bounds: both ends are clamped to the length of `s`,
      so a slice running past the end is short rather than an error. */
  function Slice<T>(s: seq<T>, lo: nat, hi: nat): (r: seq<T>)
    ensures |r| == if lo < Min(hi, |s|) then Min(hi, |s|) - lo else 0
    ensures forall i | 0 <= i < |r| :: r[i] == s[lo + i]
  {
    if lo < Min(hi, |s|) then s[lo..Min(hi, |s|)] else []
  }

  lemma SliceInside<T>(s: seq<T>, lo: nat, hi: nat)
    requires lo <= hi <= |s|
    ensures Slice(s, lo, hi) == s[lo..hi]
  {
  }

  /** Python's normalisation of a slice bound against a length `n`: a negative bound counts
      back from the end, and the result is clamped to 0 .. n. */
  function SliceBound(i: int, n: nat): (k: nat)
    ensures k <= n
    ensures 0 <= i ==> k == Min(i, n)
    ensures i < 0 && 0 <= i + n ==> k == i + n
    ensures i + n < 0 ==> k == 0
  {
    if i >= 0 then Min(i, n) else if i + n < 0 then 0 else i + n
  }

  /** Python's `s[lo:hi]` for any integer bounds; on non-negative bounds it is `Slice`. */
  function PySlice<T>(s: seq<T>, lo: int, hi: int): (r: seq<T>)
    ensures 0 <= lo && 0 <= hi ==> r == Slice(s, lo, hi)
    ensures |r| <= |s| - SliceBound(lo, |s|)
  {
    var a, b := SliceBound(lo, |s|), SliceBound(hi, |s|);
    if a < b then s[a..b] else []
  }
}
