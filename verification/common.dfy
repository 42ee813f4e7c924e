/** Small value types shared by every component: optional values, results,
    bytes, and the ASCII case folding used by the request handlers. */
module Common {

  /** Rust's `Option<T>`. */
  datatype Option<+T> = None | Some(value: T)

  /** Rust's `Result<T, E>`; an `Err` is a value, never a panic. */
  datatype Result<+T, +E> = Ok(value: T) | Err(error: E)

  /** HTTP 200, the status every successful handler answers with. */
  const StatusOk: nat := 200
  /** The other HTTP statuses the handlers answer with. */
  const StatusNoContent: nat := 204
  const StatusBadRequest: nat := 400
  const StatusUnsupportedMediaType: nat := 415
  const StatusTeapot: nat := 418
  const StatusInternalError: nat := 500
  const StatusUnavailable: nat := 503

  /** An unsigned 8-bit integer (`u8`). */
  type Byte = x: int | 0 <= x < 256

  /** Lower-cases an ASCII upper-case letter and leaves every other character alone. */
  function LowerChar(c: char): char
  {
    if 'A' <= c <= 'Z' then (c as int + 32) as char else c
  }

  /** `str::to_lowercase`, restricted to ASCII letters.  Only two non-ASCII
      characters lower-case to something containing an ASCII letter (the
      Kelvin sign to `k` and U+0130 to `i` plus a combining dot), and neither
      letter occurs in any word the handlers compare against, so the
      comparisons the model makes come out as in the source. */
  function Lower(s: string): (r: string)
    ensures |r| == |s|
    ensures forall i :: 0 <= i < |s| ==> r[i] == LowerChar(s[i])
  {
    seq(|s|, i requires 0 <= i < |s| => LowerChar(s[i]))
  }

  /** Two characters that are equal once ASCII case is ignored. */
  predicate SameCharIgnoringCase(a: char, b: char)
  {
    a == b || ('A' <= a <= 'Z' && b as int == a as int + 32) || ('A' <= b <= 'Z' && a as int == b as int + 32)
  }

  /** Two strings that are equal once ASCII case is ignored. */
  predicate SameIgnoringCase(s: string, t: string)
  {
    |s| == |t| && forall i :: 0 <= i < |s| ==> SameCharIgnoringCase(s[i], t[i])
  }

  /** Lower-casing is idempotent, leaves no upper-case ASCII letter, and
      identifies exactly the strings that differ only in ASCII case. */
  lemma LowerLaws(s: string, t: string)
    ensures Lower(Lower(s)) == Lower(s)
    ensures forall i :: 0 <= i < |s| ==> !('A' <= Lower(s)[i] <= 'Z')
    ensures Lower(s) == Lower(t) <==> SameIgnoringCase(s, t)
  {
    assert Lower(Lower(s)) == Lower(s);
    if Lower(s) == Lower(t) {
      forall i | 0 <= i < |s|
        ensures SameCharIgnoringCase(s[i], t[i])
      {
        assert Lower(s)[i] == Lower(t)[i];
      }
    }
    if SameIgnoringCase(s, t) {
      forall i | 0 <= i < |s|
        ensures Lower(s)[i] == Lower(t)[i]
      {
        assert SameCharIgnoringCase(s[i], t[i]);
      }
    }
  }
}
