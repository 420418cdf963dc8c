/**
 * The data-annotation attributes (`[Required]`, `[MaxLength]`, `[Range]`)
 * that the entity, request and options types carry, as predicates over the
 * annotated value. Strings and ints that may be `null` are `Option`s.
 */
module Annotations {
  import opened Wrappers

  const Int32Min: int := -0x8000_0000
  const Int32Max: int := 0x7fff_ffff

  /** The white-space characters of the Latin-1 range, as `char.IsWhiteSpace` classifies them. */
  predicate IsWhiteSpace(c: char)
  {
    c == ' ' || c == '\t' || c == '\n' || c == '\r' ||
    c == '\U{000B}' || c == '\U{000C}' || c == '\U{0085}' || c == '\U{00A0}'
  }

  /** `[Required]` on a string: not null, and not empty or white space only. */
  predicate Required(s: Option<string>)
  {
    s.Some? && exists k :: 0 <= k < |s.value| && !IsWhiteSpace(s.value[k])
  }

  /** `[MaxLength(n)]`: a null value passes. */
  predicate MaxLength(s: Option<string>, n: nat)
  {
    s.None? || |s.value| <= n
  }

  /** `[Range(lo, hi)]` on an `int`: both bounds inclusive. */
  predicate InRange(v: int, lo: int, hi: int)
  {
    lo <= v <= hi
  }

  /** `[Range(lo, hi)]` on an `int?`: a null value passes. */
  predicate InRangeOrNull(v: Option<int>, lo: int, hi: int)
  {
    v.None? || InRange(v.value, lo, hi)
  }
}
