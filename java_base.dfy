/** The parts of java.lang the habit tracker relies on: null-able references
    as Option, 32-bit int, and String.trim. */
module JavaBase {

  /** A Java reference that may be null: None stands for null. */
  datatype Option<+T> = None | Some(value: T)

  const MaxInt: int := 0x7FFF_FFFF

  /** Java's (and SQL's) INT. */
  newtype int32 = x: int | -0x8000_0000 <= x < 0x8000_0000

  /** String.trim removes every leading and trailing character at or below U+0020. */
  predicate IsTrimmable(c: char) {
    c <= ' '
  }

  predicate TrimmableBetween(s: string, lo: int, hi: int)
    requires 0 <= lo <= hi <= |s|
  {
    forall k | lo <= k < hi :: IsTrimmable(s[k])
  }

  /** Neither end of s is a character trim would remove. */
  predicate IsTrimmed(s: string) {
    s == [] || (!IsTrimmable(s[0]) && !IsTrimmable(s[|s| - 1]))
  }

  /** r is s with its first i characters and the ones after r removed, all of them trimmable. */
  predicate IsTrimOf(s: string, i: int, r: string) {
    && 0 <= i <= |s| - |r|
    && r == s[i..i + |r|]
    && TrimmableBetween(s, 0, i)
    && TrimmableBetween(s, i + |r|, |s|)
  }

  /** trim's first scan: the index of the first kept character at or after from. */
  function FirstKept(s: string, from: nat): (st: nat)
    requires from <= |s|
    ensures from <= st <= |s| && TrimmableBetween(s, from, st)
    ensures st == |s| || !IsTrimmable(s[st])
    decreases |s| - from
  {
    if from == |s| || !IsTrimmable(s[from]) then from else FirstKept(s, from + 1)
  }

  /** trim's second scan: shortens the end len while the character before it is trimmable. */
  function LastKept(s: string, st: nat, len: nat): (e: nat)
    requires st <= len <= |s|
    ensures st <= e <= len && TrimmableBetween(s, e, len)
    ensures e == st || !IsTrimmable(s[e - 1])
  {
    if len == st || !IsTrimmable(s[len - 1]) then len else LastKept(s, st, len - 1)
  }

  /** String.trim: s without its leading and trailing characters at or below U+0020. */
  function Trim(s: string): (r: string)
    ensures IsTrimmed(r)
    ensures IsTrimOf(s, FirstKept(s, 0), r)
    ensures r == [] <==> TrimmableBetween(s, 0, |s|)
  {
    var st := FirstKept(s, 0);
    s[st..LastKept(s, st, |s|)]
  }

  /** Any two ways of stripping trimmable ends down to a trimmed string agree:
      what String.trim returns is determined by its contract. */
  lemma TrimUnique(s: string, i: int, r: string, j: int, q: string)
    requires IsTrimOf(s, i, r) && IsTrimmed(r) && r != []
    requires IsTrimOf(s, j, q) && IsTrimmed(q) && q != []
    ensures i == j && r == q
  {
  }

  /** Trimming a trimmed string changes nothing, so trim is idempotent. */
  lemma TrimIdempotent(s: string)
    ensures Trim(Trim(s)) == Trim(s)
  {
  }
}
