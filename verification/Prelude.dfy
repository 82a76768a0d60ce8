/** Vocabulary shared by every module: optional values, bytes, and the list
    operations that the modelled code takes from its language's library. */
module Prelude {

  datatype Option<+T> = None | Some(value: T)

  datatype Result<+T, +E> = Ok(value: T) | Err(error: E)

  type byte = b: int | 0 <= b < 256

  type bytes = seq<byte>

  function Min(a: int, b: int): int { if a < b then a else b }

  function Max(a: int, b: int): int { if a > b then a else b }

  /** Math.round(n / d) for a positive d: halves go up. */
  function Round(n: int, d: int): int
    requires d > 0
  {
    (2 * n + d) / (2 * d)
  }

  /** The rounded quotient is within half of the exact one. */
  lemma RoundDivides(n: int, d: int)
    requires d > 0
    ensures 2 * d * Round(n, d) <= 2 * n + d < 2 * d * Round(n, d) + 2 * d
  {
    assert 2 * n + d == 2 * d * Round(n, d) + (2 * n + d) % (2 * d);
  }

  /** `r` is the integer nearest to n / d; a half goes up. */
  predicate Nearest(r: int, n: int, d: int) { 2 * d * r - d <= 2 * n < 2 * d * r + d }

  lemma RoundIsNearest(n: int, d: int, r: int)
    requires d > 0
    ensures Nearest(r, n, d) <==> r == Round(n, d)
  {
    RoundDivides(n, d);
    hide Round;
    var q := Round(n, d);
    if r < q { LessByOne(2 * d, r, q); }
    if r > q { LessByOne(2 * d, q, r); }
  }

  lemma LessByOne(d: int, x: int, y: int)
    requires d > 0 && x < y
    ensures d * x + d <= d * y
  {
    assert d * (y - x - 1) >= 0;
  }

  /** Keeps the elements satisfying `keep`, in order (`Vec::retain`, `Array.filter`). */
  function Filter<T>(keep: T -> bool, s: seq<T>): (r: seq<T>)
    ensures |r| <= |s|
    ensures forall x :: x in r ==> x in s && keep(x)
    ensures forall x :: x in s ==> keep(x) ==> x in r
  {
    if s == [] then [] else
      (if keep(s[0]) then [s[0]] else []) + Filter(keep, s[1..])
  }

  /** The first index whose element satisfies `p`, or |s| (`Iterator::position`). */
  function Position<T>(p: T -> bool, s: seq<T>): (i: nat)
    ensures i <= |s|
    ensures i < |s| ==> p(s[i])
    ensures forall j :: 0 <= j < i ==> !p(s[j])
  {
    if s == [] || p(s[0]) then 0 else 1 + Position(p, s[1..])
  }

  /** The list without its i-th element (`Vec::remove`, `Map.delete`). */
  function Without<T>(s: seq<T>, i: nat): seq<T>
    requires i < |s|
  {
    s[..i] + s[i + 1..]
  }

  /** The concatenation of a list of lists. */
  function Flatten<T>(parts: seq<seq<T>>): seq<T>
  {
    if parts == [] then [] else parts[0] + Flatten(parts[1..])
  }

  lemma {:induction false} FilterAppend<T>(keep: T -> bool, a: seq<T>, b: seq<T>)
    ensures Filter(keep, a + b) == Filter(keep, a) + Filter(keep, b)
  {
    if a == [] {
      assert a + b == b;
    } else {
      assert (a + b)[1..] == a[1..] + b;
      FilterAppend(keep, a[1..], b);
    }
  }

  lemma {:induction false} FilterAll<T>(keep: T -> bool, s: seq<T>)
    requires forall x :: x in s ==> keep(x)
    ensures Filter(keep, s) == s
  {
    if s == [] {
    } else {
      FilterAll(keep, s[1..]);
    }
  }

  lemma {:induction false} FlattenAppend<T>(a: seq<seq<T>>, b: seq<seq<T>>)
    ensures Flatten(a + b) == Flatten(a) + Flatten(b)
  {
    if a == [] {
      assert a + b == b;
    } else {
      assert (a + b)[1..] == a[1..] + b;
      FlattenAppend(a[1..], b);
    }
  }

  lemma FlattenOne<T>(a: seq<T>)
    ensures Flatten([a]) == a
  {
    assert [a][1..] == [];
    assert Flatten<T>([]) == [];
  }

  lemma FlattenStep<T>(parts: seq<seq<T>>, i: nat)
    requires i < |parts|
    ensures Flatten(parts[..i + 1]) == Flatten(parts[..i]) + parts[i]
  {
    assert parts[..i + 1] == parts[..i] + [parts[i]];
    FlattenAppend(parts[..i], [parts[i]]);
    FlattenOne(parts[i]);
  }

  lemma FlattenSplit<T>(parts: seq<seq<T>>, i: nat)
    requires i <= |parts|
    ensures Flatten(parts) == Flatten(parts[..i]) + Flatten(parts[i..])
  {
    assert parts == parts[..i] + parts[i..];
    FlattenAppend(parts[..i], parts[i..]);
  }

  lemma Associate<T>(a: seq<T>, b: seq<T>, c: seq<T>)
    ensures a + (b + c) == a + b + c
  {
  }

  lemma Cancel<T>(a: seq<T>, b: seq<T>, c: seq<T>)
    requires a + b == a + c
    ensures b == c
  {
    assert b == (a + b)[|a|..] && c == (a + c)[|a|..];
  }

  /** Where the parts of a suffix lie in the whole. */
  lemma Slices<T>(s: seq<T>, at: nat, a: seq<T>, b: seq<T>, c: seq<T>)
    requires at <= |s| && s[at..] == a + b + c
    ensures at + |a| + |b| + |c| == |s|
    ensures s[at..at + |a|] == a && s[at + |a|..at + |a| + |b|] == b && s[at + |a| + |b|..] == c
  {
    var t := s[at..];
    assert s[at..at + |a|] == t[..|a|];
    assert s[at + |a|..at + |a| + |b|] == t[|a|..|a| + |b|];
    assert s[at + |a| + |b|..] == t[|a| + |b|..];
  }

  // ---- big-endian integers ----

  function U16(n: int): (r: bytes)
    ensures |r| == 2
  {
    [n / 0x100 % 0x100, n % 0x100]
  }

  function U32(n: int): (r: bytes)
    ensures |r| == 4
  {
    U16(n / 0x1_0000) + U16(n)
  }

  function ReadU16(s: bytes, at: nat): (n: nat)
    requires at + 2 <= |s|
    ensures n < 0x1_0000
  {
    s[at] as int * 0x100 + s[at + 1]
  }

  function ReadU32(s: bytes, at: nat): (n: nat)
    requires at + 4 <= |s|
    ensures n < 0x1_0000_0000
  {
    ReadU16(s, at) * 0x1_0000 + ReadU16(s, at + 2)
  }

  /** A 16-bit field reads back modulo 2^16, wherever it was written. */
  lemma U16RoundTrip(s: bytes, at: nat, n: int)
    requires at + 2 <= |s| && s[at..at + 2] == U16(n)
    ensures ReadU16(s, at) == n % 0x1_0000
  {
    assert s[at] == s[at..at + 2][0] && s[at + 1] == s[at..at + 2][1];
  }

  /** A 32-bit field reads back modulo 2^32, wherever it was written. */
  lemma U32RoundTrip(s: bytes, at: nat, n: int)
    requires at + 4 <= |s| && s[at..at + 4] == U32(n)
    ensures ReadU32(s, at) == n % 0x1_0000_0000
  {
    assert s[at..at + 2] == s[at..at + 4][..2] == U16(n / 0x1_0000);
    assert s[at + 2..at + 4] == s[at..at + 4][2..] == U16(n);
    U16RoundTrip(s, at, n / 0x1_0000);
    U16RoundTrip(s, at + 2, n);
  }

  /** Writing back what was read gives the bytes that were read. */
  lemma ReadBack16(s: bytes, at: nat)
    requires at + 2 <= |s|
    ensures U16(ReadU16(s, at)) == s[at..at + 2]
  {
  }

  /** The low half of a 32-bit number does not see the high half. */
  lemma Halves(high: int, low: nat)
    requires low < 0x1_0000
    ensures (high * 0x1_0000 + low) / 0x1_0000 == high && U16(high * 0x1_0000 + low) == U16(low)
  {
    var n := high * 0x1_0000 + low;
    assert n / 0x100 == high * 0x100 + low / 0x100;
    assert n % 0x100 == low % 0x100;
  }

  lemma ReadBack32(s: bytes, at: nat)
    requires at + 4 <= |s|
    ensures U32(ReadU32(s, at)) == s[at..at + 4]
  {
    Halves(ReadU16(s, at), ReadU16(s, at + 2));
    ReadBack16(s, at);
    ReadBack16(s, at + 2);
    hide U16, ReadU16;
    assert s[at..at + 4] == s[at..at + 2] + s[at + 2..at + 4];
  }
}
